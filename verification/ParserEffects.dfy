/** What one packet does to the message parser in states the round trip never meets: bytes that belong to no
    message, messages cut short by the next one, and messages that never end. */
module ParserEffects {
  import opened Common
  import opened FrameReassembly
  import opened CommandParser
  import opened PartOrder
  import opened ReorderQueue

  /** The packet opens with "XZYH". */
  predicate OpensWithMagic(data: bytes) {
    |data| >= 4 && data[0] == 0x58 && data[1] == 0x5A && data[2] == 0x59 && data[3] == 0x48
  }

  lemma {:induction false} MagicMeans(data: bytes)
    ensures HasMagic(data) <==> OpensWithMagic(data)
  {
    if |data| >= 4 {
      assert data[..4] == [data[0], data[1], data[2], data[3]];
    }
  }

  /** More than 16 bytes that belong to no message: dropped, and the parser is as it was. */
  predicate IsJunk(data: bytes) {
    |data| > 16 && !OpensWithMagic(data)
  }

  lemma {:induction false} JunkIsDropped(p: Parser, seqNo: uint16, data: bytes)
    requires !p.panicked && p.leftover == [] && p.header.bytesToRead == p.bytesRead && IsJunk(data)
    ensures Parse(p, seqNo, data) == p
  {
    MagicMeans(data);
    assert p.leftover + data == data;
    assert p.(leftover := []) == p;
  }

  /** At most 16 bytes that belong to no message: kept in front of the next packet. */
  lemma {:induction false} ShortJunkIsKept(p: Parser, seqNo: uint16, data: bytes)
    requires !p.panicked && p.leftover == [] && p.header == ZERO_HEADER && p.bytesRead == 0
    requires 0 < |data| <= 16 && !OpensWithMagic(data)
    ensures Parse(p, seqNo, data) == p.(leftover := data, parts := p.parts[seqNo := []])
  {
    MagicMeans(data);
    assert p.leftover + data == data && data[..0] == [] && data[0..] == data;
    var q := p.(leftover := data, parts := p.parts[seqNo := []]);
    assert Loop(q, seqNo, []) == q;
  }

  /** Less than a header: kept until the rest arrives. */
  lemma {:induction false} CutHeaderIsKept(p: Parser, seqNo: uint16, data: bytes)
    requires !p.panicked && p.leftover == [] && |data| < 16 && OpensWithMagic(data)
    ensures Parse(p, seqNo, data) == p.(leftover := data)
  {
    MagicMeans(data);
    assert p.leftover + data == data;
  }

  /** A message in one packet, whatever the parser was doing before: it is reported at once, together with the
      parts an abandoned message has left behind. */
  lemma {:induction false} WholeMessage(p: Parser, seqNo: uint16, h: Header, reserved: bytes, body: bytes)
    requires !p.panicked && p.leftover == [] && |reserved| == 3 && 0 < |body| == h.bytesToRead
    ensures Parse(p, seqNo, HeaderBytes(h, reserved) + body)
         == Parser([], ZERO_HEADER, 0, map[], p.completed + [Completed(h, seqNo, p.parts[seqNo := body])], false)
  {
    HeaderRoundTrip(h, reserved, body);
    hide ParseHeader, HeaderBytes;
    var data := HeaderBytes(h, reserved) + body;
    assert p.leftover + data == data && p.(leftover := []) == p;
    LoopTakesFirst(p, seqNo, data);
    assert body[..|body|] == body && body[|body|..] == [];
  }

  /** Bytes behind a whole message: at most 16 of them are kept in front of the next packet, and more are taken
      as if they had come in a packet of their own under the same number. */
  lemma {:induction false} RestOfPacket(p: Parser, seqNo: uint16, h: Header, reserved: bytes, body: bytes, rest: bytes)
    requires !p.panicked && p.leftover == [] && |reserved| == 3 && 0 < |body| == h.bytesToRead && rest != []
    ensures var done := Parse(p, seqNo, HeaderBytes(h, reserved) + body);
            Parse(p, seqNo, HeaderBytes(h, reserved) + body + rest)
            == if |rest| <= 16 then done.(leftover := rest) else Parse(done, seqNo, rest)
  {
    WholeMessage(p, seqNo, h, reserved, body);
    HeaderRoundTrip(h, reserved, body + rest);
    hide ParseHeader, HeaderBytes;
    var data := HeaderBytes(h, reserved) + (body + rest);
    assert HeaderBytes(h, reserved) + body + rest == data;
    assert p.leftover + data == data && p.(leftover := []) == p;
    LoopTakesFirst(p, seqNo, data);
    assert (body + rest)[..|body|] == body && (body + rest)[|body|..] == rest;
    var done := Parser([], ZERO_HEADER, 0, map[], p.completed + [Completed(h, seqNo, p.parts[seqNo := body])], false);
    assert done.leftover + rest == rest && done.(leftover := []) == done;
    assert Loop(done.(leftover := rest), seqNo, []) == done.(leftover := rest);
  }

  // ----- A message that carries on -----

  /** Too little to finish the message: more than 16 bytes become a part, fewer are kept in front of the next
      packet. */
  lemma {:induction false} CarryingOnStores(p: Parser, seqNo: uint16, data: bytes)
    requires !p.panicked && p.leftover == [] && data != [] && !OpensWithMagic(data)
    requires |data| < p.header.bytesToRead - p.bytesRead && 0 <= p.bytesRead
    ensures Parse(p, seqNo, data)
         == if |data| <= 16 then p.(leftover := data)
            else p.(parts := p.parts[seqNo := data], bytesRead := p.bytesRead + |data|)
  {
    MagicMeans(data);
    assert p.leftover + data == data && p.(leftover := []) == p;
    var q := if |data| <= 16 then p.(leftover := data) else p.Store(seqNo, data, p.bytesRead + |data|);
    assert Report(q, seqNo) == q && Loop(q, seqNo, []) == q;
  }

  /** Exactly what is missing: the message is reported with its last part. */
  lemma {:induction false} CarryingOnFinishes(p: Parser, seqNo: uint16, data: bytes)
    requires !p.panicked && p.leftover == [] && data != [] && !OpensWithMagic(data)
    requires |data| == p.header.bytesToRead - p.bytesRead && 0 <= p.bytesRead
    ensures Parse(p, seqNo, data)
         == Parser([], ZERO_HEADER, 0, map[], p.completed + [Completed(p.header, seqNo, p.parts[seqNo := data])], false)
  {
    MagicMeans(data);
    assert p.leftover + data == data && p.(leftover := []) == p;
    assert data[..|data|] == data && data[|data|..] == [];
    var q := Report(p.Store(seqNo, data, p.header.bytesToRead), seqNo);
    assert Loop(q, seqNo, []) == q;
  }

  // ----- What is handed on after an abandoned message -----

  /** Nothing but the one part. */
  predicate OnlyPart(parts: map<uint16, bytes>, seqNo: uint16) {
    forall k <- parts :: k != seqNo ==> parts[k] == []
  }

  lemma {:induction false} JoinOfOne(parts: map<uint16, bytes>, keys: seq<uint16>, seqNo: uint16)
    requires (forall k <- keys :: k in parts) && OnlyPart(parts, seqNo)
    requires forall i, j :: 0 <= i < j < |keys| ==> keys[i] != keys[j]
    ensures ConcatParts(parts, keys) == if seqNo in keys then parts[seqNo] else []
  {
    if keys == [] {
    } else {
      JoinOfOne(parts, keys[..|keys| - 1], seqNo);
    }
  }

  lemma {:induction false} JoinHoldsBoth(parts: map<uint16, bytes>, keys: seq<uint16>, a: uint16, b: uint16)
    requires (forall k <- keys :: k in parts) && a in keys && b in keys && a != b
    ensures |ConcatParts(parts, keys)| >= |parts[a]| + |parts[b]|
  {
    var n := |keys| - 1;
    if keys[n] == a {
      JoinHolds(parts, keys[..n], b);
    } else if keys[n] == b {
      JoinHolds(parts, keys[..n], a);
    } else {
      JoinHoldsBoth(parts, keys[..n], a, b);
    }
  }

  lemma {:induction false} JoinHolds(parts: map<uint16, bytes>, keys: seq<uint16>, a: uint16)
    requires (forall k <- keys :: k in parts) && a in keys
    ensures |ConcatParts(parts, keys)| >= |parts[a]|
  {
    var n := |keys| - 1;
    if keys[n] == a {
    } else {
      JoinHolds(parts, keys[..n], a);
    }
  }

  /** The body handed on for a message in one packet is the body sent if and only if no other packet's part was
      left behind by an abandoned message, however the sort proceeds. */
  lemma {:induction false} IntactExactly(p: Parser, seqNo: uint16, body: bytes, handedOn: bytes)
    requires SortedConcat(p.parts[seqNo := body], handedOn)
    ensures handedOn == body <==> OnlyPart(p.parts, seqNo)
  {
    var parts := p.parts[seqNo := body];
    var keys :| SortResult(keys, parts.Keys) && handedOn == ConcatParts(parts, keys);
    assert seqNo in keys;
    if OnlyPart(p.parts, seqNo) {
      JoinOfOne(parts, keys, seqNo);
    } else {
      var k :| k in p.parts && k != seqNo && p.parts[k] != [];
      assert k in parts.Keys && k in keys;
      JoinHoldsBoth(parts, keys, seqNo, k);
    }
  }

  /** From a new parser: a message abandoned after more than 16 bytes of its body spoils the next one. */
  lemma {:induction false} AbandonedSpoilsNext(h: Header, g: Header, reserved: bytes, long: bytes, body: bytes,
                                               first: uint16, second: uint16, handedOn: bytes)
    requires |reserved| == 3 && first != second
    requires 16 < |long| < h.bytesToRead && 0 < |body| == g.bytesToRead
    requires var p := Parse(NEW_PARSER, first, HeaderBytes(h, reserved) + long);
             var done := Parse(p, second, HeaderBytes(g, reserved) + body).completed;
             |done| == 1 ==> SortedConcat(done[0].parts, handedOn)
    ensures var p := Parse(NEW_PARSER, first, HeaderBytes(h, reserved) + long);
            var done := Parse(p, second, HeaderBytes(g, reserved) + body).completed;
            |done| == 1 && done[0].header == g && handedOn != body
  {
    hide HeaderBytes, Parse, SortedConcat;
    var p := Parse(NEW_PARSER, first, HeaderBytes(h, reserved) + long);
    TakesWhole(NEW_PARSER, first, h, reserved, long);
    assert p.parts == map[first := long];
    WholeMessage(p, second, g, reserved, body);
    IntactExactly(p, second, body, handedOn);
    assert first in p.parts && p.parts[first] != [];
  }
}
