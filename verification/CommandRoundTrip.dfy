/** Serialising messages, cutting the bytes into packets anywhere and parsing the packets in sequence
    gives back exactly the messages. */
module CommandRoundTrip {
  import opened Common
  import opened SequenceNumbers
  import opened FrameReassembly
  import opened PartOrder
  import opened CommandParser
  import opened ParserEffects

  datatype SentMessage = SentMessage(header: Header, reserved: bytes, body: bytes) {
    /** The body is not empty and nowhere contains the magic word. */
    predicate WellFormed() {
      && |reserved| == 3 && body != [] && header.bytesToRead == |body|
      && MagicFree(body)
    }

    function Serialize(): bytes
      requires WellFormed()
    {
      HeaderBytes(header, reserved) + body
    }
  }

  predicate MagicFree(body: bytes) {
    forall i :: 0 <= i <= |body| ==> !HasMagic(body[i..])
  }

  predicate AllWellFormed(ms: seq<SentMessage>) {
    forall k :: 0 <= k < |ms| ==> ms[k].WellFormed()
  }

  /** The bytes of messages k, k + 1, ... */
  function WireFrom(ms: seq<SentMessage>, k: nat): bytes
    requires AllWellFormed(ms) && k <= |ms|
    decreases |ms| - k
  {
    if k == |ms| then [] else ms[k].Serialize() + WireFrom(ms, k + 1)
  }

  /** The bytes of packets c, c + 1, ... */
  function BytesFrom(packets: seq<bytes>, c: nat): bytes
    requires c <= |packets|
    decreases |packets| - c
  {
    if c == |packets| then [] else packets[c] + BytesFrom(packets, c + 1)
  }

  /** No two packets touched by the same message are 536 or more apart. Packet f reaches into message k
      or beyond when it is not wholly before it; packet c reaches back when it is not wholly behind it. */
  predicate SpansFit(packets: seq<bytes>, ms: seq<SentMessage>)
    requires AllWellFormed(ms)
  {
    forall k, f, c | 0 <= k < |ms| && 0 <= f <= c < |packets|
                     && ReachesMessage(packets, ms, f, k) && Touches(packets, ms, c, k) ::
      c - f < MAX_SPAN
  }

  predicate ReachesMessage(packets: seq<bytes>, ms: seq<SentMessage>, f: nat, k: nat)
    requires AllWellFormed(ms) && k <= |ms| && f < |packets|
  {
    |BytesFrom(packets, f + 1)| < |WireFrom(ms, k)|
  }

  predicate Touches(packets: seq<bytes>, ms: seq<SentMessage>, c: nat, k: nat)
    requires AllWellFormed(ms) && k < |ms| && c < |packets|
  {
    |BytesFrom(packets, c)| > |WireFrom(ms, k + 1)|
  }

  // ----- What a report must say -----

  /** The report carries message m, last packet end - 1, and its parts join to the body in sending order. */
  ghost predicate Carries(start: uint16, done: Completed, m: SentMessage, first: nat, end: nat)
    requires first < end
  {
    && done.header == m.header && done.seqNo == Wrap(start, end - 1)
    && end - first <= MAX_SPAN
    && KeysWithin(start, done.parts.Keys, first, end)
    && Joined(start, done.parts, first, end) == m.body
  }

  ghost predicate CarriesSomewhere(start: uint16, done: Completed, m: SentMessage) {
    exists first: nat, end: nat :: first < end && Carries(start, done, m, first, end)
  }

  ghost predicate Reported(start: uint16, completed: seq<Completed>, ms: seq<SentMessage>, k: nat)
    requires k <= |ms|
  {
    && |completed| == k
    && (forall j :: 0 <= j < k ==> CarriesSomewhere(start, completed[j], ms[j]))
  }

  // ----- The parser state in terms of the stream -----

  ghost predicate AllEmpty(parts: map<uint16, bytes>) {
    forall k <- parts :: parts[k] == []
  }

  /** Between messages: messages k, k + 1, ... are still wholly unconsumed. */
  ghost predicate Between(ms: seq<SentMessage>, p: Parser, k: nat, unread: bytes)
    requires AllWellFormed(ms) && k <= |ms|
  {
    && p.header == ZERO_HEADER && p.bytesRead == 0 && AllEmpty(p.parts)
    && unread == WireFrom(ms, k)
  }

  /** Inside message k: its header and a proper prefix of its body are consumed. */
  ghost predicate Inside(start: uint16, ms: seq<SentMessage>, p: Parser, k: nat, f: nat, c: nat, unread: bytes)
    requires AllWellFormed(ms) && k <= |ms| && f <= c
  {
    && k < |ms| && p.header == ms[k].header
    && 0 <= p.bytesRead < |ms[k].body|
    && Joined(start, p.parts, f, c) == ms[k].body[..p.bytesRead]
    && unread == ms[k].body[p.bytesRead..] + WireFrom(ms, k + 1)
  }

  /** unread: leftover bytes followed by all bytes not yet handed over. The parts so far come from
      packets f, ..., c - 1. */
  ghost predicate Sync(start: uint16, ms: seq<SentMessage>, p: Parser, k: nat, f: nat, c: nat, unread: bytes)
    requires AllWellFormed(ms)
  {
    && f <= c && k <= |ms| && !p.panicked
    && KeysWithin(start, p.parts.Keys, f, c)
    && (Between(ms, p, k, unread) || Inside(start, ms, p, k, f, c, unread))
    && Reported(start, p.completed, ms, k)
  }

  // ----- Parts -----

  lemma {:induction false} JoinedAllEmpty(start: uint16, parts: map<uint16, bytes>, f: nat, c: nat)
    requires f <= c && AllEmpty(parts)
    ensures Joined(start, parts, f, c) == []
    decreases c
  {
    if f == c {
    } else {
      JoinedAllEmpty(start, parts, f, c - 1);
    }
  }

  lemma {:induction false} JoinedUnchanged(start: uint16, parts: map<uint16, bytes>, f: nat, e: nat, c: nat,
        part: bytes)
    requires f <= e <= c < f + 0x1_0000
    ensures Joined(start, parts[Wrap(start, c) := part], f, e) == Joined(start, parts, f, e)
    decreases e
  {
    if f == e {
    } else {
      JoinedUnchanged(start, parts, f, e - 1, c, part);
      if Wrap(start, e - 1) == Wrap(start, c) { WrapInjective(start, e - 1, c); }
    }
  }

  lemma {:induction false} KeysGrow(start: uint16, keys: set<uint16>, f: nat, c: nat)
    requires f <= c && KeysWithin(start, keys, f, c)
    ensures KeysWithin(start, keys + {Wrap(start, c)}, f, c + 1) && KeysWithin(start, keys, f, c + 1)
  {
    forall k | k in keys + {Wrap(start, c)} ensures Numbers(start, f, c + 1, k) {
      if k in keys {
        assert Numbers(start, f, c, k);
        var i: nat :| f <= i < c && Wrap(start, i) == k;
      } else {
        assert Wrap(start, c) == k;
      }
    }
  }

  /** Storing the part of packet c appends it to what the parts join to. */
  lemma {:induction false} StoreAppends(start: uint16, parts: map<uint16, bytes>, f: nat, c: nat, part: bytes)
    requires f <= c < f + MAX_SPAN && KeysWithin(start, parts.Keys, f, c)
    ensures var parts' := parts[Wrap(start, c) := part];
            && KeysWithin(start, parts'.Keys, f, c + 1)
            && Joined(start, parts', f, c + 1) == Joined(start, parts, f, c) + part
  {
    var parts' := parts[Wrap(start, c) := part];
    KeysGrow(start, parts.Keys, f, c);
    assert parts'.Keys == parts.Keys + {Wrap(start, c)};
    JoinedUnchanged(start, parts, f, c, c, part);
  }

  /** Packet c holds no part of the open message. */
  lemma {:induction false} NoPartYet(start: uint16, parts: map<uint16, bytes>, f: nat, c: nat)
    requires f <= c < f + MAX_SPAN && KeysWithin(start, parts.Keys, f, c)
    ensures Wrap(start, c) !in parts
    ensures Joined(start, parts, f, c + 1) == Joined(start, parts, f, c)
  {
    if Wrap(start, c) in parts {
      assert Numbers(start, f, c, Wrap(start, c));
      var i: nat :| f <= i < c && Wrap(start, i) == Wrap(start, c);
      WrapInjective(start, i, c);
    }
  }

  // ----- Where the magic word can appear -----

  /** No proper suffix of the magic word is a prefix of it: a body without the magic word, followed by
      anything that opens with it, does not hold the word across the boundary either. */
  lemma {:induction false} NoMagicAcross(tail: bytes, next: bytes)
    requires tail != [] && !HasMagic(tail)
    requires next == [] || next[0] == 0x58
    ensures !HasMagic(tail + next)
  {
    var all := tail + next;
    if |tail| >= 4 {
      assert all[..4] == tail[..4];
    } else if |all| >= 4 {
      assert all[..4][|tail|] == 0x58;
    }
  }

  /** Data that begins inside a body never opens with the magic word. */
  lemma {:induction false} NoFalseMagic(ms: seq<SentMessage>, k: nat, r: nat, data: bytes, future: bytes)
    requires AllWellFormed(ms) && k < |ms| && r < |ms[k].body|
    requires data + future == ms[k].body[r..] + WireFrom(ms, k + 1)
    ensures !HasMagic(data)
  {
    assert !HasMagic(ms[k].body[r..]);
    hide MagicFree;
    NoMagicAcross(ms[k].body[r..], WireFrom(ms, k + 1));
    if |data| >= 4 {
      assert (data + future)[..4] == data[..4];
    }
  }

  /** Data that begins at a message boundary opens with the magic word, or is too short to tell. */
  lemma {:induction false} MagicAtBoundary(ms: seq<SentMessage>, k: nat, data: bytes, future: bytes)
    requires AllWellFormed(ms) && k <= |ms| && data != [] && data + future == WireFrom(ms, k)
    ensures k < |ms|
    ensures HasMagic(data) <==> |data| >= 4
  {
    hide MagicFree;
    if |data| >= 4 {
      assert data[..4] == (data + future)[..4];
      assert WireFrom(ms, k)[..4] == MAGIC_WORD;
    }
  }

  // ----- One packet -----

  /** What holds once packet c is processed: everything unread is still to come or set aside, the open
      message needs more than what is set aside, and packet f is where the open message began. */
  ghost predicate After(start: uint16, packets: seq<bytes>, ms: seq<SentMessage>, p: Parser, k: nat, f: nat, c: nat)
    requires AllWellFormed(ms) && c < |packets|
  {
    && Sync(start, ms, p, k, f, c + 1, p.leftover + BytesFrom(packets, c + 1))
    && (k < |ms| ==> |BytesFrom(packets, c + 1)| > |WireFrom(ms, k + 1)|)
    && (f <= c ==> ReachesMessage(packets, ms, f, k))
    && (f == c + 1 ==> p.leftover == [] && p.header == ZERO_HEADER)
  }

  lemma {:induction false} FinishMessage(start: uint16, ms: seq<SentMessage>, p: Parser, k: nat, f: nat, c: nat,
        part: bytes)
    requires AllWellFormed(ms) && k < |ms| && f <= c < f + MAX_SPAN && !p.panicked
    requires p.header == ms[k].header
    requires KeysWithin(start, p.parts.Keys, f, c) && Joined(start, p.parts, f, c) + part == ms[k].body
    requires Reported(start, p.completed, ms, k)
    ensures var q := Report(p.Store(Wrap(start, c), part, |ms[k].body|), Wrap(start, c));
            && q == Parser(p.leftover, ZERO_HEADER, 0, map[], q.completed, false)
            && Reported(start, q.completed, ms, k + 1)
  {
    hide MagicFree;
    StoreAppends(start, p.parts, f, c, part);
    var parts := p.parts[Wrap(start, c) := part];
    var done := Completed(p.header, Wrap(start, c), parts);
    assert Carries(start, done, ms[k], f, c + 1);
    var completed := p.completed + [done];
    forall j | 0 <= j < k + 1 ensures CarriesSomewhere(start, completed[j], ms[j]) {
      assert j < k ==> completed[j] == p.completed[j];
    }
  }

  /** Packet c's share of a message that it does not finish. */
  lemma {:induction false} KeepPart(start: uint16, packets: seq<bytes>, ms: seq<SentMessage>, p: Parser, k: nat,
        f: nat, c: nat, part: bytes)
    requires AllWellFormed(ms) && k < |ms| && f <= c < |packets| && c < f + MAX_SPAN && !p.panicked
    requires p.header == ms[k].header && p.leftover == [] && 0 <= p.bytesRead
    requires KeysWithin(start, p.parts.Keys, f, c) && Reported(start, p.completed, ms, k)
    requires p.bytesRead + |part| < |ms[k].body|
    requires Joined(start, p.parts, f, c) == ms[k].body[..p.bytesRead]
    requires part + BytesFrom(packets, c + 1) == ms[k].body[p.bytesRead..] + WireFrom(ms, k + 1)
    requires ReachesMessage(packets, ms, f, k)
    ensures After(start, packets, ms, p.Store(Wrap(start, c), part, p.bytesRead + |part|), k, f, c)
  {
    hide Wrap, KeysWithin, Reported, MagicFree, WireFrom, BytesFrom;
    StoreAppends(start, p.parts, f, c, part);
    CutBody(ms[k].body, p.bytesRead, part, BytesFrom(packets, c + 1), WireFrom(ms, k + 1));
    assert [] + BytesFrom(packets, c + 1) == BytesFrom(packets, c + 1);
  }

  lemma {:induction false} CutBody(body: bytes, r: nat, part: bytes, future: bytes, next: bytes)
    requires r + |part| <= |body| && part + future == body[r..] + next
    ensures body[..r] + part == body[..r + |part|]
    ensures future == body[r + |part|..] + next
  {
    hide HasMagic;
    var all := part + future;
    assert part == all[..|part|] == body[r..r + |part|];
    assert future == all[|part|..] == body[r + |part|..] + next;
  }

  /** Packet c's share of a body is set aside because it is at most 16 bytes. */
  lemma {:induction false} SetBodyAside(start: uint16, packets: seq<bytes>, ms: seq<SentMessage>, p: Parser, k: nat,
        f: nat, c: nat, data: bytes)
    requires AllWellFormed(ms) && k < |ms| && f <= c < |packets| && c < f + MAX_SPAN && !p.panicked
    requires p.header == ms[k].header && 0 <= p.bytesRead
    requires KeysWithin(start, p.parts.Keys, f, c) && Reported(start, p.completed, ms, k)
    requires p.bytesRead + |data| < |ms[k].body|
    requires Joined(start, p.parts, f, c) == ms[k].body[..p.bytesRead]
    requires data + BytesFrom(packets, c + 1) == ms[k].body[p.bytesRead..] + WireFrom(ms, k + 1)
    requires ReachesMessage(packets, ms, f, k)
    ensures After(start, packets, ms, p.(leftover := data), k, f, c)
  {
    hide MagicFree;
    NoPartYet(start, p.parts, f, c);
    KeysGrow(start, p.parts.Keys, f, c);
  }

  /** The state right after message k - 1 was reported, with rest still to be read from packet c. */
  lemma {:induction false} BetweenMessages(start: uint16, packets: seq<bytes>, ms: seq<SentMessage>, p: Parser,
        k: nat, c: nat, rest: bytes)
    requires AllWellFormed(ms) && k <= |ms| && c < |packets|
    requires p == Parser([], ZERO_HEADER, 0, map[], p.completed, false) && Reported(start, p.completed, ms, k)
    requires rest + BytesFrom(packets, c + 1) == WireFrom(ms, k)
    ensures Sync(start, ms, p, k, c, c, rest + BytesFrom(packets, c + 1))
    ensures |rest| <= HEADER_BYTES ==>
              After(start, packets, ms, p.(leftover := rest), k, if rest == [] then c + 1 else c, c)
    ensures rest != [] ==> ReachesMessage(packets, ms, c, k)
  {
    hide MagicFree;
  }

  /** The last part of message k arrives: the message is reported and parsing goes on behind it. */
  lemma {:induction false} AfterFinish(start: uint16, packets: seq<bytes>, ms: seq<SentMessage>, p: Parser, k: nat,
        f: nat, c: nat,
                    part: bytes, rest: bytes)
      returns (k': nat, f': nat)
    requires AllWellFormed(ms) && SpansFit(packets, ms)
    requires k < |ms| && f <= c < |packets| && c < f + MAX_SPAN && !p.panicked
    requires p.header == ms[k].header && p.leftover == []
    requires KeysWithin(start, p.parts.Keys, f, c) && Joined(start, p.parts, f, c) + part == ms[k].body
    requires Reported(start, p.completed, ms, k)
    requires rest + BytesFrom(packets, c + 1) == WireFrom(ms, k + 1)
    requires Touches(packets, ms, c, k)
    ensures var (q, rest') := SetAside(p.Store(Wrap(start, c), part, |ms[k].body|), rest);
            k' <= |ms| && After(start, packets, ms, Loop(Report(q, Wrap(start, c)), Wrap(start, c), rest'), k', f', c)
    decreases |rest|, 2
  {
    hide MagicFree, Joined, KeysWithin, Reported, SpansFit, BytesFrom, Wrap;
    FinishMessage(start, ms, p, k, f, c, part);
    var q := Report(p.Store(Wrap(start, c), part, |ms[k].body|), Wrap(start, c));
    BetweenMessages(start, packets, ms, q, k + 1, c, rest);
    if |rest| <= HEADER_BYTES {
      var aside, rest' := q.(leftover := rest), if rest == [] then rest else [];
      assert Loop(aside, Wrap(start, c), rest') == aside;
      k', f' := k + 1, if rest == [] then c + 1 else c;
    } else {
      k', f' := LoopAfter(start, packets, ms, q, k + 1, c, c, rest);
    }
  }

  /** The parse loop, from a state in step with the stream. */
  lemma {:induction false} LoopAfter(start: uint16, packets: seq<bytes>, ms: seq<SentMessage>, p: Parser, k: nat,
        f: nat, c: nat, data: bytes)
      returns (k': nat, f': nat)
    requires AllWellFormed(ms) && SpansFit(packets, ms)
    requires c < |packets| && data != [] && p.leftover == []
    requires Sync(start, ms, p, k, f, c, data + BytesFrom(packets, c + 1))
    requires ReachesMessage(packets, ms, f, k) && (k < |ms| ==> Touches(packets, ms, c, k))
    ensures k' <= |ms| && After(start, packets, ms, Loop(p, Wrap(start, c), data), k', f', c)
    decreases |data|, 1
  {
    hide MagicFree, SpansFit, KeysWithin, Reported, Joined, Loop;
    if k < |ms| { HeaderNotZero(ms, k); }
    if p.header == ZERO_HEADER {
      k', f' := AtBoundary(start, packets, ms, p, k, f, c, data);
    } else {
      k', f' := InBody(start, packets, ms, p, k, f, c, data);
    }
  }

  lemma {:induction false} HeaderNotZero(ms: seq<SentMessage>, k: nat)
    requires AllWellFormed(ms) && k < |ms|
    ensures ms[k].header != ZERO_HEADER && ms[k].header.bytesToRead > 0
  {
  }

  lemma {:induction false} SameHeader(a: bytes, b: bytes)
    requires |a| >= HEADER_BYTES && |b| >= HEADER_BYTES
    requires a[4..6] == b[4..6] && a[6..10] == b[6..10]
    requires a[12] == b[12] && a[13] == b[13] && a[14] == b[14]
    ensures ParseHeader(a) == ParseHeader(b)
  {
  }

  /** The bytes of message k and its successors, once the header is taken off. */
  lemma {:induction false} TakeHeader(ms: seq<SentMessage>, k: nat, data: bytes, future: bytes)
    requires AllWellFormed(ms) && k < |ms| && |data| >= HEADER_BYTES
    requires data + future == WireFrom(ms, k)
    ensures HasHeader(data) && ParseHeader(data) == ms[k].header
    ensures data[HEADER_BYTES..] + future == ms[k].body + WireFrom(ms, k + 1)
  {
    hide MagicFree, ParseHeader;
    var m, tail := ms[k], ms[k].body + WireFrom(ms, k + 1);
    HeaderRoundTrip(m.header, m.reserved, tail);
    var all := HeaderBytes(m.header, m.reserved) + tail;
    assert data + future == all;
    assert data[..HEADER_BYTES] == all[..HEADER_BYTES];
    assert data[..4] == all[..4];
    assert data[4..6] == all[4..6] && data[6..10] == all[6..10];
    assert data[12] == all[12] && data[13] == all[13] && data[14] == all[14];
    SameHeader(data, all);
    assert data[HEADER_BYTES..] + future == (data + future)[HEADER_BYTES..];
  }

  /** The loop on data that opens with a whole header. */
  lemma {:induction false} LoopAtHeader(p: Parser, seqNo: uint16, data: bytes)
    requires !p.panicked && HasHeader(data) && ParseHeader(data).bytesToRead > 0 && p.bytesRead == 0
    ensures var h, body := ParseHeader(data), data[HEADER_BYTES..];
            var p1 := p.(header := h);
            Loop(p, seqNo, data) ==
            if |body| >= h.bytesToRead then
              var (q, rest) := SetAside(p1.Store(seqNo, body[..h.bytesToRead], h.bytesToRead), body[h.bytesToRead..]);
              Loop(Report(q, seqNo), seqNo, rest)
            else if |body| <= HEADER_BYTES then p1.(leftover := body)
            else p1.Store(seqNo, body, |body|)
  {
    hide ParseHeader, HasMagic;
  }

  lemma {:induction false} AtBoundary(start: uint16, packets: seq<bytes>, ms: seq<SentMessage>, p: Parser, k: nat,
        f: nat, c: nat, data: bytes)
      returns (k': nat, f': nat)
    requires AllWellFormed(ms) && SpansFit(packets, ms)
    requires k <= |ms| && f <= c < |packets| && data != [] && p.leftover == [] && !p.panicked
    requires KeysWithin(start, p.parts.Keys, f, c) && Reported(start, p.completed, ms, k)
    requires Between(ms, p, k, data + BytesFrom(packets, c + 1))
    requires ReachesMessage(packets, ms, f, k) && (k < |ms| ==> Touches(packets, ms, c, k))
    ensures k' <= |ms| && After(start, packets, ms, Loop(p, Wrap(start, c), data), k', f', c)
    decreases |data|, 0
  {
    hide MagicFree, SpansFit, BytesFrom, WireFrom, Reported, KeysWithin, Joined, Sync, After, ParseHeader, Loop, AllEmpty;
    var future := BytesFrom(packets, c + 1);
    MagicAtBoundary(ms, k, data, future);
    HeaderNotZero(ms, k);
    SpanHere(packets, ms, k, f, c);
    if |data| < HEADER_BYTES {
      k', f' := k, f;
      ShortOfHeader(start, packets, ms, p, k, f, c, data);
    } else {
      TakeHeader(ms, k, data, future);
      LoopAtHeader(p, Wrap(start, c), data);
      JoinedAllEmpty(start, p.parts, f, c);
      var m, body := ms[k], data[HEADER_BYTES..];
      var p1 := p.(header := m.header);
      assert m.body[..0] == [] && m.body[0..] == m.body;
      if |body| >= |m.body| {
        CutBody(m.body, 0, body[..|m.body|], body[|m.body|..] + future, WireFrom(ms, k + 1))
          by { assert body[..|m.body|] + (body[|m.body|..] + future) == body + future; }
        k', f' := AfterFinish(start, packets, ms, p1, k, f, c, body[..|m.body|], body[|m.body|..]);
      } else {
        k', f' := k, f;
        if |body| <= HEADER_BYTES {
          SetBodyAside(start, packets, ms, p1, k, f, c, body);
        } else {
          KeepPart(start, packets, ms, p1, k, f, c, body);
        }
      }
    }
  }

  /** Fewer than 16 bytes of message k's header have arrived: they are set aside. */
  lemma {:induction false} ShortOfHeader(start: uint16, packets: seq<bytes>, ms: seq<SentMessage>, p: Parser, k: nat,
        f: nat, c: nat, data: bytes)
    requires AllWellFormed(ms) && k < |ms| && f <= c < |packets| && p.leftover == [] && !p.panicked
    requires KeysWithin(start, p.parts.Keys, f, c) && Reported(start, p.completed, ms, k)
    requires Between(ms, p, k, data + BytesFrom(packets, c + 1)) && ReachesMessage(packets, ms, f, k)
    requires 0 < |data| < HEADER_BYTES && (HasMagic(data) <==> |data| >= 4)
    ensures After(start, packets, ms, Loop(p, Wrap(start, c), data), k, f, c)
  {
    hide MagicFree, Reported, Joined, Wrap, ParseHeader, TakeFirst;
    var seqNo := Wrap(start, c);
    KeysGrow(start, p.parts.Keys, f, c);
    if |data| >= 4 {
      assert Loop(p, seqNo, data) == p.(leftover := data);
    } else {
      var q := p.Store(seqNo, [], 0).(leftover := data);
      assert data[..0] == [] && data[0..] == data;
      assert TakeNext(p, seqNo, data) == (q, []);
      assert Loop(p, seqNo, data) == q;
      assert q.parts.Keys == p.parts.Keys + {seqNo};
    }
  }

  lemma {:induction false} InBody(start: uint16, packets: seq<bytes>, ms: seq<SentMessage>, p: Parser, k: nat,
        f: nat, c: nat, data: bytes)
      returns (k': nat, f': nat)
    requires AllWellFormed(ms) && SpansFit(packets, ms)
    requires k < |ms| && f <= c < |packets| && data != [] && p.leftover == [] && !p.panicked
    requires KeysWithin(start, p.parts.Keys, f, c) && Reported(start, p.completed, ms, k)
    requires Inside(start, ms, p, k, f, c, data + BytesFrom(packets, c + 1))
    requires ReachesMessage(packets, ms, f, k) && Touches(packets, ms, c, k)
    ensures k' <= |ms| && After(start, packets, ms, Loop(p, Wrap(start, c), data), k', f', c)
    decreases |data|, 0
  {
    hide MagicFree, SpansFit, BytesFrom, WireFrom, Reported, KeysWithin, Joined, Sync, After;
    var future := BytesFrom(packets, c + 1);
    var m, r := ms[k], p.bytesRead;
    HeaderNotZero(ms, k);
    NoFalseMagic(ms, k, r, data, future);
    SpanHere(packets, ms, k, f, c);
    LoopInBody(p, Wrap(start, c), data);
    hide Loop;
    var remaining := |m.body| - r;
    if remaining <= |data| {
      CutBody(m.body, r, data[..remaining], data[remaining..] + future, WireFrom(ms, k + 1))
        by { assert data[..remaining] + (data[remaining..] + future) == data + future; }
      k', f' := AfterFinish(start, packets, ms, p, k, f, c, data[..remaining], data[remaining..]);
    } else {
      k', f' := k, f;
      if |data| <= HEADER_BYTES {
        SetBodyAside(start, packets, ms, p, k, f, c, data);
      } else {
        KeepPart(start, packets, ms, p, k, f, c, data);
      }
    }
  }

  lemma {:induction false} SpanHere(packets: seq<bytes>, ms: seq<SentMessage>, k: nat, f: nat, c: nat)
    requires AllWellFormed(ms) && SpansFit(packets, ms) && k < |ms| && f <= c < |packets|
    requires ReachesMessage(packets, ms, f, k) && Touches(packets, ms, c, k)
    ensures c < f + MAX_SPAN
  {
  }

  /** The loop on data that continues an unfinished body. */
  lemma {:induction false} LoopInBody(p: Parser, seqNo: uint16, data: bytes)
    requires data != [] && !p.panicked && !HasMagic(data) && p.Remaining() > 0 && p.bytesRead >= 0
    ensures var remaining := p.Remaining();
            Loop(p, seqNo, data) ==
            if remaining <= |data| then
              var (q, rest) := SetAside(p.Store(seqNo, data[..remaining], p.bytesRead + remaining), data[remaining..]);
              Loop(Report(q, seqNo), seqNo, rest)
            else if |data| <= HEADER_BYTES then p.(leftover := data)
            else p.Store(seqNo, data, p.bytesRead + |data|)
  {
  }

  // ----- All packets -----

  function ParseAll(start: uint16, packets: seq<bytes>, c: nat): Parser
    requires c <= |packets|
  {
    if c == 0 then NEW_PARSER
    else Parse(ParseAll(start, packets, c - 1), Wrap(start, c - 1), packets[c - 1])
  }

  /** What holds before packet c is handed over. */
  ghost predicate Before(start: uint16, packets: seq<bytes>, ms: seq<SentMessage>, p: Parser, k: nat, f: nat, c: nat)
    requires AllWellFormed(ms) && c <= |packets|
  {
    && Sync(start, ms, p, k, f, c, p.leftover + BytesFrom(packets, c))
    && (k < |ms| ==> |BytesFrom(packets, c)| > |WireFrom(ms, k + 1)|)
    && (f < c ==> ReachesMessage(packets, ms, f, k))
    && (f == c ==> p.leftover == [] && p.header == ZERO_HEADER)
  }

  lemma {:induction false} PacketKeepsStep(start: uint16, packets: seq<bytes>, ms: seq<SentMessage>, p: Parser,
        k: nat, f: nat, c: nat)
      returns (k': nat, f': nat)
    requires AllWellFormed(ms) && SpansFit(packets, ms) && c < |packets| && packets[c] != []
    requires Before(start, packets, ms, p, k, f, c)
    ensures Before(start, packets, ms, Parse(p, Wrap(start, c), packets[c]), k', f', c + 1)
  {
    hide MagicFree, SpansFit, Reported, KeysWithin, Joined, Loop, WireFrom;
    var data, future := p.leftover + packets[c], BytesFrom(packets, c + 1);
    assert p.leftover + BytesFrom(packets, c) == data + future;
    if f == c { HeaderOfInside(start, ms, p, k, f, c, data + future); }
    k', f' := LoopAfter(start, packets, ms, p.(leftover := []), k, f, c, data);
  }

  lemma {:induction false} HeaderOfInside(start: uint16, ms: seq<SentMessage>, p: Parser, k: nat, f: nat, c: nat,
        unread: bytes)
    requires AllWellFormed(ms) && Sync(start, ms, p, k, f, c, unread) && p.header == ZERO_HEADER
    ensures unread == WireFrom(ms, k)
  {
    if k < |ms| { HeaderNotZero(ms, k); }
  }

  lemma {:induction false} ParseAllInStep(start: uint16, packets: seq<bytes>, ms: seq<SentMessage>, c: nat)
      returns (k: nat, f: nat)
    requires AllWellFormed(ms) && SpansFit(packets, ms) && c <= |packets|
    requires BytesFrom(packets, 0) == WireFrom(ms, 0)
    requires forall i :: 0 <= i < |packets| ==> packets[i] != []
    ensures Before(start, packets, ms, ParseAll(start, packets, c), k, f, c)
  {
    if c == 0 {
      k, f := 0, 0;
      if ms != [] { assert WireFrom(ms, 0) == ms[0].Serialize() + WireFrom(ms, 1); }
      assert [] + BytesFrom(packets, 0) == BytesFrom(packets, 0);
    } else {
      k, f := ParseAllInStep(start, packets, ms, c - 1);
      k, f := PacketKeepsStep(start, packets, ms, ParseAll(start, packets, c - 1), k, f, c - 1);
    }
  }

  /** Whatever the cuts, the parser reports exactly the messages, in order, never slices out of range and
      ends with nothing left over. */
  lemma {:induction false} EveryChunkingParses(start: uint16, packets: seq<bytes>, ms: seq<SentMessage>)
    requires AllWellFormed(ms) && SpansFit(packets, ms)
    requires BytesFrom(packets, 0) == WireFrom(ms, 0)
    requires forall i :: 0 <= i < |packets| ==> packets[i] != []
    ensures var p := ParseAll(start, packets, |packets|);
            && Reported(start, p.completed, ms, |ms|)
            && !p.panicked && p.leftover == [] && p.header == ZERO_HEADER && p.bytesRead == 0
  {
    var k, f := ParseAllInStep(start, packets, ms, |packets|);
  }

  // ----- Joining in the middle of a message -----

  /** Packets that belong to no message the parser knows. */
  predicate AllJunk(junk: seq<bytes>) {
    forall i :: 0 <= i < |junk| ==> IsJunk(junk[i])
  }

  lemma {:induction false} JunkLeavesNothing(start: uint16, junk: seq<bytes>, packets: seq<bytes>, c: nat)
    requires AllJunk(junk) && c <= |junk|
    ensures ParseAll(start, junk + packets, c) == NEW_PARSER
  {
    hide Parse, IsJunk;
    if c == 0 {
    } else {
      JunkLeavesNothing(start, junk, packets, c - 1);
      JunkIsDropped(NEW_PARSER, Wrap(start, c - 1), junk[c - 1]);
    }
  }

  lemma {:induction false} WrapAdds(start: uint16, i: nat, j: nat)
    ensures Wrap(Wrap(start, i), j) == Wrap(start, i + j)
  {
  }

  lemma {:induction false} ParseAfterJunk(start: uint16, junk: seq<bytes>, packets: seq<bytes>, c: nat)
    requires AllJunk(junk) && c <= |packets|
    ensures ParseAll(start, junk + packets, |junk| + c) == ParseAll(Wrap(start, |junk|), packets, c)
  {
    hide Parse, Wrap, AllJunk;
    if c == 0 {
      JunkLeavesNothing(start, junk, packets, |junk|);
    } else {
      ParseAfterJunk(start, junk, packets, c - 1);
      WrapAdds(start, |junk|, c - 1);
    }
  }

  /** A parser that joins in the middle of a message drops what it cannot place and reports every message that
      follows, in order, whatever the cuts. */
  lemma {:induction false} EveryChunkingParsesAfterJunk(start: uint16, junk: seq<bytes>, packets: seq<bytes>,
                                                        ms: seq<SentMessage>)
    requires AllJunk(junk) && AllWellFormed(ms) && SpansFit(packets, ms)
    requires BytesFrom(packets, 0) == WireFrom(ms, 0)
    requires forall i :: 0 <= i < |packets| ==> packets[i] != []
    ensures var p := ParseAll(start, junk + packets, |junk + packets|);
            && Reported(Wrap(start, |junk|), p.completed, ms, |ms|)
            && !p.panicked && p.leftover == [] && p.header == ZERO_HEADER && p.bytesRead == 0
  {
    hide Parse, ParseAll, SpansFit, BytesFrom, WireFrom, AllJunk, AllWellFormed, Reported, Wrap;
    ParseAfterJunk(start, junk, packets, |packets|);
    assert |junk + packets| == |junk| + |packets|;
    EveryChunkingParses(Wrap(start, |junk|), packets, ms);
  }

  /** The bodies handed to the command handler, given any outcome of the part sort, are the bodies sent. */
  lemma {:induction false} RoundTrip(start: uint16, junk: seq<bytes>, packets: seq<bytes>, ms: seq<SentMessage>,
                                     bodies: seq<bytes>)
    requires AllJunk(junk) && AllWellFormed(ms) && SpansFit(packets, ms)
    requires BytesFrom(packets, 0) == WireFrom(ms, 0)
    requires forall i :: 0 <= i < |packets| ==> packets[i] != []
    requires var done := ParseAll(start, junk + packets, |junk + packets|).completed;
             |bodies| == |done| && forall j :: 0 <= j < |done| ==> SortedConcat(done[j].parts, bodies[j])
    ensures var done := ParseAll(start, junk + packets, |junk + packets|).completed;
            |done| == |bodies| == |ms|
            && forall j :: 0 <= j < |ms| ==> done[j].header == ms[j].header && bodies[j] == ms[j].body
  {
    hide MagicFree, SpansFit, ParseAll;
    EveryChunkingParsesAfterJunk(start, junk, packets, ms);
    var from := Wrap(start, |junk|);
    var done := ParseAll(start, junk + packets, |junk + packets|).completed;
    forall j | 0 <= j < |ms| ensures done[j].header == ms[j].header && bodies[j] == ms[j].body {
      assert CarriesSomewhere(from, done[j], ms[j]);
      var first: nat, end: nat :| first < end && Carries(from, done[j], ms[j], first, end);
      SortRestoresSendingOrder(from, done[j].parts, first, end, bodies[j]);
    }
  }
}
