/** Splitting the in-order packets of one data type into "XZYH"-framed messages: what one packet does
    to the builder and the leftover buffer. A message is reported together with its unsorted parts. */
module CommandParser {
  import opened Common
  import opened FrameReassembly

  datatype Completed = Completed(header: Header, seqNo: uint16, parts: map<uint16, bytes>)

  /** panicked records that the source would slice out of range. */
  datatype Parser = Parser(leftover: bytes, header: Header, bytesRead: int, parts: map<uint16, bytes>,
                           completed: seq<Completed>, panicked: bool) {
    function Remaining(): int {
      header.bytesToRead - bytesRead
    }

    function Store(seqNo: uint16, part: bytes, read: int): Parser {
      this.(parts := parts[seqNo := part], bytesRead := read)
    }
  }

  const NEW_PARSER := Parser([], ZERO_HEADER, 0, map[], [], false)

  /** At most 16 bytes after a finished payload wait for the next packet. */
  function SetAside(p: Parser, rest: bytes): (Parser, bytes) {
    if 0 < |rest| <= HEADER_BYTES then (p.(leftover := rest), []) else (p, rest)
  }

  /** The data opens with the magic word and holds a whole header. */
  function TakeFirst(p: Parser, seqNo: uint16, data: bytes): (r: (Parser, bytes))
    requires HasHeader(data)
    ensures |r.1| < |data|
  {
    var h := ParseHeader(data);
    var p1, body := p.(header := h), data[HEADER_BYTES..];
    if |body| >= h.bytesToRead then
      SetAside(p1.Store(seqNo, body[..h.bytesToRead], h.bytesToRead), body[h.bytesToRead..])
    else if |body| <= HEADER_BYTES then
      (p1.(leftover := body), [])
    else
      (p1.Store(seqNo, body, |body|), [])
  }

  /** The data continues the message under construction. */
  function TakeNext(p: Parser, seqNo: uint16, data: bytes): (r: (Parser, bytes))
    requires data != [] && !(p.Remaining() == 0 && |data| > HEADER_BYTES)
    ensures |r.1| < |data|
  {
    var remaining := p.Remaining();
    if remaining < 0 then
      (p.(panicked := true), [])
    else if remaining <= |data| then
      SetAside(p.Store(seqNo, data[..remaining], p.bytesRead + remaining), data[remaining..])
    else if |data| <= HEADER_BYTES then
      (p.(leftover := data), [])
    else
      (p.Store(seqNo, data, p.bytesRead + |data|), [])
  }

  function Report(p: Parser, seqNo: uint16): Parser {
    if !p.panicked && p.bytesRead == p.header.bytesToRead && p.header.bytesToRead > 0 then
      Parser(p.leftover, ZERO_HEADER, 0, map[], p.completed + [Completed(p.header, seqNo, p.parts)], false)
    else
      p
  }

  function Loop(p: Parser, seqNo: uint16, data: bytes): Parser
    decreases |data|
  {
    if data == [] || p.panicked then p
    else if HasMagic(data) then
      if |data| < HEADER_BYTES then p.(leftover := data)
      else
        var (p1, rest) := TakeFirst(p, seqNo, data);
        Loop(Report(p1, seqNo), seqNo, rest)
    else if p.Remaining() == 0 && |data| > HEADER_BYTES then p
    else
      var (p1, rest) := TakeNext(p, seqNo, data);
      Loop(Report(p1, seqNo), seqNo, rest)
  }

  /** The effect of one packet handed over in sequence. */
  function Parse(p: Parser, seqNo: uint16, data: bytes): Parser {
    if p.panicked then p else Loop(p.(leftover := []), seqNo, p.leftover + data)
  }

  // ----- Slicing out of range -----

  lemma {:induction false} LoopStaysInRange(p: Parser, seqNo: uint16, data: bytes)
    requires !p.panicked && p.Remaining() >= 0
    ensures !Loop(p, seqNo, data).panicked
    decreases |data|
  {
    if data == [] || (HasMagic(data) && |data| < HEADER_BYTES) || (!HasMagic(data) && p.Remaining() == 0 && |data| > HEADER_BYTES) {
    } else {
      var (p1, rest) := if HasMagic(data) then TakeFirst(p, seqNo, data) else TakeNext(p, seqNo, data);
      assert !p1.panicked && (rest == [] || p1.Remaining() == 0);
      if rest == [] {
      } else {
        LoopStaysInRange(Report(p1, seqNo), seqNo, rest);
      }
    }
  }

  lemma {:induction false} LoopTakesFirst(p: Parser, seqNo: uint16, data: bytes)
    requires !p.panicked && HasMagic(data) && |data| >= HEADER_BYTES
    ensures var (p1, rest) := TakeFirst(p, seqNo, data);
            && Loop(p, seqNo, data) == Loop(Report(p1, seqNo), seqNo, rest)
            && !p1.panicked && (rest != [] ==> p1.Remaining() == 0)
            && Loop(Report(p1, seqNo), seqNo, []) == Report(p1, seqNo)
  {
    hide ParseHeader;
  }

  /** A packet makes the parser slice out of range if and only if more bytes have been read than the installed
      header declares and what comes next does not open with the magic word. */
  lemma {:induction false} PanicsExactly(p: Parser, seqNo: uint16, data: bytes)
    requires !p.panicked
    ensures var all := p.leftover + data;
            Parse(p, seqNo, data).panicked <==> p.Remaining() < 0 && all != [] && !HasMagic(all)
  {
    hide ParseHeader;
    var all, q := p.leftover + data, p.(leftover := []);
    if p.Remaining() >= 0 {
      LoopStaysInRange(q, seqNo, all);
    } else if all != [] && HasMagic(all) && |all| >= HEADER_BYTES {
      var (p1, rest) := TakeFirst(q, seqNo, all);
      LoopTakesFirst(q, seqNo, all);
      if rest != [] {
        LoopStaysInRange(Report(p1, seqNo), seqNo, rest);
      }
    } else if all != [] && !HasMagic(all) {
      var stuck := q.(panicked := true);
      assert TakeNext(q, seqNo, all) == (stuck, []) && Report(stuck, seqNo) == stuck;
      assert Loop(stuck, seqNo, []) == stuck;
    }
  }

  lemma {:induction false} TakesWhole(p: Parser, seqNo: uint16, h: Header, reserved: bytes, body: bytes)
    requires |reserved| == 3 && !p.panicked && p.leftover == [] && |body| < h.bytesToRead
    ensures Parse(p, seqNo, HeaderBytes(h, reserved) + body)
         == if |body| <= HEADER_BYTES then Report(p.(header := h, leftover := body), seqNo)
            else Report(p.(header := h).Store(seqNo, body, |body|), seqNo)
  {
    HeaderRoundTrip(h, reserved, body);
    hide ParseHeader, HeaderBytes;
    var data := HeaderBytes(h, reserved) + body;
    assert [] + data == data;
    LoopTakesFirst(p, seqNo, data);
    assert p.(leftover := []) == p;
  }

  /** Every such input from a new parser: a message left unfinished after more than 16 bytes of its body, then
      the header of a shorter one with at most 16 bytes behind it, then anything that does not complete a
      magic word. */
  lemma {:induction false} UnfinishedThenShort(h: Header, g: Header, reserved: bytes, long: bytes, short: bytes, next: bytes,
                                               seqNos: seq<uint16>)
    requires |reserved| == 3 && |seqNos| == 3
    requires HEADER_BYTES < |long| < h.bytesToRead
    requires |short| <= HEADER_BYTES && |short| < g.bytesToRead < |long|
    requires short + next != [] && !HasMagic(short + next)
    ensures var p1 := Parse(NEW_PARSER, seqNos[0], HeaderBytes(h, reserved) + long);
            var p2 := Parse(p1, seqNos[1], HeaderBytes(g, reserved) + short);
            !p2.panicked && Parse(p2, seqNos[2], next).panicked
  {
    hide HeaderBytes, Parse, HasMagic;
    TakesWhole(NEW_PARSER, seqNos[0], h, reserved, long);
    var p1 := Parse(NEW_PARSER, seqNos[0], HeaderBytes(h, reserved) + long);
    TakesWhole(p1, seqNos[1], g, reserved, short);
    PanicsExactly(Parse(p1, seqNos[1], HeaderBytes(g, reserved) + short), seqNos[2], next);
  }
}
