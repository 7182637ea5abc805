/** The raw stream's framing: the server's length-prefixed records and the browser's parse loop that
    undoes them, over any division of the bytes into chunks. */
module RawFraming {
  import opened Common

  /** The parser treats a larger length as corrupt framing. */
  const MAX_RECORD := 16 * 1024 * 1024

  /** The length is truncated to 32 bits. */
  function Record(data: bytes): bytes {
    EncodeU32(|data| % 0x1_0000_0000) + data
  }

  function Records(list: seq<bytes>): bytes {
    if list == [] then [] else Record(list[0]) + Records(list[1..])
  }

  lemma {:induction false} RecordsAppend(xs: seq<bytes>, ys: seq<bytes>)
    ensures Records(xs + ys) == Records(xs) + Records(ys)
  {
    hide Record;
    if xs == [] {
      assert xs + ys == ys;
    } else {
      assert (xs + ys)[1..] == xs[1..] + ys;
      RecordsAppend(xs[1..], ys);
    }
  }

  lemma {:induction false} RecordsSnoc(xs: seq<bytes>, y: bytes)
    ensures Records(xs + [y]) == Records(xs) + Record(y)
  {
    RecordsAppend(xs, [y]);
    assert [y][1..] == [];
    assert Record(y) + [] == Record(y);
  }

  /** A four-byte length as the browser's bitwise operators yield it: a signed 32-bit number. */
  function SignedLength(b: bytes): (n: int)
    requires |b| == 4
    ensures -0x8000_0000 <= n < 0x8000_0000
  {
    var v := DecodeU32(b);
    if v >= 0x8000_0000 then v - 0x1_0000_0000 else v
  }

  /** What the parse loop makes of the accumulated bytes. */
  datatype Parsed = Parsed(units: seq<bytes>, rest: bytes, dropped: nat)

  function Parse(acc: bytes): (p: Parsed)
    ensures |p.rest| <= |acc|
    decreases |acc|
  {
    if |acc| < 4 then Parsed([], acc, 0)
    else
      var len := SignedLength(acc[..4]);
      if len <= 0 || len > MAX_RECORD then
        var p := Parse(acc[1..]);
        p.(dropped := p.dropped + 1)
      else if |acc| < 4 + len then Parsed([], acc, 0)
      else
        var p := Parse(acc[4 + len..]);
        p.(units := [acc[4..4 + len]] + p.units)
  }

  /** A page reading chunks off the response: each is appended and everything complete is parsed. */
  function Feed(chunks: seq<bytes>): Parsed {
    if chunks == [] then Parsed([], [], 0)
    else
      var n := |chunks| - 1;
      var before := Feed(chunks[..n]);
      var p := Parse(before.rest + chunks[n]);
      Parsed(before.units + p.units, p.rest, before.dropped + p.dropped)
  }

  /** What is left over cannot be parsed any further. */
  lemma {:induction false} ParseStops(acc: bytes)
    ensures Parse(Parse(acc).rest) == Parsed([], Parse(acc).rest, 0)
    decreases |acc|
  {
    if |acc| < 4 {
    } else {
      var len := SignedLength(acc[..4]);
      if len <= 0 || len > MAX_RECORD {
        ParseStops(acc[1..]);
      } else if |acc| >= 4 + len {
        ParseStops(acc[4 + len..]);
      }
    }
  }

  lemma {:induction false} FeedStops(chunks: seq<bytes>)
    ensures Parse(Feed(chunks).rest) == Parsed([], Feed(chunks).rest, 0)
  {
    if chunks != [] {
      ParseStops(Feed(chunks[..|chunks| - 1]).rest + chunks[|chunks| - 1]);
    }
  }

  lemma {:induction false} FeedNext(chunks: seq<bytes>, value: bytes)
    ensures var p := Parse(Feed(chunks).rest + value);
            Feed(chunks + [value]) == Parsed(Feed(chunks).units + p.units, p.rest, Feed(chunks).dropped + p.dropped)
    ensures value == [] ==> Feed(chunks + [value]) == Feed(chunks)
  {
    hide Parse;
    assert (chunks + [value])[..|chunks|] == chunks;
    if value == [] {
      FeedStops(chunks);
      assert Feed(chunks).rest + [] == Feed(chunks).rest;
      assert Feed(chunks).units + [] == Feed(chunks).units;
    }
  }

  /** The page's feed loop: the accumulator and the access units handed to the decoder. */
  class Player {
    var acc: bytes
    var units: seq<bytes>
    ghost var dropped: nat
    ghost var received: seq<bytes>

    ghost predicate Valid()
      reads this
    {
      Parsed(units, acc, dropped) == Feed(received)
    }

    constructor ()
      ensures Valid() && received == []
    {
      acc, units, dropped, received := [], [], 0, [];
    }

    /** Consumes the accumulator, byte by byte while the framing looks corrupt. */
    method ProcessBuffer()
      modifies this`acc, this`units, this`dropped
      ensures var p := Parse(old(acc));
              units == old(units) + p.units && acc == p.rest && dropped == old(dropped) + p.dropped
    {
      hide SignedLength;
      assert units + Parse(acc).units == old(units) + Parse(old(acc)).units;
      while |acc| >= 4
        invariant units + Parse(acc).units == old(units) + Parse(old(acc)).units
        invariant Parse(acc).rest == Parse(old(acc)).rest
        invariant dropped + Parse(acc).dropped == old(dropped) + Parse(old(acc)).dropped
        decreases |acc|
      {
        var len := SignedLength(acc[..4]);
        if len <= 0 || len > MAX_RECORD {
          acc, dropped := acc[1..], dropped + 1;
          continue;
        }
        if |acc| < 4 + len {
          assert units + [] == units;
          return;
        }
        var au := acc[4..4 + len];
        acc := acc[4 + len..];
        assert units + ([au] + Parse(acc).units) == units + [au] + Parse(acc).units;
        units := units + [au];
      }
      assert units + [] == units;
    }

    /** One chunk off the response. */
    method Receive(value: bytes)
      requires Valid()
      modifies this
      ensures Valid() && received == old(received) + [value]
    {
      hide Parse, Feed;
      FeedNext(received, value);
      if |value| > 0 {
        acc := acc + value;
        ProcessBuffer();
      }
      received := received + [value];
    }
  }

  /** An access unit that survives the framing. */
  predicate Frameable(data: bytes) {
    1 <= |data| <= MAX_RECORD
  }

  predicate AllFrameable(list: seq<bytes>) {
    forall i :: 0 <= i < |list| ==> Frameable(list[i])
  }

  lemma {:induction false} RecordDecodes(data: bytes, rest: bytes)
    requires Frameable(data)
    ensures var s := Record(data) + rest;
            && |s| == 4 + |data| + |rest| && SignedLength(s[..4]) == |data|
            && s[4..4 + |data|] == data && s[4 + |data|..] == rest
  {
    U32RoundTrip(|data|);
    var s := Record(data) + rest;
    assert s[..4] == EncodeU32(|data|);
    assert s[4..4 + |data|] == data;
    assert s[4 + |data|..] == rest;
  }

  /** Any prefix of the records parses to the units it completes; the rest is the start of the next
      record, and no byte is dropped. */
  lemma {:induction false} ParsePrefix(list: seq<bytes>, acc: bytes)
    requires AllFrameable(list) && acc <= Records(list)
    ensures var p := Parse(acc);
            && p.dropped == 0 && |p.units| <= |list| && p.units == list[..|p.units|]
            && acc == Records(p.units) + p.rest && p.rest <= Records(list[|p.units|..])
            && (|p.units| < |list| ==> |p.rest| < 4 + |list[|p.units|]|)
            && (acc == Records(list) ==> p.units == list && p.rest == [])
    decreases |list|
  {
    hide Record;
    if list == [] {
      assert acc == [];
    } else {
      var x, wire := list[0], Records(list);
      var tail := Records(list[1..]);
      RecordDecodes(x, tail);
      if |acc| >= 4 {
        assert acc[..4] == wire[..4];
        if |acc| >= 4 + |x| {
          assert acc[4..4 + |x|] == wire[4..4 + |x|] == x;
          var rest := acc[4 + |x|..];
          assert rest <= tail by { assert wire[4 + |x|..] == tail; }
          ParsePrefix(list[1..], rest);
          PrependUnit(list, acc, rest);
        }
      }
      assert |acc| < 4 + |x| ==> Records([]) + acc == acc && list[0..] == list;
    }
  }

  lemma {:induction false} PrependUnit(list: seq<bytes>, acc: bytes, rest: bytes)
    requires list != [] && acc == Record(list[0]) + rest
    requires var q := Parse(rest);
             |q.units| < |list| && q.units == list[1..][..|q.units|] && rest == Records(q.units) + q.rest
    ensures var units := [list[0]] + Parse(rest).units;
            && units == list[..|units|] && acc == Records(units) + Parse(rest).rest
            && list[1..][|Parse(rest).units|..] == list[|units|..]
  {
    hide Record, Parse;
    var q := Parse(rest);
    var units := [list[0]] + q.units;
    assert units[1..] == q.units;
    assert Record(list[0]) + (Records(q.units) + q.rest) == Record(list[0]) + Records(q.units) + q.rest;
  }

  lemma {:induction false} RecordsSplit(list: seq<bytes>, k: nat)
    requires k <= |list|
    ensures Records(list) == Records(list[..k]) + Records(list[k..])
  {
    assert list == list[..k] + list[k..];
    RecordsAppend(list[..k], list[k..]);
  }

  /** One more chunk, when k units have been completed and rest is left over. */
  lemma {:induction false} ChunkPrefix(list: seq<bytes>, k: nat, rest: bytes, value: bytes)
    requires AllFrameable(list) && k <= |list| && Records(list[..k]) + (rest + value) <= Records(list)
    ensures var p := Parse(rest + value);
            && p.dropped == 0 && k + |p.units| <= |list| && list[..k] + p.units == list[..k + |p.units|]
            && Records(list[..k]) + (rest + value) == Records(list[..k + |p.units|]) + p.rest
            && (k + |p.units| < |list| ==> |p.rest| < 4 + |list[k + |p.units|]|)
            && (Records(list[..k]) + (rest + value) == Records(list) ==> k + |p.units| == |list| && p.rest == [])
  {
    hide Parse, Records;
    var acc, done := rest + value, Records(list[..k]);
    RecordsSplit(list, k);
    assert acc == (done + acc)[|done|..] && Records(list[k..]) == Records(list)[|done|..];
    assert acc <= Records(list[k..]);
    ParsePrefix(list[k..], acc);
    var p := Parse(acc);
    assert list[..k] + p.units == list[..k + |p.units|];
    RecordsAppend(list[..k], p.units);
    assert done + (Records(p.units) + p.rest) == done + Records(p.units) + p.rest;
  }

  /** However far the chunks have got into the records, the page has exactly the units completed so far,
      holds the start of the next record, and has dropped nothing. */
  lemma {:induction false} FeedPrefix(list: seq<bytes>, chunks: seq<bytes>)
    requires AllFrameable(list) && Concat(chunks) <= Records(list)
    ensures var p := Feed(chunks);
            && p.dropped == 0 && |p.units| <= |list| && p.units == list[..|p.units|]
            && Concat(chunks) == Records(p.units) + p.rest
            && (|p.units| < |list| ==> |p.rest| < 4 + |list[|p.units|]|)
            && (Concat(chunks) == Records(list) ==> p.units == list && p.rest == [])
  {
    hide Parse, Records, Frameable;
    if chunks == [] {
      EmptyRecords(list);
    } else {
      var n := |chunks| - 1;
      var before := Feed(chunks[..n]);
      assert Concat(chunks) == Concat(chunks[..n]) + chunks[n];
      assert Concat(chunks[..n]) <= Records(list);
      FeedPrefix(list, chunks[..n]);
      var done := Records(before.units);
      assert done + before.rest + chunks[n] == done + (before.rest + chunks[n]);
      ChunkPrefix(list, |before.units|, before.rest, chunks[n]);
    }
  }

  lemma {:induction false} EmptyRecords(list: seq<bytes>)
    ensures Records([]) == []
    ensures Records(list) == [] <==> list == []
  {
  }

  lemma {:induction false} ParsedAreFrameable(acc: bytes)
    ensures AllFrameable(Parse(acc).units)
    decreases |acc|
  {
    if |acc| < 4 {
    } else {
      var len := SignedLength(acc[..4]);
      if len <= 0 || len > MAX_RECORD {
        ParsedAreFrameable(acc[1..]);
      } else if |acc| >= 4 + len {
        ParsedAreFrameable(acc[4 + len..]);
      }
    }
  }

  lemma {:induction false} FedAreFrameable(chunks: seq<bytes>)
    ensures AllFrameable(Feed(chunks).units)
  {
    hide Parse, Frameable;
    if chunks == [] {
    } else {
      var n := |chunks| - 1;
      FedAreFrameable(chunks[..n]);
      ParsedAreFrameable(Feed(chunks[..n]).rest + chunks[n]);
    }
  }

  /** Raw framing round trip: cut into chunks anywhere, the records are parsed back exactly, with nothing
      dropped and nothing left over, if and only if every access unit has 1 byte to 16 MiB. */
  lemma {:induction false} RoundTrip(list: seq<bytes>, chunks: seq<bytes>)
    requires Concat(chunks) == Records(list)
    ensures Feed(chunks) == Parsed(list, [], 0)
            <==> forall i :: 0 <= i < |list| ==> 1 <= |list[i]| <= 16_777_216
  {
    assert AllFrameable(list) <==> forall i :: 0 <= i < |list| ==> 1 <= |list[i]| <= 16_777_216;
    hide Parse, Frameable, Records;
    if AllFrameable(list) {
      FeedPrefix(list, chunks);
    } else {
      FedAreFrameable(chunks);
    }
  }

  // ----- On the wire -----

  /** A record in bytes: the length in little-endian order, truncated to 32 bits, and the data. */
  lemma {:induction false} RecordInBytes(data: bytes)
    ensures var r := Record(data);
            && |r| == 4 + |data| && r[4..] == data
            && r[0] as int + 0x100 * r[1] as int + 0x1_0000 * r[2] as int + 0x100_0000 * r[3] as int
               == |data| % 0x1_0000_0000
  {
    var n: uint32 := |data| % 0x1_0000_0000;
    U32RoundTrip(n);
    assert Record(data)[..4] == EncodeU32(n);
    assert Record(data)[4..] == data;
  }

  /** The first four bytes in little-endian order. */
  function LeadingNumber(acc: bytes): int
    requires |acc| >= 4
  {
    acc[0] as int + 0x100 * acc[1] as int + 0x1_0000 * acc[2] as int + 0x100_0000 * acc[3] as int
  }

  /** They cannot be a record's length: as a signed 32-bit number they are not positive, or above 16 MiB. */
  predicate IsCorrupt(acc: bytes) {
    |acc| >= 4 && !(1 <= LeadingNumber(acc) <= 16_777_216)
  }

  /** One turn of the parse loop in bytes: corrupt framing costs one byte, a record that is not all there is
      waited for, and a whole one is taken. */
  lemma {:induction false} OneTurn(acc: bytes)
    ensures |acc| < 4 ==> Parse(acc) == Parsed([], acc, 0)
    ensures IsCorrupt(acc) ==> Parse(acc) == Parse(acc[1..]).(dropped := Parse(acc[1..]).dropped + 1)
    ensures |acc| >= 4 && !IsCorrupt(acc) ==>
              var n := LeadingNumber(acc);
              if |acc| < 4 + n then Parse(acc) == Parsed([], acc, 0)
              else Parse(acc) == Parse(acc[4 + n..]).(units := [acc[4..4 + n]] + Parse(acc[4 + n..]).units)
  {
    if |acc| >= 4 {
      assert acc[..4] == [acc[0], acc[1], acc[2], acc[3]];
    }
  }

  /** After any bytes none of which can start a record, the page finds its way back: it drops exactly those and
      yields every record behind them. */
  lemma {:induction false} FindsItsWayBack(junk: bytes, list: seq<bytes>)
    requires AllFrameable(list)
    requires forall k :: 0 <= k < |junk| ==> IsCorrupt((junk + Records(list))[k..])
    ensures Parse(junk + Records(list)) == Parsed(list, [], |junk|)
  {
    hide IsCorrupt, Frameable, Records;
    var all := junk + Records(list);
    if junk == [] {
      assert all == Records(list);
      ParsePrefix(list, all);
    } else {
      assert all[0..] == all && all[1..] == junk[1..] + Records(list);
      forall k | 0 <= k < |junk| - 1 ensures IsCorrupt((junk[1..] + Records(list))[k..]) {
        assert (junk[1..] + Records(list))[k..] == all[k + 1..];
      }
      FindsItsWayBack(junk[1..], list);
      OneTurn(all);
    }
  }
}
