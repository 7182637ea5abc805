/** Machine integers, byte strings and little-endian decoding shared by every other module. */
module Common {
  type byte = x: int | 0 <= x < 0x100
  type uint16 = x: int | 0 <= x < 0x1_0000
  type uint32 = x: int | 0 <= x < 0x1_0000_0000
  type uint64 = x: int | 0 <= x < 0x1_0000_0000_0000_0000
  type bytes = seq<byte>

  const TWO_64 := 0x1_0000_0000_0000_0000

  datatype Option<+T> = None | Some(value: T)

  function DecodeU16(b: bytes): (v: uint16)
    requires |b| == 2
  {
    b[0] as int + 0x100 * b[1] as int
  }

  function EncodeU16(v: uint16): (b: bytes)
    ensures |b| == 2
  {
    [v % 0x100, v / 0x100]
  }

  function DecodeU32(b: bytes): (v: uint32)
    requires |b| == 4
  {
    b[0] as int + 0x100 * b[1] as int + 0x1_0000 * b[2] as int + 0x100_0000 * b[3] as int
  }

  function EncodeU32(v: uint32): (b: bytes)
    ensures |b| == 4
  {
    [v % 0x100, v / 0x100 % 0x100, v / 0x1_0000 % 0x100, v / 0x100_0000]
  }

  lemma {:induction false} U16RoundTrip(v: uint16)
    ensures DecodeU16(EncodeU16(v)) == v
  {
  }

  lemma {:induction false} U32RoundTrip(v: uint32)
    ensures DecodeU32(EncodeU32(v)) == v
  {
    assert v / 0x1_0000 == (v / 0x100) / 0x100;
    assert v / 0x100_0000 == (v / 0x1_0000) / 0x100;
  }

  function Concat(parts: seq<bytes>): (all: bytes)
  {
    if parts == [] then [] else Concat(parts[..|parts| - 1]) + parts[|parts| - 1]
  }

  lemma {:induction false} ConcatAppend(xs: seq<bytes>, ys: seq<bytes>)
    ensures Concat(xs + ys) == Concat(xs) + Concat(ys)
  {
    if ys == [] {
      assert xs + ys == xs;
    } else {
      var n := |ys| - 1;
      ConcatAppend(xs, ys[..n]);
      assert (xs + ys)[..|xs + ys| - 1] == xs + ys[..n];
    }
  }
}
