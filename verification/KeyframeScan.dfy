/** The scan of an access unit for a random-access NAL unit. */
module KeyframeScan {
  import opened Common

  const START_CODE: bytes := [0x00, 0x00, 0x01]

  predicate StartCodeAt(data: bytes, p: int) {
    0 <= p && p + 3 <= |data| && data[p..p + 3] == START_CODE
  }

  /** NAL unit types 19 to 21 of Table 7-1 of ITU-T H.265: IDR_W_RADL, IDR_N_LP and CRA_NUT. */
  predicate IsRandomAccessH265(b0: byte) {
    19 <= b0 / 2 % 64 <= 21
  }

  /** NAL unit type 5 of Table 7-1 of ITU-T H.264: a slice of an IDR picture. */
  predicate IsRandomAccessH264(b0: byte) {
    b0 % 32 == 5
  }

  predicate IsRandomAccess(b0: byte, codec: int) {
    if codec == 2 then IsRandomAccessH265(b0)
    else if codec == 1 then IsRandomAccessH264(b0)
    else IsRandomAccessH265(b0) || IsRandomAccessH264(b0)
  }

  predicate RandomAccessAt(data: bytes, codec: int, p: int) {
    StartCodeAt(data, p) && p + 3 < |data| && IsRandomAccess(data[p + 3], codec)
  }

  /** The meaning of the scan: some start code is followed by a random-access NAL header. */
  ghost predicate HoldsKeyframe(data: bytes, codec: int) {
    exists p :: RandomAccessAt(data, codec, p)
  }

  ghost predicate HoldsStartCode(data: bytes) {
    exists p :: StartCodeAt(data, p)
  }

  /** The library search: the first start code at or after from, or -1. */
  method IndexStartCode(data: bytes, from: nat) returns (at: int)
    requires from <= |data|
    ensures at == -1 || (from <= at && StartCodeAt(data, at))
    ensures forall p :: from <= p && (at == -1 || p < at) ==> !StartCodeAt(data, p)
  {
    var i := from;
    while i + 3 <= |data|
      invariant from <= i
      invariant forall p :: from <= p < i ==> !StartCodeAt(data, p)
    {
      if data[i..i + 3] == START_CODE {
        return i;
      }
      i := i + 1;
    }
    return -1;
  }

  /** A start code cannot overlap another one. */
  lemma {:induction false} StartCodesApart(data: bytes, p: int, q: int)
    requires StartCodeAt(data, p) && StartCodeAt(data, q) && p < q
    ensures q >= p + 3
  {
    StartCodeBytes(data, p);
    StartCodeBytes(data, q);
  }

  lemma {:induction false} StartCodeBytes(data: bytes, p: int)
    requires StartCodeAt(data, p)
    ensures data[p] == 0 && data[p + 1] == 0 && data[p + 2] == 1
  {
    var code := data[p..p + 3];
    assert data[p] == code[0] && data[p + 1] == code[1] && data[p + 2] == code[2];
  }

  /** The jump-ahead loop finds a keyframe exactly when there is one. */
  method IsKeyframeBitstream(data: bytes, codec: int) returns (found: bool)
    ensures found <==> HoldsKeyframe(data, codec)
  {
    var idx := 0;
    while idx + 4 <= |data|
      invariant 0 <= idx <= |data|
      invariant forall p :: p < idx ==> !RandomAccessAt(data, codec, p)
    {
      var sc := IndexStartCode(data, idx);
      if sc < 0 {
        return false;
      }
      forall p | sc < p < sc + 3 ensures !RandomAccessAt(data, codec, p) {
        if StartCodeAt(data, p) { StartCodesApart(data, sc, p); }
      }
      idx := sc + |START_CODE|;
      if idx >= |data| {
        return false;
      }
      var b0 := data[idx];
      assert RandomAccessAt(data, codec, sc) <==> IsRandomAccess(b0, codec);
      if codec == 2 {
        var t := b0 / 2 % 64;
        if t == 19 || t == 20 || t == 21 { return true; }
      } else if codec == 1 {
        if b0 % 32 == 5 { return true; }
      } else {
        var t := b0 / 2 % 64;
        if t == 19 || t == 20 || t == 21 { return true; }
        if b0 % 32 == 5 { return true; }
      }
    }
    return false;
  }

  // ----- In bytes -----

  predicate CodeAt(data: bytes, p: nat) {
    p + 3 <= |data| && data[p] == 0 && data[p + 1] == 0 && data[p + 2] == 1
  }

  lemma {:induction false} StartCodeMeans(data: bytes, p: nat)
    ensures StartCodeAt(data, p) <==> CodeAt(data, p)
  {
    if p + 3 <= |data| {
      assert data[p..p + 3] == [data[p], data[p + 1], data[p + 2]];
    }
  }

  lemma {:induction false} HoldsStartCodeMeans(data: bytes)
    ensures HoldsStartCode(data) <==> exists p: nat :: CodeAt(data, p)
  {
    if HoldsStartCode(data) {
      var p :| StartCodeAt(data, p);
      StartCodeMeans(data, p);
    }
    if p: nat :| CodeAt(data, p) {
      StartCodeMeans(data, p);
    }
  }

  /** A NAL header of type 19, 20 or 21 in H.265, or 5 in H.264, right behind a start code. */
  predicate H265KeyAt(data: bytes, p: nat) {
    CodeAt(data, p) && p + 3 < |data| && 19 <= data[p + 3] / 2 % 64 <= 21
  }

  predicate H264KeyAt(data: bytes, p: nat) {
    CodeAt(data, p) && p + 3 < |data| && data[p + 3] % 32 == 5
  }

  /** Codec 2 is H.265 and 1 is H.264; of an unknown codec either kind counts. */
  lemma {:induction false} KeyframeMeans(data: bytes, codec: int)
    ensures codec == 2 ==> (HoldsKeyframe(data, codec) <==> exists p: nat :: H265KeyAt(data, p))
    ensures codec == 1 ==> (HoldsKeyframe(data, codec) <==> exists p: nat :: H264KeyAt(data, p))
    ensures codec != 1 && codec != 2 ==>
              (HoldsKeyframe(data, codec) <==> exists p: nat :: H265KeyAt(data, p) || H264KeyAt(data, p))
  {
    forall p: nat
      ensures RandomAccessAt(data, codec, p)
              <==> (codec != 1 && H265KeyAt(data, p)) || (codec != 2 && H264KeyAt(data, p))
    {
      StartCodeMeans(data, p);
    }
    if HoldsKeyframe(data, codec) {
      var p: int :| RandomAccessAt(data, codec, p);
      var q: nat := p;
      assert (codec != 1 && H265KeyAt(data, q)) || (codec != 2 && H264KeyAt(data, q));
    }
  }
}
