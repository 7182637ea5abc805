/** Rebasing camera timestamps inside a session and remapping them for one viewer, in wrapping 64-bit
    arithmetic. */
module Timestamps {
  import opened Common

  const MAX_PTS_JUMP_MS := 10000
  const FIRST_PTS: uint64 := 1000
  /** Camera timestamps are decoded from six bytes. */
  const RAW_LIMIT := 0x1_0000_0000_0000

  function Mod64(x: int): (r: uint64) {
    x % 0x1_0000_0000_0000_0000
  }

  lemma {:induction false} ModSmall(x: int)
    ensures 0 <= x < TWO_64 ==> Mod64(x) == x
    ensures -TWO_64 <= x < 0 ==> Mod64(x) == x + TWO_64
  {
  }

  lemma {:induction false} ModAbsorbs(x: int, y: int)
    ensures Mod64(Mod64(x) + y) == Mod64(x + y)
  {
  }

  function ToInt64(x: int): int {
    var r := Mod64(x);
    if r >= TWO_64 / 2 then r - TWO_64 else r
  }

  // ----- Rebasing in a session -----

  datatype Clock = Clock(hasPTS: bool, lastRawPTS: uint64, lastPTS: uint64, ptsOffset: uint64)

  const NEW_CLOCK := Clock(false, 0, 0, 0)

  lemma {:induction false} QuotientBounds(d: int)
    requires 0 < d <= 120
    ensures 8 <= 1000 / d <= 1000
    ensures 1000 / d * d <= 1000 < (1000 / d + 1) * d
  {
    var q, r := 1000 / d, 1000 % d;
    assert 1000 == q * d + r && 0 <= r < d;
    assert (q + 1) * d == q * d + d;
    assert q < 8 ==> (q - 7) * d <= 0;
    assert q > 1000 ==> (q - 1001) * d >= 0;
  }

  /** The nominal frame interval. */
  function StepOf(fps: uint16): (step: uint64)
    ensures 8 <= step <= 1000
  {
    if 0 < fps <= 120 then
      QuotientBounds(fps);
      1000 / fps as int
    else
      33
  }

  function Rebase(c: Clock, raw: uint64, fps: uint16): (Clock, uint64) {
    if !c.hasPTS then
      (Clock(true, raw, FIRST_PTS, Mod64(FIRST_PTS - raw)), FIRST_PTS)
    else
      var delta := ToInt64(ToInt64(raw) - ToInt64(c.lastRawPTS));
      var offset := if delta <= 0 || delta > MAX_PTS_JUMP_MS then Mod64(c.lastPTS + StepOf(fps) - raw) else c.ptsOffset;
      var pts := Mod64(raw + offset);
      (Clock(true, raw, pts, offset), pts)
  }

  /** How far the output moves on: the camera's own advance when it is between 1 and 10000 ms, else one
      nominal frame interval. */
  function Advance(lastRaw: int, raw: int, fps: uint16): (step: int)
    ensures 1 <= step <= MAX_PTS_JUMP_MS
  {
    if 1 <= raw - lastRaw <= MAX_PTS_JUMP_MS then raw - lastRaw else StepOf(fps)
  }

  predicate InStep(c: Clock) {
    c.hasPTS ==> c.lastRawPTS < RAW_LIMIT && c.lastPTS == Mod64(c.lastRawPTS + c.ptsOffset)
  }

  lemma {:induction false} RebaseAdvances(c: Clock, raw: uint64, fps: uint16)
    requires InStep(c) && raw < RAW_LIMIT
    ensures InStep(Rebase(c, raw, fps).0) && Rebase(c, raw, fps).0.hasPTS
    ensures Rebase(c, raw, fps).1 == Rebase(c, raw, fps).0.lastPTS
    ensures Rebase(c, raw, fps).0.lastRawPTS == raw
    ensures c.hasPTS ==> Rebase(c, raw, fps).1 == Mod64(c.lastPTS + Advance(c.lastRawPTS, raw, fps))
  {
    hide Mod64;
    if c.hasPTS {
      var step: int := StepOf(fps);
      var raw': int, last: int := raw, c.lastRawPTS;
      ModSmall(raw');
      ModSmall(last);
      ModSmall(raw' - last);
      assert ToInt64(ToInt64(raw) - ToInt64(c.lastRawPTS)) == raw - c.lastRawPTS;
      ModAbsorbs(c.lastPTS + step - raw, raw);
      ModAbsorbs(c.lastRawPTS + c.ptsOffset, raw - c.lastRawPTS);
    } else {
      ModAbsorbs(FIRST_PTS - raw, raw);
      ModSmall(FIRST_PTS);
    }
  }

  /** One frame's camera timestamp and frame rate. */
  datatype Stamp = Stamp(raw: uint64, fps: uint16)

  predicate Plausible(stamps: seq<Stamp>) {
    forall k :: 0 <= k < |stamps| ==> stamps[k].raw < RAW_LIMIT
  }

  function ClockAfter(stamps: seq<Stamp>): Clock {
    if stamps == [] then NEW_CLOCK
    else
      var n := |stamps| - 1;
      Rebase(ClockAfter(stamps[..n]), stamps[n].raw, stamps[n].fps).0
  }

  /** The output for frame k. */
  function OutputAt(stamps: seq<Stamp>, k: nat): uint64
    requires k < |stamps|
  {
    Rebase(ClockAfter(stamps[..k]), stamps[k].raw, stamps[k].fps).1
  }

  /** The longest run for which the output cannot reach 2^64. */
  const MAX_RUN := (TWO_64 - 1 - FIRST_PTS) / MAX_PTS_JUMP_MS

  lemma {:induction false} FirstOutput(raw: uint64, fps: uint16)
    ensures Rebase(NEW_CLOCK, raw, fps).1 == FIRST_PTS && Rebase(NEW_CLOCK, raw, fps).0.lastRawPTS == raw
  {
  }

  lemma {:induction false} ClockBounded(stamps: seq<Stamp>)
    requires Plausible(stamps) && 0 < |stamps| <= MAX_RUN + 1
    ensures var c := ClockAfter(stamps);
            && InStep(c) && c.hasPTS
            && c.lastRawPTS == stamps[|stamps| - 1].raw && c.lastPTS == OutputAt(stamps, |stamps| - 1)
            && FIRST_PTS <= c.lastPTS <= FIRST_PTS + MAX_PTS_JUMP_MS * (|stamps| - 1)
  {
    hide Mod64, Rebase;
    var n := |stamps| - 1;
    assert Plausible(stamps[..n]);
    var c := ClockAfter(stamps[..n]);
    if n > 0 {
      ClockBounded(stamps[..n]);
      ModSmall(c.lastPTS + Advance(c.lastRawPTS, stamps[n].raw, stamps[n].fps));
    } else {
      FirstOutput(stamps[n].raw, stamps[n].fps);
    }
    RebaseAdvances(c, stamps[n].raw, stamps[n].fps);
  }

  /** Whatever the camera clock does, the session's output starts at 1000 and each output exceeds the one
      before by the camera's advance or one frame interval, without ever wrapping. */
  lemma {:induction false} RebasedOutputs(stamps: seq<Stamp>, k: nat)
    requires Plausible(stamps) && k < |stamps| <= MAX_RUN + 1
    ensures FIRST_PTS <= OutputAt(stamps, k) <= FIRST_PTS + MAX_PTS_JUMP_MS * k
    ensures k == 0 ==> OutputAt(stamps, k) == FIRST_PTS
    ensures k > 0 ==> OutputAt(stamps, k) - OutputAt(stamps, k - 1)
                      == Advance(stamps[k - 1].raw, stamps[k].raw, stamps[k].fps)
  {
    hide Mod64, Rebase;
    ClockBounded(stamps[..k + 1]);
    assert stamps[..k + 1][..k] == stamps[..k];
    if k == 0 {
      FirstOutput(stamps[0].raw, stamps[0].fps);
    } else {
      var c := ClockAfter(stamps[..k]);
      ClockBounded(stamps[..k]);
      assert stamps[..k][..k - 1] == stamps[..k - 1];
      RebaseAdvances(c, stamps[k].raw, stamps[k].fps);
      ModSmall(c.lastPTS + Advance(c.lastRawPTS, stamps[k].raw, stamps[k].fps));
    }
  }

  /** The nominal frame interval: whole milliseconds of the frame rate, 33 when that is not 1 to 120. */
  lemma {:induction false} IntervalMeans(fps: uint16)
    ensures 1 <= fps <= 120 ==> StepOf(fps) * fps <= 1000 < (StepOf(fps) + 1) * fps
    ensures !(1 <= fps <= 120) ==> StepOf(fps) == 33
  {
    if 1 <= fps <= 120 {
      QuotientBounds(fps);
    }
  }

  /** The distance d is the nominal frame interval in whole milliseconds. */
  predicate IsInterval(d: int, fps: uint16) {
    if 1 <= fps <= 120 then d * fps <= 1000 < (d + 1) * fps else d == 33
  }

  /** The session's output in numbers: it starts at 1000, moves on by the camera's own advance when that is 1 to
      10000 milliseconds, and otherwise by one frame interval of the frame's own rate. */
  lemma {:induction false} OutputsInNumbers(stamps: seq<Stamp>, k: nat)
    requires Plausible(stamps) && k < |stamps| && (|stamps| - 1) * 10000 + 1000 <= 0xFFFF_FFFF_FFFF_FFFF
    ensures k == 0 ==> OutputAt(stamps, k) == 1000
    ensures k > 0 ==>
              var step, advance := OutputAt(stamps, k) - OutputAt(stamps, k - 1), stamps[k].raw - stamps[k - 1].raw;
              if 1 <= advance <= 10000 then step == advance else IsInterval(step, stamps[k].fps)
  {
    hide OutputAt;
    RebasedOutputs(stamps, k);
    IntervalMeans(stamps[k].fps);
  }

  // ----- Remapping for one viewer -----

  datatype Remapper = Remapper(base: uint64, haveBase: bool, last: uint64, haveLast: bool) {
    function Remap(pts: uint64): (Remapper, uint64) {
      var base := if haveBase then this.base else pts;
      var pts' := if pts < base then base else pts;
      var plain := Mod64(pts' - base + 1000);
      var out := if haveLast && plain <= last then Mod64(last + 1) else plain;
      (Remapper(base, true, out, true), out)
    }

    function Reset(): Remapper {
      this.(haveBase := false)
    }

    /** The least value the next output may take. */
    function Floor(): int {
      if haveLast then last + 1 else 0
    }
  }

  const NEW_REMAPPER := Remapper(0, false, 0, false)

  /** One remap in numbers, for any timestamp and any state in which 64 bits suffice: the least output that is
      neither before the time since the base plus 1000 nor at or before the last output. */
  lemma {:induction false} RemapInNumbers(r: Remapper, pts: uint64)
    requires var base: int := if r.haveBase then r.base else pts;
             (if pts < base then 0 else pts - base) + 1000 <= 0xFFFF_FFFF_FFFF_FFFF
    requires r.haveLast ==> r.last < 0xFFFF_FFFF_FFFF_FFFF
    ensures var base: int := if r.haveBase then r.base else pts;
            var elapsed: int := if pts < base then 1000 else pts - base + 1000;
            var (r', out) := r.Remap(pts);
            && r' == Remapper(base, true, out, true)
            && out >= elapsed && (r.haveLast ==> out > r.last)
            && (out == elapsed || (r.haveLast && out == r.last + 1))
  {
    hide Mod64;
    var base: int := if r.haveBase then r.base else pts;
    var elapsed: int := if pts < base then 1000 else pts - base + 1000;
    ModSmall(elapsed);
    ModSmall(r.last as int + 1);
  }

  predicate Increasing(pts: seq<uint64>) {
    forall i, j :: 0 <= i < j < |pts| ==> pts[i] < pts[j]
  }

  /** The remapper after a run of timestamps from one session. */
  function RemapAll(r: Remapper, pts: seq<uint64>): Remapper {
    if pts == [] then r else RemapAll(r, pts[..|pts| - 1]).Remap(pts[|pts| - 1]).0
  }

  function RemappedAt(r: Remapper, pts: seq<uint64>, k: nat): uint64
    requires k < |pts|
  {
    RemapAll(r, pts[..k]).Remap(pts[k]).1
  }

  /** After a reset, output k of the new session is its time since the session's first frame served plus
      1000, or the old timeline moved on by one per frame, whichever is later; the clamp to the base never
      fires. */
  lemma {:induction false} RemapAfterReset(r: Remapper, pts: seq<uint64>, k: nat)
    requires !r.haveBase && Increasing(pts) && k < |pts|
    requires pts[k] - pts[0] + 1000 < TWO_64 && r.Floor() + k < TWO_64
    ensures var out := RemappedAt(r, pts, k);
            && out == (if pts[k] - pts[0] + 1000 >= r.Floor() + k then pts[k] - pts[0] + 1000 else r.Floor() + k)
            && RemapAll(r, pts[..k + 1]) == Remapper(pts[0], true, out, true)
            && pts[k] >= RemapAll(r, pts[..k + 1]).base
  {
    hide Mod64;
    assert pts[..k + 1][..k] == pts[..k];
    var x: int := pts[k] as int - pts[0] as int + 1000;
    ModSmall(x);
    ModSmall(r.Floor() + k);
    if k > 0 {
      assert pts[0] < pts[k] && pts[k - 1] < pts[k];
      RemapAfterReset(r, pts, k - 1);
    } else {
      assert pts[..0] == [];
    }
  }

  /** The new timeline rejoins real time: once it has caught up with the old one it stays there. */
  lemma {:induction false} RemapRejoins(r: Remapper, pts: seq<uint64>, j: nat, k: nat)
    requires !r.haveBase && Increasing(pts) && j <= k < |pts|
    requires pts[k] - pts[0] + 1000 < TWO_64 && r.Floor() + k < TWO_64
    requires RemappedAt(r, pts, j) == pts[j] - pts[0] + 1000
    ensures RemappedAt(r, pts, k) == pts[k] - pts[0] + 1000
  {
    assert j < k ==> pts[j] < pts[k];
    IncreasingGap(pts, j, k);
    RemapAfterReset(r, pts, j);
    RemapAfterReset(r, pts, k);
  }

  lemma {:induction false} IncreasingGap(pts: seq<uint64>, j: nat, k: nat)
    requires Increasing(pts) && j <= k < |pts|
    ensures pts[k] - pts[j] >= k - j
    decreases k
  {
    if j == k {
    } else {
      IncreasingGap(pts, j, k - 1);
      assert pts[k - 1] < pts[k];
    }
  }
}
