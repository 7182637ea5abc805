/** Ordering the parts of a multi-packet message by their 16-bit packet numbers. */
module PartOrder {
  import opened Common
  import opened SequenceNumbers
  import opened ReorderQueue

  /** The longest run of consecutive packet numbers the comparator orders correctly. */
  const MAX_SPAN := 536

  /** The comparator handed to the library sort. */
  predicate Less(a: uint16, b: uint16) {
    var diff := a as int - b as int;
    if diff > 65000 || -diff > 65000 then a > b else diff < 0
  }

  predicate StrictTotal(keys: set<uint16>) {
    && (forall a, b | a in keys && b in keys && a != b :: Less(a, b) != Less(b, a))
    && (forall a, b, c | a in keys && b in keys && c in keys && Less(a, b) && Less(b, c) :: Less(a, c))
  }

  /** What the library sort promises: a permutation, in order whenever the comparator is a strict total order. */
  predicate SortResult(sorted: seq<uint16>, keys: set<uint16>) {
    && Enumerates(sorted, keys)
    && (StrictTotal(keys) ==> forall i, j :: 0 <= i < j < |sorted| ==> Less(sorted[i], sorted[j]))
  }

  function ConcatParts(parts: map<uint16, bytes>, keys: seq<uint16>): bytes
    requires forall k <- keys :: k in parts
  {
    if keys == [] then []
    else
      var n := |keys| - 1;
      ConcatParts(parts, keys[..n]) + parts[keys[n]]
  }

  /** data is a possible result of sorting and joining the parts. */
  ghost predicate SortedConcat(parts: map<uint16, bytes>, data: bytes) {
    exists keys :: SortResult(keys, parts.Keys) && data == ConcatParts(parts, keys)
  }

  /** The parts of packets first, ..., end - 1 joined in sending order; a packet without a part adds nothing. */
  function Joined(start: uint16, parts: map<uint16, bytes>, first: nat, end: nat): bytes
    requires first <= end
    decreases end
  {
    if first == end then []
    else
      Joined(start, parts, first, end - 1)
      + if Wrap(start, end - 1) in parts then parts[Wrap(start, end - 1)] else []
  }

  ghost predicate Numbers(start: uint16, first: nat, end: nat, k: uint16) {
    exists i: nat :: first <= i < end && Wrap(start, i) == k
  }

  ghost predicate KeysWithin(start: uint16, keys: set<uint16>, first: nat, end: nat) {
    forall k <- keys :: Numbers(start, first, end, k)
  }

  ghost predicate OrdersWindow(start: uint16, first: nat, end: nat) {
    forall i: nat, j: nat | first <= i < end && first <= j < end ::
      Less(Wrap(start, i), Wrap(start, j)) <==> i < j
  }

  lemma {:induction false} WithinSpan(start: uint16, i: nat, j: nat)
    requires -MAX_SPAN < i - j < MAX_SPAN
    ensures Less(Wrap(start, i), Wrap(start, j)) <==> i < j
  {
    var a: int, b: int := Wrap(start, i), Wrap(start, j);
    assert a - b == i - j || a - b == i - j + 0x1_0000 || a - b == i - j - 0x1_0000;
  }

  /** Over n consecutive packet numbers, starting anywhere, the comparator is the sending order exactly
      up to n = 536. */
  lemma {:induction false} SpanIsExact(n: nat)
    ensures (forall start: uint16 :: OrdersWindow(start, 0, n)) <==> n <= 536
  {
    if n <= MAX_SPAN {
      forall start: uint16, i: nat, j: nat | i < n && j < n
        ensures Less(Wrap(start, i), Wrap(start, j)) <==> i < j
      {
        WithinSpan(start, i, j);
      }
    } else {
      var start: uint16 := 65000;
      assert Wrap(start, 536) == 0 && Wrap(start, 0) == 65000;
      assert !Less(Wrap(start, 0), Wrap(start, 536));
      assert !OrdersWindow(start, 0, n);
    }
  }

  lemma {:induction false} WindowIsTotal(start: uint16, keys: set<uint16>, first: nat, end: nat)
    requires first <= end <= first + MAX_SPAN && KeysWithin(start, keys, first, end)
    ensures StrictTotal(keys)
  {
    forall a, b | a in keys && b in keys && a != b ensures Less(a, b) != Less(b, a) {
      var i: nat :| first <= i < end && Wrap(start, i) == a;
      var j: nat :| first <= j < end && Wrap(start, j) == b;
      WithinSpan(start, i, j);
      WithinSpan(start, j, i);
    }
    forall a, b, c | a in keys && b in keys && c in keys && Less(a, b) && Less(b, c) ensures Less(a, c) {
      var i: nat :| first <= i < end && Wrap(start, i) == a;
      var j: nat :| first <= j < end && Wrap(start, j) == b;
      var k: nat :| first <= k < end && Wrap(start, k) == c;
      WithinSpan(start, i, j);
      WithinSpan(start, j, k);
      WithinSpan(start, i, k);
    }
  }

  lemma {:induction false} NumbersStep(start: uint16, first: nat, end: nat, k: uint16)
    requires first < end <= first + MAX_SPAN
    ensures Numbers(start, first, end, k) <==> Numbers(start, first, end - 1, k) || k == Wrap(start, end - 1)
    ensures !Numbers(start, first, end - 1, Wrap(start, end - 1))
  {
    if Numbers(start, first, end - 1, Wrap(start, end - 1)) {
      var i: nat :| first <= i < end - 1 && Wrap(start, i) == Wrap(start, end - 1);
      WrapInjective(start, i, end - 1);
    }
    if Numbers(start, first, end - 1, k) {
      var i: nat :| first <= i < end - 1 && Wrap(start, i) == k;
      assert first <= i < end;
    }
  }

  /** The keys are exactly those of the parts numbered within the window, in comparator order. */
  ghost predicate SortsWindow(start: uint16, parts: map<uint16, bytes>, keys: seq<uint16>, first: nat, end: nat) {
    && (forall k <- keys :: k in parts && Numbers(start, first, end, k))
    && (forall k <- parts :: Numbers(start, first, end, k) ==> k in keys)
    && (forall i, j :: 0 <= i < j < |keys| ==> Less(keys[i], keys[j]))
  }

  lemma {:induction false} DropLast(start: uint16, parts: map<uint16, bytes>, keys: seq<uint16>, first: nat, end: nat)
    requires first < end <= first + MAX_SPAN && SortsWindow(start, parts, keys, first, end)
    ensures var last, n := Wrap(start, end - 1), |keys| - 1;
            if last in parts
            then 0 <= n && keys[n] == last && SortsWindow(start, parts, keys[..n], first, end - 1)
            else SortsWindow(start, parts, keys, first, end - 1)
  {
    var last, n := Wrap(start, end - 1), |keys| - 1;
    forall k ensures Numbers(start, first, end, k) <==> Numbers(start, first, end - 1, k) || k == last
    {
      NumbersStep(start, first, end, k);
    }
    NumbersStep(start, first, end, last);
    hide Less, Wrap, Numbers;
    if last in parts {
      LastIsLast(start, keys, first, end);
      assert forall k <- keys[..n] :: k in keys;
      assert forall k <- keys :: k == keys[n] || k in keys[..n];
    }
  }

  lemma {:induction false} SortedIsJoined(start: uint16, parts: map<uint16, bytes>, keys: seq<uint16>, first: nat,
        end: nat)
    requires first <= end <= first + MAX_SPAN && SortsWindow(start, parts, keys, first, end)
    ensures forall k <- keys :: k in parts
    ensures ConcatParts(parts, keys) == Joined(start, parts, first, end)
    decreases end
  {
    assert keys != [] ==> Numbers(start, first, end, keys[0]);
    if first == end {
    } else {
      DropLast(start, parts, keys, first, end);
      hide SortsWindow, Wrap;
      SortedIsJoined(start, parts, if Wrap(start, end - 1) in parts then keys[..|keys| - 1] else keys, first, end - 1);
    }
  }

  lemma {:induction false} LastIsLast(start: uint16, keys: seq<uint16>, first: nat, end: nat)
    requires first < end <= first + MAX_SPAN
    requires forall k <- keys :: Numbers(start, first, end, k)
    requires forall i, j :: 0 <= i < j < |keys| ==> Less(keys[i], keys[j])
    requires Wrap(start, end - 1) in keys
    ensures keys[|keys| - 1] == Wrap(start, end - 1)
    ensures Wrap(start, end - 1) !in keys[..|keys| - 1]
  {
    var last, n := Wrap(start, end - 1), |keys| - 1;
    var i :| 0 <= i < |keys| && keys[i] == last;
    if i < n {
      assert keys[n] in keys;
      var j: nat :| first <= j < end && Wrap(start, j) == keys[n];
      WithinSpan(start, end - 1, j);
    }
    assert !Less(last, last);
  }

  /** Parts numbered within 536 consecutive packets come out in sending order, however the sort works. */
  lemma {:induction false} SortRestoresSendingOrder(start: uint16, parts: map<uint16, bytes>, first: nat, end: nat,
        data: bytes)
    requires first <= end <= first + MAX_SPAN && KeysWithin(start, parts.Keys, first, end)
    requires SortedConcat(parts, data)
    ensures data == Joined(start, parts, first, end)
  {
    var keys :| SortResult(keys, parts.Keys) && data == ConcatParts(parts, keys);
    WindowIsTotal(start, parts.Keys, first, end);
    SortedIsJoined(start, parts, keys, first, end);
  }
}
