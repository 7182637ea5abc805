/** 16-bit packet numbers of the camera protocol and their relation to unbounded packet indices. */
module SequenceNumbers {
  import opened Common

  const MAX_SEQUENCE_NUMBER := 65535

  function IncrementSequence(number: uint16): (next: uint16)
  {
    (number + 1) % 0x1_0000
  }

  /** The shift is by 65535, one less than the size of the number space. Go truncates -65535/2 to -32767. */
  predicate IsSeqBefore(a: uint16, b: uint16)
  {
    var diff := a as int - b as int;
    var diff1 := if diff > MAX_SEQUENCE_NUMBER / 2 then diff - MAX_SEQUENCE_NUMBER else diff;
    var diff2 := if diff1 < -(MAX_SEQUENCE_NUMBER / 2) then diff1 + MAX_SEQUENCE_NUMBER else diff1;
    diff2 < 0
  }

  /** Serial number order of section 3.2 of RFC 1982 with SERIAL_BITS = 16. */
  predicate SerialLess(a: uint16, b: uint16)
  {
    (a < b && b - a < 0x8000) || (a > b && a - b > 0x8000)
  }

  /** The comparison meets the RFC on every pair the RFC defines, except on (65535, 0); at the half
      range, which the RFC leaves undefined, the numerically larger number counts as the earlier one. */
  lemma {:induction false} IsSeqBeforeVersusRfc1982(a: uint16, b: uint16)
    ensures a - b != 0x8000 && b - a != 0x8000 ==>
              (IsSeqBefore(a, b) == SerialLess(a, b) <==> !(a == 65535 && b == 0))
    ensures a - b == 0x8000 || b - a == 0x8000 ==> (IsSeqBefore(a, b) <==> a > b)
  {
  }

  /** The 16-bit number of the packet with index i, in a stream whose first packet has number start. */
  function Wrap(start: uint16, i: nat): (number: uint16)
  {
    (start + i) % 0x1_0000
  }

  const HALF := 32767

  lemma {:induction false} WrapNext(start: uint16, i: nat)
    ensures Wrap(start, 0) == start && Wrap(start, i + 1) == IncrementSequence(Wrap(start, i))
    ensures IncrementSequence(Wrap(start, i)) == if Wrap(start, i) == 65535 then 0 else Wrap(start, i) + 1
  {
  }

  lemma {:induction false} WrapInjective(start: uint16, i: nat, j: nat)
    requires -0x1_0000 < i - j < 0x1_0000
    requires Wrap(start, i) == Wrap(start, j)
    ensures i == j
  {
  }

  /** Within half the number space the comparison decides the order of the indices, unless packet
      65535 is compared with its successor 0. */
  lemma {:induction false} WindowOrder(start: uint16, i: nat, j: nat)
    requires -HALF <= i - j <= HALF
    ensures (IsSeqBefore(Wrap(start, i), Wrap(start, j)) <==> i < j)
            <==> !(i + 1 == j && Wrap(start, j) == 0)
  {
    var a: int, b: int := Wrap(start, i), Wrap(start, j);
    assert a - b == i - j || a - b == i - j + 0x1_0000 || a - b == i - j - 0x1_0000;
  }
}
