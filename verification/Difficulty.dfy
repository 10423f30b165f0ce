/**
 Compact difficulty numbers: a 32-bit floating-point form of big integers with a base-256
 exponent in the high byte, a sign bit and a 23-bit mantissa.
 */
module Difficulty {
  import opened Basics

  type uint32 = n: nat | n < 0x1_0000_0000

  const SIGN_BIT := 0x0080_0000
  const EXPONENT_UNIT := 0x0100_0000

  function Times(a: nat, b: nat): nat {
    a * b
  }

  function Quot(a: nat, b: nat): nat
    requires b > 0
  {
    a / b
  }

  /** The number of bytes needed for `n`; none for zero. */
  function ByteLength(n: nat): nat {
    if n == 0 then 0 else 1 + ByteLength(n / 256)
  }

  // ---------------------------------------------------------------------------------------
  // Expanding a compact number
  // ---------------------------------------------------------------------------------------

  function Mantissa(compact: uint32): nat {
    compact % SIGN_BIT
  }

  predicate IsNegative(compact: uint32) {
    compact / SIGN_BIT % 2 == 1
  }

  function Exponent(compact: uint32): nat {
    compact / EXPONENT_UNIT
  }

  function Magnitude(mantissa: nat, exponent: nat): nat {
    if exponent <= 3 then Quot(mantissa, Pow256(3 - exponent)) else Times(mantissa, Pow256(exponent - 3))
  }

  /** The specification of `CompactToBig`. */
  function Expand(compact: uint32): int {
    var magnitude: int := Magnitude(Mantissa(compact), Exponent(compact));
    if IsNegative(compact) then -magnitude else magnitude
  }

  /** A big integer that is updated in place. */
  class BigInt {
    var value: int

    constructor (value: int)
      ensures this.value == value
    {
      this.value := value;
    }
  }

  method CompactToBigWithDestination(compact: uint32, destination: BigInt)
    modifies destination
    ensures destination.value == Expand(compact)
  {
    var mantissa := Mantissa(compact);
    var isNegative := IsNegative(compact);
    var exponent := Exponent(compact);
    if exponent <= 3 {
      mantissa := Quot(mantissa, Pow256(3 - exponent));
      destination.value := mantissa;
    } else {
      destination.value := mantissa;
      destination.value := destination.value * Pow256(exponent - 3);
    }
    if isNegative {
      destination.value := -destination.value;
    }
  }

  method CompactToBig(compact: uint32) returns (n: int)
    ensures n == Expand(compact)
  {
    var destination := new BigInt(0);
    CompactToBigWithDestination(compact, destination);
    n := destination.value;
  }

  // ---------------------------------------------------------------------------------------
  // Compacting a number
  // ---------------------------------------------------------------------------------------

  /** The three leading bytes; shifting a negative number rounds its magnitude up. */
  function LeadingBytes(n: int): nat
    requires n != 0
  {
    var magnitude := if n < 0 then -n else n;
    var exponent := ByteLength(magnitude);
    if exponent <= 3 then Times(magnitude, Pow256(3 - exponent))
    else if n < 0 then Quot(magnitude + Pow256(exponent - 3) - 1, Pow256(exponent - 3))
    else Quot(magnitude, Pow256(exponent - 3))
  }

  predicate HasSignBit(mantissa: nat) {
    mantissa / SIGN_BIT % 2 == 1
  }

  /** Exponent and mantissa after making room for the sign bit. */
  function Normalized(n: int): (nat, nat)
    requires n != 0
  {
    var exponent := ByteLength(if n < 0 then -n else n);
    var mantissa := LeadingBytes(n);
    if HasSignBit(mantissa) then (exponent + 1, mantissa / 256) else (exponent, mantissa)
  }

  /** The exponent, cut to eight bits, or-ed with the mantissa, which can reach bit 24. */
  function Packed(exponent: nat, mantissa: nat): uint32
    requires mantissa <= EXPONENT_UNIT
  {
    if mantissa < EXPONENT_UNIT then exponent % 256 * EXPONENT_UNIT + mantissa
    else (exponent % 256 + (if exponent % 2 == 0 then 1 else 0)) * EXPONENT_UNIT
  }

  lemma {:induction false} ByteLengthBounds(n: nat)
    ensures n < Pow256(ByteLength(n))
    ensures n > 0 ==> ByteLength(n) >= 1 && Pow256(ByteLength(n) - 1) <= n
    decreases n
  {
    if n > 0 {
      ByteLengthBounds(n / 256);
    }
  }

  lemma {:induction false} Pow256Add(a: nat, b: nat)
    ensures Pow256(a + b) == Pow256(a) * Pow256(b)
  {
    if a > 0 {
      Pow256Add(a - 1, b);
      assert 256 * (Pow256(a - 1) * Pow256(b)) == Pow256(a) * Pow256(b);
    }
  }

  /** q is the quotient of a by b, rounding down. */
  lemma Quotient(a: nat, b: nat)
    requires b > 0
    ensures a / b * b <= a < (a / b + 1) * b
  {
    assert a == a / b * b + a % b;
    assert (a / b + 1) * b == a / b * b + b;
  }

  lemma QuotientIs(a: nat, b: nat, q: nat)
    requires b > 0 && q * b <= a < (q + 1) * b
    ensures a / b == q
  {
    Quotient(a, b);
    Cancel(q, a / b + 1, b);
    Cancel(a / b, q + 1, b);
  }

  lemma SmallPowers()
    ensures Pow256(0) == 1 && Pow256(1) == 256 && Pow256(2) == 0x1_0000 && Pow256(3) == EXPONENT_UNIT
  {
  }

  lemma ShortLeadingBytes(m: nat)
    requires m > 0 && ByteLength(m) <= 3
    ensures 0x1_0000 <= Times(m, Pow256(3 - ByteLength(m))) < EXPONENT_UNIT
  {
    hide Pow256, ByteLength;
    SmallPowers();
    ByteLengthBounds(m);
    if ByteLength(m) == 1 { } else if ByteLength(m) == 2 { } else { }
  }

  /** Dividing by all but three of the bytes leaves three bytes; rounding up may reach 256^3. */
  lemma LongLeadingBytes(m: nat)
    requires m > 0 && ByteLength(m) > 3
    ensures var unit := Pow256(ByteLength(m) - 3);
            && 0x1_0000 <= Quot(m, unit) < EXPONENT_UNIT
            && 0x1_0000 <= Quot(m + unit - 1, unit) <= EXPONENT_UNIT
  {
    hide Pow256, ByteLength;
    var e := ByteLength(m);
    var unit := Pow256(e - 3);
    SmallPowers();
    ByteLengthBounds(m);
    Pow256Add(3, e - 3);
    Pow256Add(2, e - 3);
    assert Pow256(e) == EXPONENT_UNIT * unit && Pow256(e - 1) == 0x1_0000 * unit;
    QuotientBetween(m, unit, 0x1_0000, EXPONENT_UNIT);
    QuotientBetween(m + unit - 1, unit, 0x1_0000, EXPONENT_UNIT + 1);
  }

  lemma QuotientBetween(a: nat, b: nat, low: nat, high: nat)
    requires b > 0 && low * b <= a < high * b
    ensures low <= Quot(a, b) < high
  {
    hide Quot;
    QuotBracket(a, b);
    Cancel(low, Quot(a, b) + 1, b);
    Cancel(Quot(a, b), high, b);
  }

  lemma QuotBracket(a: nat, b: nat)
    requires b > 0
    ensures Quot(a, b) * b <= a < (Quot(a, b) + 1) * b
  {
    Quotient(a, b);
  }

  lemma LeadingBytesBounds(n: int)
    requires n != 0
    ensures 0x1_0000 <= LeadingBytes(n) <= EXPONENT_UNIT
    ensures n > 0 ==> LeadingBytes(n) < EXPONENT_UNIT
  {
    hide Pow256, ByteLength, Times, Quot;
    var m := if n < 0 then -n else n;
    if ByteLength(m) <= 3 {
      ShortLeadingBytes(m);
    } else {
      LongLeadingBytes(m);
    }
  }

  lemma Cancel(a: nat, b: nat, unit: nat)
    requires unit > 0 && a * unit < b * unit
    ensures a < b
  {
  }

  /** The specification of `BigToCompact`. */
  function Compact(n: int): uint32 {
    if n == 0 then 0
    else
      LeadingBytesBounds(n);
      var (exponent, mantissa) := Normalized(n);
      Packed(exponent, mantissa) + if n < 0 then SIGN_BIT else 0
  }

  method BigToCompact(n: int) returns (compact: uint32)
    ensures compact == Compact(n)
  {
    hide Pow256, ByteLength, Times, Quot;
    if n == 0 {
      return 0;
    }
    LeadingBytesBounds(n);
    var magnitude := if n < 0 then -n else n;
    var exponent := ByteLength(magnitude);
    var mantissa := 0;
    if exponent <= 3 {
      mantissa := magnitude;
      mantissa := Times(mantissa, Pow256(3 - exponent));
    } else if n < 0 {
      mantissa := Quot(magnitude + Pow256(exponent - 3) - 1, Pow256(exponent - 3));
    } else {
      mantissa := Quot(magnitude, Pow256(exponent - 3));
    }
    if HasSignBit(mantissa) {
      mantissa := mantissa / 256;
      exponent := exponent + 1;
    }
    compact := Packed(exponent, mantissa);
    if n < 0 {
      compact := compact + SIGN_BIT;
    }
  }

  // ---------------------------------------------------------------------------------------
  // What compacting keeps
  // ---------------------------------------------------------------------------------------

  /** 256^3, the weight that makes exponents below three integral. */
  const UNIT := 0x100_0000

  /** The value of exponent and mantissa in units of 1/256^3. */
  function Weight(exponent: nat, mantissa: nat): nat {
    Times(mantissa, Pow256(exponent))
  }

  /** The magnitude is the weight without its fraction. */
  lemma MagnitudeIsFloor(mantissa: nat, exponent: nat)
    ensures Magnitude(mantissa, exponent) == Weight(exponent, mantissa) / UNIT
    ensures exponent >= 3 ==> Magnitude(mantissa, exponent) * UNIT == Weight(exponent, mantissa)
  {
    assert Pow256(1) == 256 && Pow256(2) == 0x1_0000 && Pow256(3) == UNIT;
    if exponent <= 3 {
      if exponent == 0 { } else if exponent == 1 { } else if exponent == 2 { } else { }
    } else {
      Pow256Add(exponent - 3, 3);
      var magnitude := mantissa * Pow256(exponent - 3);
      assert magnitude * UNIT == mantissa * (Pow256(exponent - 3) * UNIT);
      QuotientIs(Weight(exponent, mantissa), UNIT, magnitude);
    }
  }

  lemma Reassociate(a: nat, b: nat, c: nat)
    ensures a * b * c == a * (b * c)
  {
  }

  lemma ShortNumberIsExact(n: nat)
    requires n > 0 && ByteLength(n) <= 3
    ensures Weight(ByteLength(n), LeadingBytes(n)) == n * UNIT
  {
    hide Pow256, ByteLength;
    var e := ByteLength(n);
    ByteLengthBounds(n);
    Pow256Add(3 - e, e);
    Reassociate(n, Pow256(3 - e), Pow256(e));
    SmallPowers();
  }

  lemma LongNumberBracket(n: nat, e: nat)
    requires e > 3
    ensures var q := Quot(n, Pow256(e - 3)); Weight(e, q) <= n * UNIT < Weight(e, q + 1)
  {
    hide Pow256, Quot;
    var unit := Pow256(e - 3);
    var q := Quot(n, unit);
    SmallPowers();
    QuotBracket(n, unit);
    Pow256Add(e - 3, 3);
    Reassociate(q, unit, UNIT);
    Reassociate(q + 1, unit, UNIT);
    Scale(q * unit, n, UNIT);
    ScaleStrictly(n, (q + 1) * unit, UNIT);
  }

  /** The leading bytes bracket a positive number, before the sign bit is cleared. */
  lemma LeadingBytesBracket(n: nat)
    requires n > 0
    ensures var e, q := ByteLength(n), LeadingBytes(n);
            Weight(e, q) <= n * UNIT < Weight(e, q + 1)
  {
    hide Pow256, ByteLength, Quot, Weight;
    var e, q := ByteLength(n), LeadingBytes(n);
    if e <= 3 {
      ShortNumberIsExact(n);
      NextWeight(e, q);
    } else {
      LongNumberBracket(n, e);
    }
  }

  lemma NextWeight(e: nat, q: nat)
    ensures Weight(e, q + 1) == Weight(e, q) + Pow256(e)
  {
    hide Pow256;
  }

  /** Clearing the sign bit divides the mantissa by 256 and raises the exponent. */
  lemma ShiftBracket(e: nat, q: nat, x: nat)
    requires Weight(e, q) <= x < Weight(e, q + 1)
    ensures Weight(e + 1, q / 256) <= x < Weight(e + 1, q / 256 + 1)
    ensures q % 256 == 0 ==> Weight(e + 1, q / 256) == Weight(e, q)
  {
    var m, unit := q / 256, Pow256(e);
    assert Pow256(e + 1) == 256 * unit;
    hide Pow256;
    Reassociate(m, 256, unit);
    Reassociate(m + 1, 256, unit);
    Scale(m * 256, q, unit);
    Scale(q + 1, (m + 1) * 256, unit);
  }

  lemma ShortMantissaHasTrailingZeros(n: nat)
    requires n > 0 && ByteLength(n) <= 2
    ensures LeadingBytes(n) % 256 == 0
  {
    assert Pow256(1) == 256 && Pow256(2) == 0x1_0000;
    ByteLengthBounds(n);
  }

  /**
   Exponent and mantissa of a positive number: the mantissa has its full 15 leading bits and
   leaves the sign bit clear, the number lies between it and its successor, and numbers with
   an exponent of at most three are exact.
   */
  lemma NormalizedBrackets(n: nat)
    requires n > 0
    ensures var (e, m) := Normalized(n);
            && e >= 1 && 0x8000 <= m < SIGN_BIT
            && Weight(e, m) <= n * UNIT < Weight(e, m + 1)
            && (e <= 3 ==> Weight(e, m) == n * UNIT)
  {
    hide Pow256, ByteLength, LeadingBytes, Weight;
    ByteLengthBounds(n);
    LeadingBytesBounds(n);
    LeadingBytesBracket(n);
    var e, q := ByteLength(n), LeadingBytes(n);
    ShiftBracket(e, q, n * UNIT);
    if e <= 3 {
      ShortNumberIsExact(n);
    }
    if e <= 2 {
      ShortMantissaHasTrailingZeros(n);
    }
  }

  lemma Scale(a: nat, b: nat, unit: nat)
    requires a <= b
    ensures a * unit <= b * unit
  {
  }

  /** A mantissa without sign bit weighs less than a normalized one with a larger exponent. */
  lemma LargerExponentWeighsMore(e: nat, m: nat, e': nat, m': nat)
    requires m < SIGN_BIT && e < e' && 0x8000 <= m'
    ensures Weight(e, m + 1) <= Weight(e', m')
  {
    Pow256Add(e' - e - 1, e + 1);
    assert Pow256(e + 1) == 256 * Pow256(e);
    var unit := Pow256(e);
    hide Pow256;
    Scale(m + 1, SIGN_BIT, unit);
    assert SIGN_BIT * unit == 0x8000 * (256 * unit);
    Scale(0x8000, m', 256 * unit);
    Reassociate(m', Pow256(e' - e - 1), 256 * unit);
    Scale(m', m' * Pow256(e' - e - 1), 256 * unit);
  }

  /** The numbers whose exponent fits its byte. */
  predicate InRange(n: nat) {
    n < SIGN_BIT * Pow256(252)
  }

  lemma HeaviestWord()
    ensures Weight(255, SIGN_BIT) == SIGN_BIT * Pow256(252) * UNIT
  {
    hide Pow256;
    SmallPowers();
    Pow256Add(252, 3);
    Reassociate(SIGN_BIT, Pow256(252), UNIT);
  }

  lemma InRangeMeansExponentFits(n: nat)
    requires n > 0
    ensures InRange(n) <==> Normalized(n).0 <= 255
  {
    hide Pow256, Normalized;
    NormalizedBrackets(n);
    HeaviestWord();
    var (e, m) := Normalized(n);
    if e <= 255 {
      Pow256Add(255 - e, e);
      Scale(m + 1, SIGN_BIT, Pow256(e));
      Scale(1, Pow256(255 - e), Pow256(e));
      Scale(Pow256(e), Pow256(255), SIGN_BIT);
      Cancel(n, SIGN_BIT * Pow256(252), UNIT);
    } else {
      LargerExponentWeighsMore(255, SIGN_BIT - 1, e, m);
    }
  }

  lemma ScaleStrictly(a: nat, b: nat, unit: nat)
    requires a < b && unit > 0
    ensures a * unit < b * unit
  {
  }

  lemma PackedFields(e: nat, m: nat)
    requires e <= 255 && m < SIGN_BIT
    ensures var c := Packed(e, m); Mantissa(c) == m && Exponent(c) == e && !IsNegative(c)
  {
  }

  /** The word of a positive number in range. */
  lemma CompactWord(n: nat)
    requires n > 0 && InRange(n)
    ensures var (e, m) := Normalized(n); m < SIGN_BIT && e <= 255 && Compact(n) == e * EXPONENT_UNIT + m
  {
    hide Pow256, Weight, LeadingBytes, ByteLength;
    InRangeMeansExponentFits(n);
    NormalizedBrackets(n);
  }

  /** What expanding a compacted number gives. */
  lemma CompactedValue(n: nat)
    requires n > 0 && InRange(n)
    ensures var (e, m) := Normalized(n);
            && Exponent(Compact(n)) == e && Mantissa(Compact(n)) == m && !IsNegative(Compact(n))
            && Expand(Compact(n)) == Weight(e, m) / UNIT
            && (e <= 3 ==> Expand(Compact(n)) == n)
            && (e >= 3 ==> Expand(Compact(n)) * UNIT == Weight(e, m))
  {
    InRangeMeansExponentFits(n);
    NormalizedBrackets(n);
    var (e, m) := Normalized(n);
    PackedFields(e, m);
    MagnitudeIsFloor(m, e);
    hide Weight, Normalized, Packed, Magnitude;
  }

  /**
   Expanding a compacted number gives the greatest number, not above the original, that any
   compact word represents.
   */
  lemma CompactIsGreatestBelow(n: nat, other: uint32)
    requires InRange(n)
    ensures 0 <= Expand(Compact(n)) <= n
    ensures Expand(other) <= n ==> Expand(other) <= Expand(Compact(n))
  {
    if n > 0 {
      NormalizedBrackets(n);
      CompactedValue(n);
      var (e, m) := Normalized(n);
      Quotient(Weight(e, m), UNIT);
      if Expand(other) <= n && !IsNegative(other) && e > 3 {
        NoneBetween(n, e, m, Exponent(other), Mantissa(other));
      }
    }
  }

  lemma NoneBetween(n: nat, e: nat, m: nat, e': nat, m': nat)
    requires e > 3 && 0x8000 <= m < SIGN_BIT && m' < SIGN_BIT
    requires Weight(e, m) <= n * UNIT < Weight(e, m + 1)
    requires Magnitude(m', e') <= n
    ensures Magnitude(m', e') * UNIT <= Weight(e, m)
  {
    MagnitudeIsFloor(m', e');
    Quotient(Weight(e', m'), UNIT);
    if e' < e {
      LargerExponentWeighsMore(e', m', e, m);
      Scale(m', m' + 1, Pow256(e'));
    } else {
      Pow256Add(e' - e, e);
      var k := m' * Pow256(e' - e);
      Reassociate(m', Pow256(e' - e), Pow256(e));
      assert Weight(e', m') == k * Pow256(e);
      Scale(Magnitude(m', e'), n, UNIT);
      Cancel(k, m + 1, Pow256(e));
      Scale(k, m, Pow256(e));
    }
  }

  lemma HeavyExponent(e: nat, m: nat)
    requires e > 3 && 0x8000 <= m
    ensures SIGN_BIT * UNIT <= Weight(e, m)
  {
    hide Pow256;
    Pow256Add(e - 3, 3);
    SmallPowers();
    FourthPower(e - 3);
    Scale(256 * UNIT, Pow256(e), 0x8000);
    Scale(0x8000, m, Pow256(e));
  }

  lemma ZeroMantissa(e: nat)
    ensures Magnitude(0, e) == 0
  {
    if e <= 3 {
      QuotientIsLess(0, Pow256(3 - e));
    }
  }

  lemma FourthPower(k: nat)
    requires k > 0
    ensures 256 * UNIT <= Pow256(k) * UNIT
  {
    assert Pow256(k) == 256 * Pow256(k - 1);
  }

  lemma SmallNumbersAreExact(n: nat)
    requires n < SIGN_BIT
    ensures InRange(n) && Expand(Compact(n)) == n
  {
    hide Pow256, Normalized, Magnitude;
    Scale(1, Pow256(252), SIGN_BIT);
    if n == 0 {
      ZeroMantissa(0);
    } else {
      NormalizedBrackets(n);
      CompactedValue(n);
      var (e, m) := Normalized(n);
      if e > 3 {
        HeavyExponent(e, m);
        assert false;
      }
    }
  }

  /** Less than one part in 2^15 is lost. */
  lemma LossIsSmall(n: nat)
    requires n > 0 && InRange(n)
    ensures (n - Expand(Compact(n))) * 0x8000 < Expand(Compact(n))
  {
    NormalizedBrackets(n);
    CompactedValue(n);
    var (e, m) := Normalized(n);
    if e > 3 {
      var r := Expand(Compact(n));
      assert n * UNIT - r * UNIT < Pow256(e);
      Scale(0x8000, m, Pow256(e));
      assert (n - r) * UNIT * 0x8000 < r * UNIT;
      assert (n - r) * UNIT * 0x8000 == (n - r) * 0x8000 * UNIT;
      Cancel((n - r) * 0x8000, r, UNIT);
    }
  }

  lemma NormalizedIsMonotone(a: nat, b: nat)
    requires 0 < a <= b
    ensures var (e, m), (e', m') := Normalized(a), Normalized(b); e < e' || (e == e' && m <= m')
  {
    hide Pow256, Normalized;
    NormalizedBrackets(a);
    NormalizedBrackets(b);
    var (e, m) := Normalized(a);
    var (e', m') := Normalized(b);
    Scale(a, b, UNIT);
    if e' < e {
      LargerExponentWeighsMore(e', m', e, m);
      assert false;
    } else if e == e' {
      Cancel(m, m' + 1, Pow256(e));
    }
  }

  /** Larger numbers have larger compact words. */
  lemma CompactIsMonotone(a: nat, b: nat)
    requires a <= b && InRange(b)
    ensures Compact(a) <= Compact(b)
  {
    hide Pow256, Normalized, Packed;
    if a > 0 {
      NormalizedIsMonotone(a, b);
      CompactWord(a);
      CompactWord(b);
      var (e, m) := Normalized(a);
      var (e', m') := Normalized(b);
      assert Compact(a) == e * EXPONENT_UNIT + m;
      assert Compact(b) == e' * EXPONENT_UNIT + m';
      assert e < e' || (e == e' && m <= m');
    }
  }

  /** Every non-negative compact word expands to a number that compacting keeps exactly. */
  lemma ExpandedIsKept(compact: uint32)
    requires Expand(compact) >= 0
    ensures InRange(Expand(compact))
    ensures Expand(Compact(Expand(compact))) == Expand(compact)
    ensures Compact(Expand(Compact(Expand(compact)))) == Compact(Expand(compact))
  {
    var n := Expand(compact);
    var e, m := Exponent(compact), Mantissa(compact);
    MagnitudeIsFloor(m, e);
    ExpandedIsInRange(m, e);
    CompactIsGreatestBelow(n, compact);
  }

  lemma ExpandedIsInRange(m: nat, e: nat)
    requires e <= 255 && m < SIGN_BIT
    ensures InRange(Magnitude(m, e))
  {
    hide Pow256;
    Scale(1, Pow256(252), SIGN_BIT);
    if e <= 3 {
      QuotientIsLess(m, Pow256(3 - e));
    } else {
      Pow256Add(255 - e, e - 3);
      Scale(1, Pow256(255 - e), Pow256(e - 3));
      ScaleStrictly(m, SIGN_BIT, Pow256(e - 3));
      Scale(Pow256(e - 3), Pow256(252), SIGN_BIT);
    }
  }

  lemma QuotientIsLess(a: nat, b: nat)
    requires b > 0
    ensures Quot(a, b) <= a
  {
    hide Quot;
    QuotBracket(a, b);
    Scale(1, b, Quot(a, b));
  }

  /** No word expands to more than the largest mantissa with the largest exponent. */
  lemma LargestWord(compact: uint32)
    ensures var top := Packed(255, SIGN_BIT - 1);
            && Expand(compact) <= Expand(top)
            && Expand(top) * UNIT == Weight(255, SIGN_BIT - 1)
            && (Expand(compact) == Expand(top) && 0x8000 <= Mantissa(compact) ==>
                Exponent(compact) == 255 && Mantissa(compact) == SIGN_BIT - 1)
  {
    hide Pow256, Magnitude;
    var e, m := Exponent(compact), Mantissa(compact);
    PackedFields(255, SIGN_BIT - 1);
    MagnitudeIsFloor(SIGN_BIT - 1, 255);
    MagnitudeIsFloor(m, e);
    Quotient(Weight(e, m), UNIT);
    if e < 255 {
      LargerExponentWeighsMore(e, m, 255, SIGN_BIT - 1);
      ScaleStrictly(m, m + 1, Pow256(e));
      Cancel(Magnitude(m, e), Magnitude(SIGN_BIT - 1, 255), UNIT);
    } else if m < SIGN_BIT - 1 {
      ScaleStrictly(m, SIGN_BIT - 1, Pow256(255));
      Cancel(Magnitude(m, e), Magnitude(SIGN_BIT - 1, 255), UNIT);
    }
  }

  /**
   Compacting finds the greatest representable number exactly when the exponent fits its byte,
   or when cutting the exponent to a byte happens to leave the largest word of all.
   */
  lemma GreatestBelowExactlyWhen(n: nat)
    ensures (forall other: uint32 :: Expand(other) <= n ==> Expand(other) <= Expand(Compact(n))) <==>
            InRange(n) || (Normalized(n).0 % 256 == 255 && Normalized(n).1 == SIGN_BIT - 1)
  {
    hide Expand;
    if InRange(n) {
      forall other: uint32
        ensures Expand(other) <= n ==> Expand(other) <= Expand(Compact(n))
      {
        CompactIsGreatestBelow(n, other);
      }
    } else {
      OutOfRange(n);
      forall other: uint32
        ensures Expand(other) <= Expand(Packed(255, SIGN_BIT - 1))
      {
        LargestWord(other);
      }
      LargestWord(Compact(n));
    }
  }

  lemma {:induction false} ByteLengthOfPower(k: nat)
    ensures ByteLength(Pow256(k)) == k + 1
  {
    if k > 0 {
      ByteLengthOfPower(k - 1);
      assert Pow256(k) / 256 == Pow256(k - 1);
    }
  }

  lemma LeadingBytesOfPower(k: nat)
    requires k > 3
    ensures LeadingBytes(Pow256(k)) == 0x1_0000
  {
    hide Pow256, ByteLength, Quot;
    ByteLengthOfPower(k);
    SmallPowers();
    Pow256Add(2, k - 2);
    QuotOfProduct(0x1_0000, Pow256(k - 2));
  }

  lemma QuotOfProduct(a: nat, b: nat)
    requires b > 0
    ensures Quot(a * b, b) == a
  {
    QuotientIs(a * b, b, a);
  }

  /** 256^255 needs 256 bytes: its exponent is cut to zero, and it is compacted to a word that expands to zero. */
  lemma CutExponentLosesTheNumber()
    ensures var n := Pow256(255);
            Expand(Compact(n)) == 0 && Expand(0x0101_0000) == 1 && 1 <= n
  {
    hide Pow256, ByteLength, LeadingBytes, Quot;
    ByteLengthOfPower(255);
    LeadingBytesOfPower(255);
    assert Compact(Pow256(255)) == 0x1_0000;
    SmallPowers();
    SmallQuotients();
  }

  lemma SmallQuotients()
    ensures Quot(0x1_0000, 0x100_0000) == 0 && Quot(0x1_0000, 0x1_0000) == 1
  {
  }

  /** Out of range the exponent loses its high bits, and the largest word is below the number. */
  lemma OutOfRange(n: nat)
    requires !InRange(n)
    ensures n > 0
    ensures var (e, m) := Normalized(n);
            && 0x8000 <= m < SIGN_BIT && Compact(n) == Packed(e % 256, m)
            && Exponent(Compact(n)) == e % 256 && Mantissa(Compact(n)) == m
    ensures Expand(Packed(255, SIGN_BIT - 1)) <= n
  {
    hide Pow256, Weight, LeadingBytes, ByteLength, Magnitude;
    InRangeOfZero();
    NormalizedBrackets(n);
    var (e, m) := Normalized(n);
    PackedFields(e % 256, m);
    LargestBelow(n);
  }

  lemma InRangeOfZero()
    ensures InRange(0)
  {
    hide Pow256;
    Scale(1, Pow256(252), SIGN_BIT);
  }

  lemma LargestBelow(n: nat)
    requires !InRange(n)
    ensures Expand(Packed(255, SIGN_BIT - 1)) <= n
  {
    hide Pow256;
    PackedFields(255, SIGN_BIT - 1);
    Scale(SIGN_BIT - 1, SIGN_BIT, Pow256(252));
  }

  // ---------------------------------------------------------------------------------------
  // Negative numbers
  // ---------------------------------------------------------------------------------------

  /** Setting the sign bit of a word negates what it represents. */
  lemma SignBitNegates(compact: uint32)
    requires compact % 0x100_0000 < 0x80_0000
    ensures compact + 0x80_0000 < 0x1_0000_0000 && Expand(compact + 0x80_0000) == -Expand(compact)
  {
    hide Magnitude;
    assert Exponent(compact + 0x80_0000) == Exponent(compact) && Mantissa(compact + 0x80_0000) == Mantissa(compact);
  }

  lemma SmallIsShort(n: nat)
    requires 0 < n < SIGN_BIT
    ensures ByteLength(n) <= 3
  {
    assert n / 256 < 0x8000 && n / 256 / 256 < 0x80 && n / 256 / 256 / 256 == 0;
    assert ByteLength(n / 256 / 256) <= 1;
    assert ByteLength(n / 256) <= 1 + ByteLength(n / 256 / 256);
  }

  lemma ShortNegatives(n: int)
    requires n > 0 && ByteLength(n) <= 3
    ensures LeadingBytes(-n) == LeadingBytes(n)
  {
  }

  /** Short negative numbers are compacted like their absolute value, with the sign bit set. */
  lemma SmallNegativesAreExact(n: int)
    requires 0 < n < SIGN_BIT
    ensures Compact(-n) == Compact(n) + 0x80_0000 && Expand(Compact(-n)) == -n
  {
    hide Pow256, ByteLength, LeadingBytes, Expand, Packed, Weight;
    SmallIsShort(n);
    ShortNegatives(n);
    LeadingBytesBounds(n);
    LeadingBytesBounds(-n);
    SmallNumbersAreExact(n);
    InRangeMeansExponentFits(n);
    NormalizedBrackets(n);
    CompactWord(n);
    SignBitNegates(Compact(n));
  }

  /** The leading bytes of a long negative number are rounded up: the least whose weight is not below it. */
  lemma NegativeLeadingBytes(n: int)
    requires n > 0 && ByteLength(n) > 3
    ensures var e, q := ByteLength(n), LeadingBytes(-n); q > 0 && Weight(e, q - 1) < n * UNIT <= Weight(e, q)
  {
    hide Pow256, ByteLength, Quot;
    var e := ByteLength(n);
    var unit := Pow256(e - 3);
    var q := LeadingBytes(-n);
    LeadingBytesBounds(-n);
    SmallPowers();
    QuotBracket(n + unit - 1, unit);
    CeilingBracket(n, unit, q);
    Pow256Add(e - 3, 3);
    Reassociate(q, unit, UNIT);
    Reassociate(q - 1, unit, UNIT);
    Scale(n, q * unit, UNIT);
    ScaleStrictly((q - 1) * unit, n, UNIT);
  }

  lemma CeilingBracket(n: nat, unit: nat, q: nat)
    requires unit > 0 && q > 0 && q * unit <= n + unit - 1 < (q + 1) * unit
    ensures (q - 1) * unit < n <= q * unit
  {
    assert (q - 1) * unit == q * unit - unit && (q + 1) * unit == q * unit + unit;
  }

  lemma CarryBytes()
    ensures ByteLength(0xffff_ff01) == 4 && Quot(0xffff_ff01 + 256 - 1, 256) == 0x100_0000
  {
    assert ByteLength(0xffff_ff01) == 1 + ByteLength(0xff_ffff);
    assert ByteLength(0xff_ffff) == 1 + ByteLength(0xffff);
  }

  /** Rounding up can carry out of the three bytes: the carry is or-ed into the exponent, and nothing is left. */
  lemma NegativeCarryIsLost()
    ensures Compact(-0xffff_ff01) == 0x0580_0000 && Expand(Compact(-0xffff_ff01)) == 0
  {
    hide Pow256, ByteLength, Quot, Magnitude;
    CarryBytes();
    SmallPowers();
    LeadingBytesBounds(-0xffff_ff01);
    assert LeadingBytes(-0xffff_ff01) == 0x100_0000;
    assert Compact(-0xffff_ff01) == 0x0580_0000;
    ZeroMantissa(5);
  }

  // ---------------------------------------------------------------------------------------
  // Work
  // ---------------------------------------------------------------------------------------

  /** 2^256. */
  const MAX_WORK: nat := 0x1_0000000000000000_0000000000000000_0000000000000000_0000000000000000

  /** The specification of `CalcWork`. */
  function Work(bits: uint32): nat {
    var target := Expand(bits);
    if target <= 0 then 0 else MAX_WORK / (target + 1)
  }

  method CalcWork(bits: uint32) returns (work: nat)
    ensures work == Work(bits)
  {
    var difficultyNum := CompactToBig(bits);
    if difficultyNum <= 0 {
      return 0;
    }
    var denominator := difficultyNum + 1;
    work := MAX_WORK / denominator;
  }

  lemma MaxWorkIsPower()
    ensures MAX_WORK == Pow256(32)
  {
    hide Pow256;
    SmallPowers();
    Pow256Add(2, 2);
    Pow256Add(4, 4);
    Pow256Add(8, 8);
    Pow256Add(16, 16);
  }

  /** The work of a positive target is 2^256 divided by the number of hashes that meet it, rounded down. */
  lemma WorkBounds(bits: uint32)
    requires Expand(bits) > 0
    ensures Work(bits) * (Expand(bits) + 1) <= Pow256(32) < (Work(bits) + 1) * (Expand(bits) + 1)
  {
    hide Expand, Pow256;
    MaxWorkIsPower();
    Quotient(MAX_WORK, Expand(bits) + 1);
  }

  /** Targets that are not positive, such as those with the sign bit set, are worth no work. */
  lemma NoWorkWithoutTarget(bits: uint32)
    ensures Work(bits) == 0 <==> Expand(bits) <= 0 || Expand(bits) >= Pow256(32)
  {
    hide Expand, Pow256;
    if Expand(bits) > 0 {
      WorkBounds(bits);
      if Work(bits) > 0 {
        Scale(1, Work(bits), Expand(bits) + 1);
      }
    }
  }

  /** A larger positive target never means more work. */
  lemma WorkIsAntitone(a: uint32, b: uint32)
    requires 0 < Expand(a) <= Expand(b)
    ensures Work(b) <= Work(a)
  {
    hide Expand, Work, Pow256;
    WorkBounds(a);
    WorkBounds(b);
    Scale(Expand(a) + 1, Expand(b) + 1, Work(b));
    Cancel(Work(b), Work(a) + 1, Expand(a) + 1);
  }

  /** Compacting targets keeps their order, so it keeps the opposite order of their work. */
  lemma WorkOfCompactedTargets(a: nat, b: nat)
    requires 0 < a <= b && InRange(b)
    ensures Work(Compact(b)) <= Work(Compact(a))
  {
    hide Expand, Work, Compact;
    CompactIsGreatestBelow(a, Compact(a));
    CompactIsGreatestBelow(b, Compact(a));
    LossIsSmall(a);
    WorkIsAntitone(Compact(a), Compact(b));
  }
}
