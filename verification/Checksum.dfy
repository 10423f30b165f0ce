/**
 The 40-bit BCH checksum over GF(2^5) that protects addresses.

 The running checksum never leaves its low 40 bits (each round masks it to 35 bits before
 shifting by 5), so the state is a `bv40`.  `Fold` is the specification of the polynomial
 remainder loop; the lemmas show that it is linear over exclusive or, that feeding zero
 symbols loses nothing, and that the last eight symbols enter it verbatim.  From these follow
 the two facts the checksum is for: the check symbols are unique, and a burst of up to eight
 adjacent wrong symbols is always noticed.
 */
module Checksum {

  const CHECKSUM_LENGTH := 8

  const GENERATOR: seq<bv40> := [0x98f2bc8e61, 0x79b76d99e2, 0xf33e5fb3c4, 0xae2eabe2a8, 0x1e4f43e470]

  /** Every byte is a base-32 symbol. */
  predicate AreSymbols(s: seq<bv8>) {
    forall i :: 0 <= i < |s| ==> s[i] < 32
  }

  function Xor(a: bv40, b: bv40): bv40 {
    a ^ b
  }

  // ---------------------------------------------------------------------------------------
  // The remainder loop
  // ---------------------------------------------------------------------------------------

  /** The `i`th of the five bits shifted out. */
  predicate IsSet(top: bv40, i: nat)
    requires i < 5
  {
    (if i == 0 then top else if i == 1 then top >> 1 else if i == 2 then top >> 2
     else if i == 3 then top >> 3 else top >> 4) & 1 == 1
  }

  /** What generator `i` contributes when the five bits shifted out are `top`. */
  function Term(top: bv40, i: nat): bv40
    requires i < 5
  {
    if IsSet(top, i) then GENERATOR[i] else 0
  }

  /** The contribution of the first `n` generators. */
  function Feedback(top: bv40, n: nat): bv40
    requires n <= 5
  {
    if n == 0 then 0 else Xor(Feedback(top, n - 1), Term(top, n - 1))
  }

  function Shifted(c: bv40): bv40 {
    (c & 0x07ffffffff) << 5
  }

  function Top(c: bv40): bv40 {
    c >> 35
  }

  /** One round: shift in a symbol and fold back the five bits shifted out. */
  function Step(c: bv40, v: bv40): bv40 {
    Xor(Xor(Shifted(c), v), Feedback(Top(c), 5))
  }

  function Fold(c: bv40, values: seq<bv40>): bv40 {
    if |values| == 0 then c
    else Step(Fold(c, values[..|values| - 1]), values[|values| - 1])
  }

  method PolyMod(values: seq<bv40>) returns (remainder: bv40)
    ensures remainder == Xor(Fold(1, values), 1)
  {
    hide Xor, Term, Shifted, Top;
    var checksum: bv40 := 1;
    for k := 0 to |values|
      invariant checksum == Fold(1, values[..k])
    {
      assert values[..k + 1][..k] == values[..k];
      var topBits := Top(checksum);
      checksum := Xor(Shifted(checksum), values[k]);
      ghost var shifted := checksum;
      XorZero(shifted);
      for i := 0 to |GENERATOR|
        invariant checksum == Xor(shifted, Feedback(topBits, i))
      {
        XorAssociates(shifted, Feedback(topBits, i), Term(topBits, i));
        TermIs(topBits, i);
        if IsSet(topBits, i) {
          checksum := Xor(checksum, GENERATOR[i]);
        } else {
          XorZero(checksum);
        }
      }
    }
    assert values[..|values|] == values;
    remainder := Xor(checksum, 1);
  }

  lemma TermIs(top: bv40, i: nat)
    requires i < 5
    ensures Term(top, i) == if IsSet(top, i) then GENERATOR[i] else 0
  {
  }

  // ---------------------------------------------------------------------------------------
  // Linearity
  // ---------------------------------------------------------------------------------------

  lemma XorAssociates(a: bv40, b: bv40, c: bv40)
    ensures Xor(a, Xor(b, c)) == Xor(Xor(a, b), c)
  {
  }

  lemma XorZero(a: bv40)
    ensures Xor(a, 0) == a && Xor(0, a) == a
  {
  }

  lemma XorEqual(a: bv40, b: bv40)
    ensures Xor(a, b) == 0 <==> a == b
  {
    hide Xor;
    XorSelf(a);
    XorZero(a);
    XorZero(b);
    XorAssociates(a, a, b);
  }

  lemma XorSelf(a: bv40)
    ensures Xor(a, a) == 0
  {
  }

  lemma XorCommutes(a: bv40, b: bv40)
    ensures Xor(a, b) == Xor(b, a)
  {
  }

  lemma XorExchange(a: bv40, b: bv40, c: bv40, d: bv40)
    ensures Xor(Xor(a, b), Xor(c, d)) == Xor(Xor(a, c), Xor(b, d))
  {
    hide Xor;
    XorAssociates(a, b, Xor(c, d));
    XorAssociates(a, c, Xor(b, d));
    XorAssociates(b, c, d);
    XorAssociates(c, b, d);
    XorCommutes(b, c);
  }

  lemma IsSetLinear(a: bv40, b: bv40, i: nat)
    requires i < 5
    ensures IsSet(Xor(a, b), i) <==> IsSet(a, i) != IsSet(b, i)
  {
    if i == 0 { } else if i == 1 { } else if i == 2 { } else if i == 3 { } else { }
  }

  lemma TermLinear(a: bv40, b: bv40, i: nat)
    requires i < 5
    ensures Term(Xor(a, b), i) == Xor(Term(a, i), Term(b, i))
  {
    hide Xor, IsSet;
    IsSetLinear(a, b, i);
    XorZero(GENERATOR[i]);
    XorZero(0);
    XorEqual(GENERATOR[i], GENERATOR[i]);
  }

  lemma {:induction false} FeedbackLinear(a: bv40, b: bv40, n: nat)
    requires n <= 5
    ensures Feedback(Xor(a, b), n) == Xor(Feedback(a, n), Feedback(b, n))
  {
    hide Xor, Term;
    if n == 0 {
      XorZero(0);
    } else {
      FeedbackLinear(a, b, n - 1);
      TermLinear(a, b, n - 1);
      XorExchange(Feedback(a, n - 1), Feedback(b, n - 1), Term(a, n - 1), Term(b, n - 1));
    }
  }

  lemma ShiftLinear(a: bv40, b: bv40)
    ensures Shifted(Xor(a, b)) == Xor(Shifted(a), Shifted(b))
    ensures Top(Xor(a, b)) == Xor(Top(a), Top(b))
  {
  }

  lemma StepLinear(a: bv40, b: bv40, v: bv40, w: bv40)
    ensures Step(Xor(a, b), Xor(v, w)) == Xor(Step(a, v), Step(b, w))
  {
    hide Xor, Feedback, Shifted, Top;
    ShiftLinear(a, b);
    FeedbackLinear(Top(a), Top(b), 5);
    XorExchange(Shifted(a), Shifted(b), v, w);
    XorExchange(Xor(Shifted(a), v), Xor(Shifted(b), w), Feedback(Top(a), 5), Feedback(Top(b), 5));
  }

  /** Symbol-wise exclusive or. */
  function XorAll(s: seq<bv40>, t: seq<bv40>): (r: seq<bv40>)
    requires |s| == |t|
    ensures |r| == |s|
  {
    seq(|s|, i requires 0 <= i < |s| => Xor(s[i], t[i]))
  }

  lemma {:induction false} FoldLinear(a: bv40, b: bv40, s: seq<bv40>, t: seq<bv40>)
    requires |s| == |t|
    ensures Fold(Xor(a, b), XorAll(s, t)) == Xor(Fold(a, s), Fold(b, t))
    decreases |s|
  {
    hide Xor, Step;
    if |s| > 0 {
      var n := |s| - 1;
      FoldLinear(a, b, s[..n], t[..n]);
      assert XorAll(s, t)[..n] == XorAll(s[..n], t[..n]);
      StepLinear(Fold(a, s[..n]), Fold(b, t[..n]), s[n], t[n]);
    }
  }

  lemma {:induction false} FoldAppend(c: bv40, s: seq<bv40>, t: seq<bv40>)
    ensures Fold(c, s + t) == Fold(Fold(c, s), t)
    decreases |t|
  {
    hide Step;
    if |t| == 0 {
      assert s + t == s;
    } else {
      FoldAppend(c, s, t[..|t| - 1]);
      assert (s + t)[..|s + t| - 1] == s + t[..|t| - 1];
    }
  }

  // ---------------------------------------------------------------------------------------
  // Zero symbols lose nothing
  // ---------------------------------------------------------------------------------------

  lemma FeedbackUnfolds(top: bv40)
    ensures Feedback(top, 5) ==
            Xor(Xor(Xor(Xor(Term(top, 0), Term(top, 1)), Term(top, 2)), Term(top, 3)), Term(top, 4))
  {
    hide Xor, Term;
    XorZero(Term(top, 0));
    assert Feedback(top, 0) == 0;
    assert Feedback(top, 1) == Term(top, 0);
    assert Feedback(top, 2) == Xor(Feedback(top, 1), Term(top, 1));
    assert Feedback(top, 3) == Xor(Feedback(top, 2), Term(top, 2));
    assert Feedback(top, 4) == Xor(Feedback(top, 3), Term(top, 3));
  }

  /** The low five bits of the generators are 1, 2, 4, 8 and 16, so the bits shifted out can be read off. */
  lemma ZeroStepInjective(c: bv40)
    requires Step(c, 0) == 0
    ensures c == 0
  {
    FeedbackUnfolds(Top(c));
  }

  lemma StepOfZero(v: bv40)
    ensures Step(0, v) == v
  {
    FeedbackUnfolds(0);
  }

  function Zeros(n: nat): (z: seq<bv40>)
    ensures |z| == n
  {
    seq(n, _ => 0)
  }

  lemma {:induction false} FoldOfZeros(c: bv40, n: nat)
    ensures Fold(c, Zeros(n)) == 0 <==> c == 0
  {
    hide Step;
    if n > 0 {
      FoldOfZeros(c, n - 1);
      assert Zeros(n)[..n - 1] == Zeros(n - 1);
      var previous := Fold(c, Zeros(n - 1));
      StepOfZero(0);
      if Step(previous, 0) == 0 {
        ZeroStepInjective(previous);
      }
    }
  }

  // ---------------------------------------------------------------------------------------
  // Eight symbols and forty bits
  // ---------------------------------------------------------------------------------------

  function WidenByte(b: bv8): bv40 {
    b as bv40
  }

  function Widen(s: seq<bv8>): (r: seq<bv40>)
    ensures |r| == |s|
  {
    seq(|s|, i requires 0 <= i < |s| => WidenByte(s[i]))
  }

  /** Eight symbols, most significant first, as one 40-bit number. */
  function Pack(a: bv8, b: bv8, c: bv8, d: bv8, e: bv8, f: bv8, g: bv8, h: bv8): bv40 {
    (a as bv40 << 35) | (b as bv40 << 30) | (c as bv40 << 25) | (d as bv40 << 20) |
    (e as bv40 << 15) | (f as bv40 << 10) | (g as bv40 << 5) | (h as bv40)
  }

  /** Symbol `i` of a 40-bit number, most significant first. */
  function Symbol(x: bv40, i: nat): (s: bv8)
    requires i < CHECKSUM_LENGTH
    ensures s < 32
  {
    ((if i == 0 then x >> 35 else if i == 1 then x >> 30 else if i == 2 then x >> 25 else if i == 3 then x >> 20
      else if i == 4 then x >> 15 else if i == 5 then x >> 10 else if i == 6 then x >> 5 else x) & 31) as bv8
  }

  lemma UnpackPack(a: bv8, b: bv8, c: bv8, d: bv8, e: bv8, f: bv8, g: bv8, h: bv8)
    requires a < 32 && b < 32 && c < 32 && d < 32 && e < 32 && f < 32 && g < 32 && h < 32
    ensures var x := Pack(a, b, c, d, e, f, g, h);
            Symbol(x, 0) == a && Symbol(x, 1) == b && Symbol(x, 2) == c && Symbol(x, 3) == d &&
            Symbol(x, 4) == e && Symbol(x, 5) == f && Symbol(x, 6) == g && Symbol(x, 7) == h
  {
  }

  lemma PackUnpack(x: bv40)
    ensures x == Pack(Symbol(x, 0), Symbol(x, 1), Symbol(x, 2), Symbol(x, 3),
                      Symbol(x, 4), Symbol(x, 5), Symbol(x, 6), Symbol(x, 7))
  {
  }

  lemma StepWithoutOverflow(c: bv40, v: bv40)
    requires c >> 35 == 0
    ensures Step(c, v) == (c << 5) ^ v
  {
    FeedbackUnfolds(0);
  }

  lemma FoldOfEight(c: bv40, s: seq<bv40>)
    requires |s| == 8
    ensures Fold(c, s) ==
            Step(Step(Step(Step(Step(Step(Step(Step(c, s[0]), s[1]), s[2]), s[3]), s[4]), s[5]), s[6]), s[7])
  {
    hide Step;
    assert s[..1][..0] == [] && s[..2][..1] == s[..1] && s[..3][..2] == s[..2] && s[..4][..3] == s[..3];
    assert s[..5][..4] == s[..4] && s[..6][..5] == s[..5] && s[..7][..6] == s[..6];
    assert Fold(c, s[..1]) == Step(c, s[0]);
    assert Fold(c, s[..2]) == Step(Fold(c, s[..1]), s[1]);
    assert Fold(c, s[..3]) == Step(Fold(c, s[..2]), s[2]);
    assert Fold(c, s[..4]) == Step(Fold(c, s[..3]), s[3]);
    assert Fold(c, s[..5]) == Step(Fold(c, s[..4]), s[4]);
    assert Fold(c, s[..6]) == Step(Fold(c, s[..5]), s[5]);
    assert Fold(c, s[..7]) == Step(Fold(c, s[..6]), s[6]);
  }

  lemma EightFromZero(a: bv8, b: bv8, c: bv8, d: bv8, e: bv8, f: bv8, g: bv8, h: bv8)
    requires a < 32 && b < 32 && c < 32 && d < 32 && e < 32 && f < 32 && g < 32 && h < 32
    ensures Step(Step(Step(Step(Step(Step(Step(Step(0, WidenByte(a)), WidenByte(b)), WidenByte(c)), WidenByte(d)),
                 WidenByte(e)), WidenByte(f)), WidenByte(g)), WidenByte(h)) == Pack(a, b, c, d, e, f, g, h)
  {
    hide Step;
    StepOfZero(WidenByte(a));
    var c1 := WidenByte(a);
    StepWithoutOverflow(c1, WidenByte(b));
    var c2 := Step(c1, WidenByte(b));
    StepWithoutOverflow(c2, WidenByte(c));
    var c3 := Step(c2, WidenByte(c));
    StepWithoutOverflow(c3, WidenByte(d));
    var c4 := Step(c3, WidenByte(d));
    StepWithoutOverflow(c4, WidenByte(e));
    var c5 := Step(c4, WidenByte(e));
    StepWithoutOverflow(c5, WidenByte(f));
    var c6 := Step(c5, WidenByte(f));
    StepWithoutOverflow(c6, WidenByte(g));
    var c7 := Step(c6, WidenByte(g));
    StepWithoutOverflow(c7, WidenByte(h));
  }

  function PackAll(s: seq<bv8>): bv40
    requires |s| == CHECKSUM_LENGTH
  {
    Pack(s[0], s[1], s[2], s[3], s[4], s[5], s[6], s[7])
  }

  lemma FoldFromZeroPacks(s: seq<bv8>)
    requires |s| == CHECKSUM_LENGTH && AreSymbols(s)
    ensures Fold(0, Widen(s)) == PackAll(s)
  {
    hide Step, Pack, WidenByte;
    FoldOfEight(0, Widen(s));
    EightFromZero(s[0], s[1], s[2], s[3], s[4], s[5], s[6], s[7]);
  }

  /** The last eight symbols are added, unchanged, to what eight zero symbols would leave. */
  lemma SuffixEntersVerbatim(c: bv40, s: seq<bv8>)
    requires |s| == CHECKSUM_LENGTH && AreSymbols(s)
    ensures Fold(c, Widen(s)) == Xor(Fold(c, Zeros(CHECKSUM_LENGTH)), PackAll(s))
  {
    hide Xor, Fold, PackAll, WidenByte;
    FoldFromZeroPacks(s);
    FoldLinear(c, 0, Zeros(CHECKSUM_LENGTH), Widen(s));
    XorZero(c);
    forall i | 0 <= i < CHECKSUM_LENGTH
      ensures XorAll(Zeros(CHECKSUM_LENGTH), Widen(s))[i] == Widen(s)[i]
    {
      XorZero(Widen(s)[i]);
    }
    assert XorAll(Zeros(CHECKSUM_LENGTH), Widen(s)) == Widen(s);
  }

  // ---------------------------------------------------------------------------------------
  // Check symbols
  // ---------------------------------------------------------------------------------------

  /** The low five bits of a character. */
  function LowFiveBits(c: char): bv40 {
    (c as int % 32) as bv40
  }

  function PrefixSymbols(prefix: string): (r: seq<bv40>)
    ensures |r| == |prefix|
  {
    seq(|prefix|, i requires 0 <= i < |prefix| => LowFiveBits(prefix[i]))
  }

  /** What is fed to the remainder loop: prefix, a zero, payload. */
  function Expand(prefix: string, payload: seq<bv8>): seq<bv40> {
    PrefixSymbols(prefix) + [0] + Widen(payload)
  }

  /** The specification of `VerifyChecksum`. */
  predicate Verifies(prefix: string, payload: seq<bv8>) {
    Xor(Fold(1, Expand(prefix, payload)), 1) == 0
  }

  /** The specification of `CalculateChecksum`. */
  function CheckSymbols(prefix: string, payload: seq<bv8>): (r: seq<bv8>)
    ensures |r| == CHECKSUM_LENGTH && AreSymbols(r)
  {
    var remainder := Xor(Fold(1, Expand(prefix, payload) + Zeros(CHECKSUM_LENGTH)), 1);
    seq(CHECKSUM_LENGTH, i requires 0 <= i < CHECKSUM_LENGTH => Symbol(remainder, i))
  }

  method PrefixToUint5Array(prefix: string) returns (r: seq<bv40>)
    ensures r == PrefixSymbols(prefix)
  {
    r := [];
    for i := 0 to |prefix|
      invariant r == PrefixSymbols(prefix)[..i]
    {
      r := r + [LowFiveBits(prefix[i])];
    }
  }

  method Ints(payload: seq<bv8>) returns (r: seq<bv40>)
    ensures r == Widen(payload)
  {
    hide WidenByte;
    r := [];
    for i := 0 to |payload|
      invariant r == Widen(payload)[..i]
    {
      r := r + [WidenByte(payload[i])];
    }
  }

  method CalculateChecksum(prefix: string, payload: seq<bv8>) returns (res: seq<bv8>)
    ensures res == CheckSymbols(prefix, payload)
  {
    hide Fold, Xor, Symbol;
    var prefixLower5Bits := PrefixToUint5Array(prefix);
    var payloadInts := Ints(payload);
    var concat := prefixLower5Bits + [0];
    concat := concat + payloadInts;
    concat := concat + [0, 0, 0, 0, 0, 0, 0, 0];
    assert concat == Expand(prefix, payload) + Zeros(CHECKSUM_LENGTH);
    var polyModResult := PolyMod(concat);
    res := [];
    for i := 0 to CHECKSUM_LENGTH
      invariant res == CheckSymbols(prefix, payload)[..i]
    {
      res := res + [Symbol(polyModResult, i)];
    }
  }

  method VerifyChecksum(prefix: string, payload: seq<bv8>) returns (valid: bool)
    ensures valid <==> Verifies(prefix, payload)
  {
    var prefixLower5Bits := PrefixToUint5Array(prefix);
    var payloadInts := Ints(payload);
    var dataToVerify := prefixLower5Bits + [0] + payloadInts;
    var remainder := PolyMod(dataToVerify);
    valid := remainder == 0;
  }

  lemma SymbolsDeterminePack(x: bv40, s: seq<bv8>)
    requires |s| == CHECKSUM_LENGTH && AreSymbols(s)
    ensures PackAll(s) == x <==> forall i :: 0 <= i < CHECKSUM_LENGTH ==> s[i] == Symbol(x, i)
  {
    hide Pack, Symbol;
    UnpackPack(s[0], s[1], s[2], s[3], s[4], s[5], s[6], s[7]);
    PackUnpack(x);
  }

  /**
   For every prefix and payload exactly one eight-symbol suffix verifies: the calculated one.
   */
  lemma ChecksumIsUnique(prefix: string, payload: seq<bv8>, suffix: seq<bv8>)
    requires |suffix| == CHECKSUM_LENGTH && AreSymbols(suffix)
    ensures Verifies(prefix, payload + suffix) <==> suffix == CheckSymbols(prefix, payload)
  {
    hide Xor, Fold, PackAll, Symbol;
    var head := Expand(prefix, payload);
    var c := Fold(1, head);
    var zeros := Fold(c, Zeros(CHECKSUM_LENGTH));
    assert Expand(prefix, payload + suffix) == head + Widen(suffix);
    FoldAppend(1, head, Widen(suffix));
    FoldAppend(1, head, Zeros(CHECKSUM_LENGTH));
    SuffixEntersVerbatim(c, suffix);
    var packed := PackAll(suffix);
    assert Verifies(prefix, payload + suffix) <==> Xor(Xor(zeros, packed), 1) == 0;
    XorEqual(Xor(zeros, packed), 1);
    XorEqual(Xor(zeros, 1), packed);
    XorSolve(zeros, packed, 1);
    SymbolsDeterminePack(Xor(zeros, 1), suffix);
  }

  lemma XorSolve(a: bv40, b: bv40, c: bv40)
    ensures Xor(a, b) == c <==> Xor(a, c) == b
  {
    hide Xor;
    XorEqual(a, a);
    XorZero(b);
    XorZero(c);
    XorAssociates(a, a, b);
    XorAssociates(a, a, c);
  }

  // ---------------------------------------------------------------------------------------
  // Burst errors
  // ---------------------------------------------------------------------------------------

  lemma PackOfZero(s: seq<bv8>)
    requires |s| == CHECKSUM_LENGTH && AreSymbols(s)
    ensures PackAll(s) == 0 <==> forall i :: 0 <= i < CHECKSUM_LENGTH ==> s[i] == 0
  {
    SymbolsDeterminePack(0, s);
  }

  /** At most eight symbols, not all zero, leave a non-zero remainder. */
  lemma ShortBurstIsSeen(w: seq<bv8>, i: nat)
    requires |w| <= CHECKSUM_LENGTH && AreSymbols(w)
    requires i < |w| && w[i] != 0
    ensures Fold(0, Widen(w)) != 0
  {
    hide Fold, PackAll;
    var n := CHECKSUM_LENGTH - |w|;
    var padding := seq(n, _ => 0 as bv8);
    var full := padding + w;
    assert full[n + i] == w[i];
    FoldFromZeroPacks(full);
    PackOfZero(full);
    assert Widen(full) == Zeros(n) + Widen(w);
    FoldAppend(0, Zeros(n), Widen(w));
    FoldOfZeros(0, n);
  }

  /** Symbol-wise difference of two symbol strings. */
  function Difference(s: seq<bv8>, t: seq<bv8>): (d: seq<bv8>)
    requires |s| == |t|
    ensures |d| == |s|
    ensures forall i :: 0 <= i < |s| ==> (d[i] == 0 <==> s[i] == t[i])
  {
    seq(|s|, i requires 0 <= i < |s| => s[i] ^ t[i])
  }

  lemma WidenDifference(s: seq<bv8>, t: seq<bv8>)
    requires |s| == |t| && AreSymbols(s) && AreSymbols(t)
    ensures AreSymbols(Difference(s, t))
    ensures XorAll(Widen(s), Widen(t)) == Widen(Difference(s, t))
  {
    forall i | 0 <= i < |s|
      ensures Difference(s, t)[i] < 32
      ensures XorAll(Widen(s), Widen(t))[i] == Widen(Difference(s, t))[i]
    {
      SymbolXor(s[i], t[i]);
    }
  }

  lemma SymbolXor(a: bv8, b: bv8)
    requires a < 32 && b < 32
    ensures a ^ b < 32 && Xor(WidenByte(a), WidenByte(b)) == WidenByte(a ^ b)
  {
  }

  /** Two symbol strings that leave the same remainder 1 have a difference that folds to zero. */
  lemma DifferenceFoldsToZero(a: seq<bv8>, b: seq<bv8>)
    requires |a| == |b| && AreSymbols(a) && AreSymbols(b)
    requires Fold(1, Widen(a)) == 1 && Fold(1, Widen(b)) == 1
    ensures Fold(0, Widen(Difference(a, b))) == 0
  {
    hide Xor, Fold, Difference;
    XorEqual(1, 1);
    FoldLinear(1, 1, Widen(a), Widen(b));
    WidenDifference(a, b);
  }

  lemma NarrowNumber(n: nat)
    requires n < 32
    ensures (n as bv8) < 32 && (n as bv8) as int == n && WidenByte(n as bv8) == n as bv40
  {
  }

  /** What is fed to the remainder loop, as bytes. */
  function ExpandBytes(prefix: string, payload: seq<bv8>): (r: seq<bv8>)
    ensures |r| == |prefix| + 1 + |payload|
  {
    seq(|prefix|, i requires 0 <= i < |prefix| => LowByte(prefix[i])) + [0] + payload
  }

  function LowByte(c: char): bv8 {
    (c as int % 32) as bv8
  }

  lemma ExpandsToBytes(prefix: string, payload: seq<bv8>)
    requires AreSymbols(payload)
    ensures AreSymbols(ExpandBytes(prefix, payload)) && Widen(ExpandBytes(prefix, payload)) == Expand(prefix, payload)
  {
    hide WidenByte, LowFiveBits, LowByte;
    forall i | 0 <= i < |prefix|
      ensures LowByte(prefix[i]) < 32 && WidenByte(LowByte(prefix[i])) == LowFiveBits(prefix[i])
    {
      LowCharacter(prefix[i]);
    }
    ZeroByte();
  }

  lemma LowCharacter(c: char)
    ensures LowByte(c) < 32 && LowByte(c) as int == c as int % 32 && WidenByte(LowByte(c)) == LowFiveBits(c)
  {
    NarrowNumber(c as int % 32);
  }

  lemma ZeroByte()
    ensures WidenByte(0) == 0
  {
  }

  /** The number at position `i` of what the checksum protects: the prefix modulo 32, a zero, the payload. */
  function SymbolAt(prefix: string, payload: seq<bv8>, i: nat): int
    requires i < |prefix| + 1 + |payload|
  {
    if i < |prefix| then prefix[i] as int % 32 else if i == |prefix| then 0 else payload[i - |prefix| - 1] as int
  }

  lemma SameSymbol(p: string, s: seq<bv8>, q: string, t: seq<bv8>, i: nat)
    requires |p| == |q| && |s| == |t| && i < |p| + 1 + |s|
    ensures ExpandBytes(p, s)[i] == ExpandBytes(q, t)[i] <==> SymbolAt(p, s, i) == SymbolAt(q, t, i)
  {
    hide LowByte;
    if i < |p| {
      LowCharacter(p[i]);
      LowCharacter(q[i]);
    }
  }

  lemma VerifiesMeansOne(prefix: string, payload: seq<bv8>)
    ensures Verifies(prefix, payload) <==> Fold(1, Expand(prefix, payload)) == 1
  {
    hide Xor, Fold;
    XorEqual(Fold(1, Expand(prefix, payload)), 1);
  }

  /**
   Burst detection at any length, over prefix and payload together: two pairs of prefix and
   payload of the same lengths, whose symbols differ somewhere and agree outside one window of
   eight consecutive positions, never both verify.
   */
  lemma BurstIsDetectedAnywhere(p: string, s: seq<bv8>, q: string, t: seq<bv8>, start: nat, i: nat)
    requires |p| == |q| && |s| == |t| && AreSymbols(s) && AreSymbols(t)
    requires i < |p| + 1 + |s| && SymbolAt(p, s, i) != SymbolAt(q, t, i)
    requires forall k :: 0 <= k < |p| + 1 + |s| && !(start <= k < start + CHECKSUM_LENGTH) ==> SymbolAt(p, s, k) == SymbolAt(q, t, k)
    ensures !(Verifies(p, s) && Verifies(q, t))
  {
    hide Fold, Verifies, Expand, ExpandBytes, SymbolAt;
    if Verifies(p, s) && Verifies(q, t) {
      var a, b := ExpandBytes(p, s), ExpandBytes(q, t);
      ExpandsToBytes(p, s);
      ExpandsToBytes(q, t);
      VerifiesMeansOne(p, s);
      VerifiesMeansOne(q, t);
      DifferenceFoldsToZero(a, b);
      WidenDifference(a, b);
      forall k | 0 <= k < |a|
        ensures Difference(a, b)[k] == 0 <==> SymbolAt(p, s, k) == SymbolAt(q, t, k)
      {
        SameSymbol(p, s, q, t, k);
      }
      BurstFoldsToNonZero(Difference(a, b), start, i);
    }
  }

  /** Prefixes of one length whose characters have the same low five bits cannot be told apart. */
  lemma SameLowBitsVerifyAlike(p: string, q: string, payload: seq<bv8>)
    requires |p| == |q| && forall i :: 0 <= i < |p| ==> p[i] as int % 32 == q[i] as int % 32
    ensures Verifies(p, payload) <==> Verifies(q, payload)
  {
    hide Fold;
    forall i | 0 <= i < |p|
      ensures PrefixSymbols(p)[i] == PrefixSymbols(q)[i]
    {
      assert p[i] as int % 32 == q[i] as int % 32;
    }
    assert PrefixSymbols(p) == PrefixSymbols(q);
  }

  /**
   The prefix is protected too: symbols that verify under one prefix verify under another of its
   length, that differs from it within a window of eight, if and only if all low five bits agree.
   */
  lemma PrefixIsProtected(p: string, q: string, payload: seq<bv8>, start: nat)
    requires |p| == |q| && AreSymbols(payload) && Verifies(p, payload)
    requires forall i :: 0 <= i < |p| && !(start <= i < start + CHECKSUM_LENGTH) ==> p[i] == q[i]
    ensures Verifies(q, payload) <==> forall i :: 0 <= i < |p| ==> p[i] as int % 32 == q[i] as int % 32
  {
    hide Verifies;
    if i :| 0 <= i < |p| && p[i] as int % 32 != q[i] as int % 32 {
      BurstIsDetectedAnywhere(p, payload, q, payload, start, i);
    } else {
      SameLowBitsVerifyAlike(p, q, payload);
    }
  }

  /**
   Burst detection under one prefix: two different symbol strings of the same length that agree
   outside one window of eight consecutive positions never both verify.
   */
  lemma BurstIsDetected(prefix: string, s: seq<bv8>, t: seq<bv8>, start: nat)
    requires |s| == |t| && s != t && AreSymbols(s) && AreSymbols(t)
    requires forall i :: 0 <= i < |s| && !(start <= i < start + CHECKSUM_LENGTH) ==> s[i] == t[i]
    ensures !(Verifies(prefix, s) && Verifies(prefix, t))
  {
    hide Verifies;
    var i :| 0 <= i < |s| && s[i] != t[i];
    var n := |prefix| + 1;
    assert SymbolAt(prefix, s, n + i) != SymbolAt(prefix, t, n + i);
    BurstIsDetectedAnywhere(prefix, s, prefix, t, n + start, n + i);
  }

  lemma BurstFoldsToNonZero(d: seq<bv8>, start: nat, i: nat)
    requires AreSymbols(d) && i < |d| && d[i] != 0
    requires forall k :: 0 <= k < |d| && !(start <= k < start + CHECKSUM_LENGTH) ==> d[k] == 0
    ensures Fold(0, Widen(d)) != 0
  {
    hide Fold;
    var end := if start + CHECKSUM_LENGTH <= |d| then start + CHECKSUM_LENGTH else |d|;
    var window := d[start..end];
    assert window[i - start] == d[i];
    ShortBurstIsSeen(window, i - start);
    assert Widen(d) == Zeros(start) + Widen(window) + Zeros(|d| - end);
    FoldAppend(0, Zeros(start) + Widen(window), Zeros(|d| - end));
    FoldAppend(0, Zeros(start), Widen(window));
    FoldOfZeros(0, start);
    FoldOfZeros(Fold(0, Widen(window)), |d| - end);
  }

  // ---------------------------------------------------------------------------------------
  // One worked example
  // ---------------------------------------------------------------------------------------

  lemma FoldCons(c: bv40, v: bv40, rest: seq<bv40>)
    ensures Fold(c, [v] + rest) == Fold(Step(c, v), rest)
  {
    hide Step;
    FoldAppend(c, [v], rest);
    assert [v][..0] == [];
  }

  /** The rounds of the example, each with its state written out. */
  lemma ExampleRounds()
    ensures Step(0x1, 2) == 0x22 && Step(0x22, 0) == 0x440 && Step(0x440, 1) == 0x8801
    ensures Step(0x8801, 0) == 0x110020 && Step(0x110020, 16) == 0x2200410 && Step(0x2200410, 0) == 0x44008200
    ensures Step(0x44008200, 0) == 0x880104000 && Step(0x880104000, 0) == 0x88f0b48e61
    ensures Step(0x88f0b48e61, 0) == 0x98ab6ea631 && Step(0x98ab6ea631, 0) == 0xea674635d3
    ensures Step(0xea674635d3, 0) == 0x9745cd811d && Step(0x9745cd811d, 0) == 0x8f419e5e32
    ensures Step(0x8f419e5e32, 0) == 0x6e8e34ac51 && Step(0x6e8e34ac51, 0) == 0x1424dd552d
  {
  }

  /** The check symbols of prefix "b" and the symbols 1, 0, 16, 0. */
  lemma ExampleChecksum()
    ensures CheckSymbols("b", [1, 0, 16, 0]) == [2, 16, 18, 13, 26, 21, 9, 12]
  {
    hide Step, Fold, Xor, Symbol;
    var head: seq<bv40> := [2, 0, 1, 0, 16, 0];
    ExampleHead();
    FoldAppend(0x1, head, Zeros(8));
    ExampleTail();
    assert Expand("b", [1, 0, 16, 0]) == head by { ExampleFed(); }
    ExampleSymbols();
  }

  lemma ExampleHead()
    ensures Fold(0x1, [2, 0, 1, 0, 16, 0]) == 0x44008200
  {
    hide Step, Fold;
    ExampleRounds();
    var one: seq<bv40> := [0];
    var two := [16] + one;
    var three := [0] + two;
    var four := [1] + three;
    var five := [0] + four;
    FoldCons(0x1, 2, five);
    FoldCons(0x22, 0, four);
    FoldCons(0x440, 1, three);
    FoldCons(0x8801, 0, two);
    FoldCons(0x110020, 16, one);
    FoldCons(0x2200410, 0, []);
    FoldNothing(0x44008200);
    assert one == [0] + [] && [2] + five == [2, 0, 1, 0, 16, 0];
  }

  lemma ExampleTail()
    ensures Fold(0x44008200, Zeros(8)) == 0x1424dd552d
  {
    hide Step, Fold;
    ExampleRounds();
    FoldOfEight(0x44008200, Zeros(8));
  }

  lemma FoldNothing(c: bv40)
    ensures Fold(c, []) == c
  {
  }

  lemma ExampleFed()
    ensures Expand("b", [1, 0, 16, 0]) == [2, 0, 1, 0, 16, 0]
  {
  }

  lemma ExampleSymbols()
    ensures var x := Xor(0x1424dd552d, 1);
            && Symbol(x, 0) == 2 && Symbol(x, 1) == 16 && Symbol(x, 2) == 18 && Symbol(x, 3) == 13
            && Symbol(x, 4) == 26 && Symbol(x, 5) == 21 && Symbol(x, 6) == 9 && Symbol(x, 7) == 12
  {
  }
}
