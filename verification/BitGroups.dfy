/**
 Regrouping a stream of bits: bytes carrying `fromBits` bits each become bytes carrying
 `toBits` bits each.  The specification is the bit stream itself: `Flatten` writes the groups
 out bit by bit, `Regroup` cuts a bit stream into groups.
 */
module BitGroups {

  // ---------------------------------------------------------------------------------------
  // Single bits and shifts of a byte
  // ---------------------------------------------------------------------------------------

  /** Bit `j` of a byte, bit 0 being the least significant. */
  predicate Bit(x: bv8, j: nat)
    requires j < 8
  {
    x & (if j == 0 then 1 else if j == 1 then 2 else if j == 2 then 4 else if j == 3 then 8
         else if j == 4 then 16 else if j == 5 then 32 else if j == 6 then 64 else 128) != 0
  }

  /** A byte shifted left; the bits shifted out are lost. */
  function ShiftLeft(x: bv8, k: nat): bv8
    requires k <= 8
  {
    if k == 0 then x else if k == 1 then x << 1 else if k == 2 then x << 2 else if k == 3 then x << 3
    else if k == 4 then x << 4 else if k == 5 then x << 5 else if k == 6 then x << 6
    else if k == 7 then x << 7 else 0
  }

  /** A byte shifted right. */
  function ShiftRight(x: bv8, k: nat): bv8
    requires k <= 8
  {
    if k == 0 then x else if k == 1 then x >> 1 else if k == 2 then x >> 2 else if k == 3 then x >> 3
    else if k == 4 then x >> 4 else if k == 5 then x >> 5 else if k == 6 then x >> 6
    else if k == 7 then x >> 7 else 0
  }

  lemma BitOfShiftLeft(x: bv8, k: nat, j: nat)
    requires k <= 8 && j < 8
    ensures Bit(ShiftLeft(x, k), j) <==> k <= j && Bit(x, j - k)
  {
  }

  lemma BitOfShiftRight(x: bv8, k: nat, j: nat)
    requires k <= 8 && j < 8
    ensures Bit(ShiftRight(x, k), j) <==> j + k < 8 && Bit(x, j + k)
  {
  }

  lemma BitOfOr(x: bv8, y: bv8, j: nat)
    requires j < 8
    ensures Bit(x | y, j) <==> Bit(x, j) || Bit(y, j)
  {
  }

  lemma BitsDetermineByte(x: bv8, y: bv8)
    requires forall j :: 0 <= j < 8 ==> Bit(x, j) == Bit(y, j)
    ensures x == y
  {
    assert Bit(x, 0) == Bit(y, 0) && Bit(x, 1) == Bit(y, 1) && Bit(x, 2) == Bit(y, 2) && Bit(x, 3) == Bit(y, 3);
    assert Bit(x, 4) == Bit(y, 4) && Bit(x, 5) == Bit(y, 5) && Bit(x, 6) == Bit(y, 6) && Bit(x, 7) == Bit(y, 7);
  }

  // ---------------------------------------------------------------------------------------
  // Groups of bits
  // ---------------------------------------------------------------------------------------

  /** Only the low `w` bits of `x` are used. */
  ghost predicate Fits(x: bv8, w: nat) {
    forall j :: w <= j < 8 ==> !Bit(x, j)
  }

  ghost predicate AllFit(data: seq<bv8>, w: nat) {
    forall i :: 0 <= i < |data| ==> Fits(data[i], w)
  }

  /** The low `w` bits of a byte, most significant first. */
  function LowBits(x: bv8, w: nat): (bits: seq<bool>)
    requires w <= 8
    ensures |bits| == w
  {
    seq(w, i requires 0 <= i < w => Bit(x, w - 1 - i))
  }

  /** The high `w` bits of a byte, most significant first. */
  function HighBits(x: bv8, w: nat): (bits: seq<bool>)
    requires w <= 8
    ensures |bits| == w
  {
    seq(w, i requires 0 <= i < w => Bit(x, 7 - i))
  }

  /** All groups written out bit by bit. */
  function Flatten(data: seq<bv8>, w: nat): seq<bool>
    requires w <= 8
  {
    if |data| == 0 then [] else LowBits(data[0], w) + Flatten(data[1..], w)
  }

  /** The byte whose low bits are `bits`, most significant first. */
  function FromBits(bits: seq<bool>): bv8
    requires |bits| <= 8
  {
    if |bits| == 0 then 0
    else (FromBits(bits[..|bits| - 1]) << 1) | (if bits[|bits| - 1] then 1 else 0)
  }

  /** A bit stream cut into groups of `w`; an incomplete last group is dropped. */
  function Regroup(bits: seq<bool>, w: nat): seq<bv8>
    requires 1 <= w <= 8
  {
    if |bits| < w then [] else [FromBits(bits[..w])] + Regroup(bits[w..], w)
  }

  function ZeroBits(n: nat): (z: seq<bool>)
    ensures |z| == n
  {
    seq(n, _ => false)
  }

  /** How many zero bits complete a stream of `n` bits to whole groups of `w`. */
  function Padding(n: nat, w: nat): (p: nat)
    requires 1 <= w
    ensures p < w
  {
    (w - n % w) % w
  }

  /** The specification of `ConvertBits`. */
  function Converted(data: seq<bv8>, fromBits: nat, toBits: nat, pad: bool): seq<bv8>
    requires 1 <= fromBits <= 8 && 1 <= toBits <= 8
  {
    var bits := Flatten(data, fromBits);
    if pad then Regroup(bits + ZeroBits(Padding(|bits|, toBits)), toBits) else Regroup(bits, toBits)
  }

  lemma {:induction false} FromBitsBits(bits: seq<bool>, j: nat)
    requires |bits| <= 8 && j < 8
    ensures Bit(FromBits(bits), j) <==> j < |bits| && bits[|bits| - 1 - j]
  {
    if |bits| > 0 {
      var init := FromBits(bits[..|bits| - 1]);
      BitOfShiftLeft(init, 1, j);
      BitOfOr(init << 1, if bits[|bits| - 1] then 1 else 0, j);
      if j > 0 {
        FromBitsBits(bits[..|bits| - 1], j - 1);
      }
    }
  }

  lemma LowBitsOfFromBits(bits: seq<bool>)
    requires |bits| <= 8
    ensures LowBits(FromBits(bits), |bits|) == bits
    ensures Fits(FromBits(bits), |bits|)
  {
    forall j: nat | j < 8
      ensures Bit(FromBits(bits), j) <==> j < |bits| && bits[|bits| - 1 - j]
    {
      FromBitsBits(bits, j);
    }
  }

  lemma FromBitsOfLowBits(x: bv8, w: nat)
    requires w <= 8 && Fits(x, w)
    ensures FromBits(LowBits(x, w)) == x
  {
    forall j: nat | j < 8
      ensures Bit(FromBits(LowBits(x, w)), j) == Bit(x, j)
    {
      FromBitsBits(LowBits(x, w), j);
    }
    BitsDetermineByte(FromBits(LowBits(x, w)), x);
  }

  lemma {:induction false} FlattenAppend(a: seq<bv8>, b: seq<bv8>, w: nat)
    requires w <= 8
    ensures Flatten(a + b, w) == Flatten(a, w) + Flatten(b, w)
    decreases |a|
  {
    if |a| == 0 {
      assert a + b == b;
    } else {
      assert (a + b)[1..] == a[1..] + b;
      FlattenAppend(a[1..], b, w);
    }
  }

  lemma FlattenOne(x: bv8, w: nat)
    requires w <= 8
    ensures Flatten([x], w) == LowBits(x, w)
  {
    assert Flatten([x][1..], w) == [];
  }

  lemma {:induction false} FlattenLength(data: seq<bv8>, w: nat)
    requires w <= 8
    ensures |Flatten(data, w)| == |data| * w
    decreases |data|
  {
    if |data| > 0 {
      FlattenLength(data[1..], w);
      assert |data| * w == w + (|data| - 1) * w;
    }
  }

  /** Cutting a flattened stream gives back its groups, whatever incomplete group follows. */
  lemma {:induction false} RegroupOfFlatten(data: seq<bv8>, rest: seq<bool>, w: nat)
    requires 1 <= w <= 8 && AllFit(data, w) && |rest| < w
    ensures Regroup(Flatten(data, w) + rest, w) == data
    decreases |data|
  {
    if |data| == 0 {
      assert Flatten(data, w) + rest == rest;
    } else {
      var bits := Flatten(data, w) + rest;
      assert bits[..w] == LowBits(data[0], w);
      assert bits[w..] == Flatten(data[1..], w) + rest;
      FromBitsOfLowBits(data[0], w);
      RegroupOfFlatten(data[1..], rest, w);
    }
  }

  /** Flattening the groups cut from a stream gives back the stream without its incomplete group. */
  lemma {:induction false} FlattenOfRegroup(bits: seq<bool>, w: nat)
    requires 1 <= w <= 8
    ensures AllFit(Regroup(bits, w), w)
    ensures Flatten(Regroup(bits, w), w) == bits[..|bits| - |bits| % w]
    decreases |bits|
  {
    if |bits| >= w {
      var rest := bits[w..];
      FlattenOfRegroup(rest, w);
      LowBitsOfFromBits(bits[..w]);
      var groups := Regroup(bits, w);
      assert groups[1..] == Regroup(rest, w);
      ModuloMinus(|bits|, w);
      assert bits[..w] + rest[..|rest| - |rest| % w] == bits[..|bits| - |bits| % w];
    }
  }

  lemma ModuloMinus(n: nat, w: nat)
    requires 1 <= w <= 8 && w <= n
    ensures (n - w) % w == n % w
  {
    if w == 1 { } else if w == 2 { } else if w == 3 { } else if w == 4 { }
    else if w == 5 { } else if w == 6 { } else if w == 7 { } else { }
  }

  // ---------------------------------------------------------------------------------------
  // The regrouping loop
  // ---------------------------------------------------------------------------------------

  lemma ExtendedBit(next: bv8, b: bv8, e: nat, j: nat)
    requires 1 <= e <= 8 && j < 8
    ensures Bit(ShiftLeft(next, e) | ShiftRight(b, 8 - e), j) == if j < e then Bit(b, j + 8 - e) else Bit(next, j - e)
  {
    hide Bit, ShiftLeft, ShiftRight;
    BitOfOr(ShiftLeft(next, e), ShiftRight(b, 8 - e), j);
    BitOfShiftLeft(next, e, j);
    BitOfShiftRight(b, 8 - e, j);
  }

  /** Moving the top `e` bits of `b` below the `filled` bits of `next` appends them to the stream. */
  lemma ExtractAppends(next: bv8, b: bv8, filled: nat, e: nat)
    requires 1 <= e && filled + e <= 8 && Fits(next, filled)
    ensures var extended := ShiftLeft(next, e) | ShiftRight(b, 8 - e);
            && LowBits(extended, filled + e) == LowBits(next, filled) + HighBits(b, e)
            && Fits(extended, filled + e)
  {
    hide Bit, ShiftLeft, ShiftRight;
    var extended := ShiftLeft(next, e) | ShiftRight(b, 8 - e);
    forall j: nat | j < 8
      ensures Bit(extended, j) == if j < e then Bit(b, j + 8 - e) else Bit(next, j - e)
    {
      ExtendedBit(next, b, e, j);
    }
  }

  /** Shifting the top `e` bits out of `b` takes them off the front of its stream. */
  lemma ShiftDrops(b: bv8, e: nat, remaining: nat)
    requires 1 <= e <= remaining <= 8
    ensures HighBits(b, remaining) == HighBits(b, e) + HighBits(ShiftLeft(b, e), remaining - e)
  {
    hide Bit, ShiftLeft;
    forall i: nat | i < remaining
      ensures HighBits(b, remaining)[i] == (HighBits(b, e) + HighBits(ShiftLeft(b, e), remaining - e))[i]
    {
      if i >= e {
        BitOfShiftLeft(b, e, 7 - (i - e));
      }
    }
  }

  lemma DiscardUnused(x: bv8, w: nat)
    requires 1 <= w <= 8
    ensures HighBits(ShiftLeft(x, 8 - w), w) == LowBits(x, w)
  {
    hide Bit, ShiftLeft;
    forall i: nat | i < w
      ensures HighBits(ShiftLeft(x, 8 - w), w)[i] == LowBits(x, w)[i]
    {
      BitOfShiftLeft(x, 8 - w, 7 - i);
    }
  }

  lemma PadCompletes(next: bv8, filled: nat, w: nat)
    requires filled <= w <= 8 && Fits(next, filled)
    ensures LowBits(ShiftLeft(next, w - filled), w) == LowBits(next, filled) + ZeroBits(w - filled)
    ensures Fits(ShiftLeft(next, w - filled), w)
  {
    hide Bit, ShiftLeft;
    var padded := ShiftLeft(next, w - filled);
    forall j: nat | j < 8
      ensures Bit(padded, j) == (w - filled <= j && Bit(next, j - (w - filled)))
    {
      BitOfShiftLeft(next, w - filled, j);
    }
  }

  /** One pass of the inner loop, on the stream seen so far. */
  lemma PassAppends(done: seq<bool>, next: bv8, b: bv8, filled: nat, e: nat, remaining: nat)
    requires 1 <= e <= remaining <= 8 && filled + e <= 8 && Fits(next, filled)
    ensures var extended := ShiftLeft(next, e) | ShiftRight(b, 8 - e);
            && done + LowBits(next, filled) + HighBits(b, remaining)
               == done + LowBits(extended, filled + e) + HighBits(ShiftLeft(b, e), remaining - e)
            && Fits(extended, filled + e)
  {
    hide Bit, ShiftLeft, ShiftRight, LowBits, HighBits;
    ExtractAppends(next, b, filled, e);
    ShiftDrops(b, e, remaining);
  }

  lemma ZeroFits(w: nat)
    ensures Fits(0, w)
  {
  }

  lemma EmptyStream(w: nat)
    requires w <= 8
    ensures Flatten([], w) == []
  {
  }

  lemma {:induction false} ModuloPlus(n: nat, r: nat, w: nat)
    requires r < w <= 8 && n % w == 0
    ensures (n + r) % w == r
    decreases n
  {
    if n > 0 {
      ModuloMinus(n, w);
      ModuloPlus(n - w, r, w);
      ModuloMinus(n + r, w);
    }
  }

  lemma {:induction false} FlattenIsWhole(data: seq<bv8>, w: nat)
    requires 1 <= w <= 8
    ensures |Flatten(data, w)| % w == 0
    decreases |data|
  {
    if |data| > 0 {
      FlattenIsWhole(data[1..], w);
      ModuloMinus(|Flatten(data, w)|, w);
    }
  }

  /** Groups followed by an incomplete one are what cutting their stream gives. */
  lemma GroupsAreComplete(groups: seq<bv8>, rest: seq<bool>, w: nat)
    requires 1 <= w <= 8 && AllFit(groups, w) && |rest| < w
    ensures Regroup(Flatten(groups, w) + rest, w) == groups
    ensures Padding(|Flatten(groups, w) + rest|, w) == if |rest| == 0 then 0 else w - |rest|
  {
    hide Flatten, Regroup, Padding, Fits;
    RegroupOfFlatten(groups, rest, w);
    FlattenIsWhole(groups, w);
    PaddingIs(|Flatten(groups, w)|, |rest|, w);
  }

  lemma PaddingIs(n: nat, r: nat, w: nat)
    requires r < w <= 8 && n % w == 0
    ensures Padding(n + r, w) == if r == 0 then 0 else w - r
  {
    ModuloPlus(n, r, w);
  }

  lemma FlattenSnoc(data: seq<bv8>, x: bv8, w: nat)
    requires w <= 8
    ensures Flatten(data + [x], w) == Flatten(data, w) + LowBits(x, w)
  {
    FlattenAppend(data, [x], w);
    FlattenOne(x, w);
  }

  /** The inner loop: the `fromBits` bits of one input byte join the stream. */
  method AbsorbByte(x: bv8, fromBits: nat, toBits: nat, groups: seq<bv8>, next: bv8, filled: nat)
    returns (regrouped: seq<bv8>, nextByte: bv8, filledBits: nat)
    requires 1 <= fromBits <= 8 && 1 <= toBits <= 8 && filled < toBits
    requires Fits(next, filled) && AllFit(groups, toBits)
    ensures filledBits < toBits && Fits(nextByte, filledBits) && AllFit(regrouped, toBits)
    ensures Flatten(regrouped, toBits) + LowBits(nextByte, filledBits)
            == Flatten(groups, toBits) + LowBits(next, filled) + LowBits(x, fromBits)
  {
    hide Bit, ShiftLeft, ShiftRight, LowBits, HighBits, Flatten, Fits;
    regrouped, nextByte, filledBits := groups, next, filled;
    var b := ShiftLeft(x, 8 - fromBits);
    DiscardUnused(x, fromBits);
    ghost var stream := Flatten(groups, toBits) + LowBits(next, filled) + LowBits(x, fromBits);
    var remainingFromBits := fromBits;
    while remainingFromBits > 0
      invariant 0 <= filledBits < toBits && 0 <= remainingFromBits <= fromBits
      invariant Fits(nextByte, filledBits) && AllFit(regrouped, toBits)
      invariant Flatten(regrouped, toBits) + LowBits(nextByte, filledBits) + HighBits(b, remainingFromBits) == stream
    {
      var remainingToBits := toBits - filledBits;
      var toExtract := remainingFromBits;
      if remainingToBits < toExtract {
        toExtract := remainingToBits;
      }
      PassAppends(Flatten(regrouped, toBits), nextByte, b, filledBits, toExtract, remainingFromBits);
      nextByte := ShiftLeft(nextByte, toExtract) | ShiftRight(b, 8 - toExtract);
      b := ShiftLeft(b, toExtract);
      remainingFromBits := remainingFromBits - toExtract;
      filledBits := filledBits + toExtract;
      if filledBits == toBits {
        FlattenSnoc(regrouped, nextByte, toBits);
        regrouped := regrouped + [nextByte];
        filledBits := 0;
        nextByte := 0;
        ZeroFits(0);
      }
    }
  }

  method ConvertBits(data: seq<bv8>, fromBits: nat, toBits: nat, pad: bool) returns (regrouped: seq<bv8>)
    requires 1 <= fromBits <= 8 && 1 <= toBits <= 8
    ensures regrouped == Converted(data, fromBits, toBits, pad)
    ensures AllFit(regrouped, toBits)
  {
    hide Bit, ShiftLeft, LowBits, Flatten, Fits, Regroup, Padding;
    regrouped := [];
    var nextByte: bv8 := 0;
    var filledBits := 0;
    ZeroFits(0);
    EmptyStream(fromBits);
    EmptyStream(toBits);
    for i := 0 to |data|
      invariant 0 <= filledBits < toBits
      invariant Fits(nextByte, filledBits) && AllFit(regrouped, toBits)
      invariant Flatten(regrouped, toBits) + LowBits(nextByte, filledBits) == Flatten(data[..i], fromBits)
    {
      assert data[..i + 1] == data[..i] + [data[i]];
      FlattenSnoc(data[..i], data[i], fromBits);
      regrouped, nextByte, filledBits := AbsorbByte(data[i], fromBits, toBits, regrouped, nextByte, filledBits);
    }
    assert data[..|data|] == data;
    ghost var bits := Flatten(data, fromBits);
    GroupsAreComplete(regrouped, LowBits(nextByte, filledBits), toBits);
    if pad && filledBits > 0 {
      PadCompletes(nextByte, filledBits, toBits);
      nextByte := ShiftLeft(nextByte, toBits - filledBits);
      FlattenSnoc(regrouped, nextByte, toBits);
      regrouped := regrouped + [nextByte];
      assert Flatten(regrouped, toBits) == bits + ZeroBits(Padding(|bits|, toBits));
      GroupsAreComplete(regrouped, [], toBits);
      assert Flatten(regrouped, toBits) + [] == Flatten(regrouped, toBits);
    } else if pad {
      assert bits + ZeroBits(Padding(|bits|, toBits)) == bits;
    }
  }

  // ---------------------------------------------------------------------------------------
  // Bytes to symbols and back
  // ---------------------------------------------------------------------------------------

  function ToSymbols(data: seq<bv8>): seq<bv8> {
    Converted(data, 8, 5, true)
  }

  function ToBytes(symbols: seq<bv8>): seq<bv8> {
    Converted(symbols, 5, 8, false)
  }

  /** The bits of the symbols that do not fill a byte. */
  function DroppedBits(symbols: seq<bv8>): seq<bool> {
    var bits := Flatten(symbols, 5);
    bits[|bits| - |bits| % 8..]
  }

  lemma AnyByteFits(data: seq<bv8>)
    ensures AllFit(data, 8)
  {
  }

  lemma FitsFive(x: bv8)
    ensures Fits(x, 5) <==> x < 32
  {
    assert Fits(x, 5) <==> !Bit(x, 5) && !Bit(x, 6) && !Bit(x, 7);
  }

  lemma PaddedIsWhole(n: nat)
    ensures (n + Padding(n, 5)) % 5 == 0
  {
  }

  /** The stream of the symbols is that of the bytes followed by fewer than five zeros. */
  lemma SymbolStream(data: seq<bv8>)
    ensures AllFit(ToSymbols(data), 5)
    ensures var bits := Flatten(data, 8);
            Flatten(ToSymbols(data), 5) == bits + ZeroBits(Padding(|bits|, 5))
  {
    var bits := Flatten(data, 8);
    var padded := bits + ZeroBits(Padding(|bits|, 5));
    FlattenOfRegroup(padded, 5);
    PaddedIsWhole(|bits|);
    assert padded[..|padded|] == padded;
  }

  /** Five-bit symbols made from bytes turn back into exactly those bytes. */
  lemma BytesSurvive(data: seq<bv8>)
    ensures ToBytes(ToSymbols(data)) == data
  {
    SymbolStream(data);
    AnyByteFits(data);
    RegroupOfFlatten(data, ZeroBits(Padding(|Flatten(data, 8)|, 5)), 8);
  }

  /** The stream of the bytes is that of the symbols without the dropped bits. */
  lemma ByteStream(symbols: seq<bv8>)
    ensures Flatten(ToBytes(symbols), 8) + DroppedBits(symbols) == Flatten(symbols, 5)
    ensures |DroppedBits(symbols)| == 5 * |symbols| % 8
  {
    hide Flatten, Regroup, Fits;
    FlattenOfRegroup(Flatten(symbols, 5), 8);
    FlattenLength(symbols, 5);
  }

  lemma PaddingOfDropped(m: nat)
    ensures var n := 5 * m; Padding(n - n % 8, 5) == n % 8 % 5
  {
  }

  /**
   Symbols survive the way through bytes exactly when fewer than five bits are dropped and all
   of them are zero.
   */
  lemma SymbolsSurviveExactlyWhenCanonical(symbols: seq<bv8>)
    requires AllFit(symbols, 5)
    ensures ToSymbols(ToBytes(symbols)) == symbols <==>
            5 * |symbols| % 8 < 5 && forall i :: 0 <= i < |DroppedBits(symbols)| ==> !DroppedBits(symbols)[i]
  {
    hide ToBytes, ToSymbols, DroppedBits, Flatten, Regroup, Padding, Fits;
    var bytes, stream, dropped := ToBytes(symbols), Flatten(symbols, 5), DroppedBits(symbols);
    ByteStream(symbols);
    SymbolStream(bytes);
    var kept := Flatten(bytes, 8);
    FlattenLength(symbols, 5);
    PaddingOfDropped(|symbols|);
    var p := Padding(|kept|, 5);
    assert p == |dropped| % 5;
    if ToSymbols(bytes) == symbols {
      assert kept + ZeroBits(p) == kept + dropped;
      SuffixesAgree(kept, ZeroBits(p), dropped);
    }
    if |dropped| < 5 && forall i :: 0 <= i < |dropped| ==> !dropped[i] {
      assert dropped == ZeroBits(p);
      assert Flatten(ToSymbols(bytes), 5) == stream && stream + [] == stream;
      RegroupOfFlatten(symbols, [], 5);
      RegroupOfFlatten(ToSymbols(bytes), [], 5);
    }
  }

  lemma SuffixesAgree(a: seq<bool>, b: seq<bool>, c: seq<bool>)
    requires a + b == a + c
    ensures b == c
  {
    assert b == (a + b)[|a|..];
    assert c == (a + c)[|a|..];
  }
}
