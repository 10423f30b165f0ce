/**
 The algebra of UTXO diffs.

 A collection maps outpoints to the DAA scores of their entries: entries of one outpoint that
 carry the same score are the same entry, as the algebra assumes.  A diff adds and removes
 entries and may do both for one outpoint, with different scores.
 */
module UtxoDiff {
  import opened Basics

  type Outpoint = nat

  type Collection = map<Outpoint, nat>

  datatype Diff = Diff(toAdd: Collection, toRemove: Collection)

  /** `containsWithDAAScore`. */
  predicate Has(c: Collection, o: Outpoint, score: nat) {
    o in c && c[o] == score
  }

  /** The entries of the first collection that the second holds with the same score. */
  function Matched(c: Collection, d: Collection): Collection {
    map o | o in c && Has(d, o, c[o]) :: c[o]
  }

  /** The entries of the first collection that the second does not hold with the same score. */
  function Unmatched(c: Collection, d: Collection): Collection {
    map o | o in c && !Has(d, o, c[o]) :: c[o]
  }

  // ---------------------------------------------------------------------------------------
  // Combining two diffs
  // ---------------------------------------------------------------------------------------

  predicate RemovedTwice(ours: Diff, other: Diff, o: Outpoint) {
    o in other.toRemove && o in ours.toRemove && !Has(ours.toAdd, o, other.toRemove[o])
  }

  predicate AddedTwice(ours: Diff, other: Diff, o: Outpoint) {
    o in other.toAdd && o in ours.toAdd && !Has(other.toRemove, o, ours.toAdd[o])
  }

  /** The specification of `WithDiffInPlace`: first this diff, then the other. */
  function Combined(ours: Diff, other: Diff): Option<Diff> {
    if (exists o :: o in other.toRemove && RemovedTwice(ours, other, o)) || (exists o :: o in other.toAdd && AddedTwice(ours, other, o)) then None
    else
      var toRemove := ours.toRemove + Unmatched(other.toRemove, ours.toAdd);
      var toAdd := ours.toAdd - Matched(other.toRemove, ours.toAdd).Keys;
      Some(Diff(toAdd + Unmatched(other.toAdd, toRemove), toRemove - Matched(other.toAdd, toRemove).Keys))
  }

  /** Removed by this diff and added by the other, in a way no common base allows. */
  predicate Clashes(removes: Diff, adds: Diff, o: Outpoint) {
    && o in removes.toRemove && o in adds.toAdd
    && !(adds.toAdd[o] != removes.toRemove[o] && (Has(removes.toAdd, o, adds.toAdd[o]) || Has(adds.toRemove, o, removes.toRemove[o])))
  }

  predicate RemovesDiffer(ours: Diff, other: Diff, o: Outpoint) {
    o in ours.toRemove && o in other.toRemove && ours.toRemove[o] != other.toRemove[o]
  }

  predicate Intersects(c: Collection, d: Collection) {
    exists o :: o in c && o in d
  }

  /** The specification of `DiffFrom`: what leads from this diff to the other. */
  function Difference(ours: Diff, other: Diff): Option<Diff> {
    if (exists o :: o in ours.toRemove && Clashes(ours, other, o)) || (exists o :: o in ours.toAdd && Clashes(other, ours, o)) then None
    else if exists o :: o in ours.toRemove && RemovesDiffer(ours, other, o) then None
    else
      var inBothToAdd := Matched(ours.toAdd, other.toAdd);
      if Intersects(inBothToAdd, ours.toRemove) != Intersects(inBothToAdd, other.toRemove) then None
      else Some(Diff(Unmatched(ours.toRemove, other.toRemove) + Unmatched(other.toAdd, ours.toAdd),
                     Unmatched(ours.toAdd, other.toAdd) + Unmatched(other.toRemove, ours.toRemove)))
  }

  // ---------------------------------------------------------------------------------------
  // The loops over collections
  // ---------------------------------------------------------------------------------------

  method CheckIntersection(c: Collection, d: Collection) returns (found: bool)
    ensures found <==> Intersects(c, d)
  {
    var remaining := c.Keys;
    while remaining != {}
      invariant remaining <= c.Keys && forall o :: o in c && o !in remaining ==> o !in d
      decreases remaining
    {
      var outpoint :| outpoint in remaining;
      if outpoint in d {
        return true;
      }
      remaining := remaining - {outpoint};
    }
    found := false;
  }

  /** Any outpoint of both collections that satisfies the rule. */
  method CheckIntersectionWithRule(c: Collection, d: Collection, rule: (Outpoint, nat, nat) -> bool) returns (offending: Option<Outpoint>)
    ensures offending.Some? ==> var o := offending.value; o in c && o in d && rule(o, c[o], d[o])
    ensures offending.None? ==> forall o :: o in c && o in d ==> !rule(o, c[o], d[o])
  {
    var remaining := c.Keys;
    while remaining != {}
      invariant remaining <= c.Keys && forall o :: o in c && o !in remaining && o in d ==> !rule(o, c[o], d[o])
      decreases remaining
    {
      var outpoint :| outpoint in remaining;
      if outpoint in d && rule(outpoint, c[outpoint], d[outpoint]) {
        return Some(outpoint);
      }
      remaining := remaining - {outpoint};
    }
    offending := None;
  }

  lemma NothingMatched(c: Collection, d: Collection)
    ensures Matched(c - c.Keys, d) == map[] && Unmatched(c - c.Keys, d) == map[]
  {
  }

  /** One more entry is visited. */
  lemma MatchedStep(c: Collection, d: Collection, remaining: set<Outpoint>, o: Outpoint)
    requires o in remaining && o in c
    ensures Matched(c - (remaining - {o}), d) == if Has(d, o, c[o]) then Matched(c - remaining, d)[o := c[o]] else Matched(c - remaining, d)
    ensures Unmatched(c - (remaining - {o}), d) == if Has(d, o, c[o]) then Unmatched(c - remaining, d) else Unmatched(c - remaining, d)[o := c[o]]
  {
  }

  lemma PutAdds(c: Collection, d: Collection, o: Outpoint, score: nat)
    ensures (c + d)[o := score] == c + d[o := score]
  {
  }

  /** Matched entries go into the result, the others into the remainder. */
  method IntersectionWithRemainder(c: Collection, d: Collection, result: Collection, remainder: Collection)
    returns (result': Collection, remainder': Collection)
    ensures result' == result + Matched(c, d) && remainder' == remainder + Unmatched(c, d)
  {
    hide Matched, Unmatched;
    result', remainder' := result, remainder;
    var remaining := c.Keys;
    NothingMatched(c, d);
    assert result + map[] == result && remainder + map[] == remainder;
    while remaining != {}
      invariant remaining <= c.Keys
      invariant result' == result + Matched(c - remaining, d) && remainder' == remainder + Unmatched(c - remaining, d)
      decreases remaining
    {
      var outpoint :| outpoint in remaining;
      MatchedStep(c, d, remaining, outpoint);
      PutAdds(result, Matched(c - remaining, d), outpoint, c[outpoint]);
      PutAdds(remainder, Unmatched(c - remaining, d), outpoint, c[outpoint]);
      if Has(d, outpoint, c[outpoint]) {
        result' := result'[outpoint := c[outpoint]];
      } else {
        remainder' := remainder'[outpoint := c[outpoint]];
      }
      remaining := remaining - {outpoint};
    }
    assert c - remaining == c;
  }

  /** Unmatched entries go into the result. */
  method Subtraction(c: Collection, d: Collection, result: Collection) returns (result': Collection)
    ensures result' == result + Unmatched(c, d)
  {
    hide Matched, Unmatched;
    result' := result;
    var remaining := c.Keys;
    NothingMatched(c, d);
    assert result + map[] == result;
    while remaining != {}
      invariant remaining <= c.Keys && result' == result + Unmatched(c - remaining, d)
      decreases remaining
    {
      var outpoint :| outpoint in remaining;
      MatchedStep(c, d, remaining, outpoint);
      PutAdds(result, Unmatched(c - remaining, d), outpoint, c[outpoint]);
      if !Has(d, outpoint, c[outpoint]) {
        result' := result'[outpoint := c[outpoint]];
      }
      remaining := remaining - {outpoint};
    }
    assert c - remaining == c;
  }

  class MutableUTXODiff {
    var toAdd: Collection
    var toRemove: Collection

    function Value(): Diff
      reads this
    {
      Diff(toAdd, toRemove)
    }

    constructor (d: Diff)
      ensures Value() == d
    {
      toAdd, toRemove := d.toAdd, d.toRemove;
    }

    /** Whether no outpoint is removed twice or added twice. */
    method CanCombine(other: Diff) returns (ok: bool)
      ensures ok <==> Combined(Value(), other).Some?
    {
      hide Matched, Unmatched;
      var add := toAdd;
      var offending := CheckIntersectionWithRule(other.toRemove, toRemove,
        (o: Outpoint, entryToRemove: nat, existing: nat) => !Has(add, o, entryToRemove));
      if offending.Some? {
        assert RemovedTwice(Value(), other, offending.value);
        return false;
      }
      offending := CheckIntersectionWithRule(other.toAdd, toAdd,
        (o: Outpoint, entryToAdd: nat, existing: nat) => !Has(other.toRemove, o, existing));
      if offending.Some? {
        assert AddedTwice(Value(), other, offending.value);
        return false;
      }
      ok := true;
    }

    /** The other diff is applied on top of this one, or nothing changes. */
    method WithDiffInPlace(other: Diff) returns (ok: bool)
      modifies this
      ensures ok <==> Combined(old(Value()), other).Some?
      ensures Value() == if ok then Combined(old(Value()), other).value else old(Value())
    {
      hide Matched, Unmatched, RemovedTwice, AddedTwice;
      ok := CanCombine(other);
      if !ok {
        return;
      }
      var intersection: Collection;
      intersection, toRemove := IntersectionWithRemainder(other.toRemove, toAdd, map[], toRemove);
      NothingAdds(Matched(other.toRemove, toAdd));
      toAdd := toAdd - intersection.Keys;
      intersection, toAdd := IntersectionWithRemainder(other.toAdd, toRemove, map[], toAdd);
      NothingAdds(Matched(other.toAdd, toRemove));
      toRemove := toRemove - intersection.Keys;
    }

    /** Whether no outpoint shows that the two diffs have different bases. */
    method SameBase(other: Diff) returns (ok: bool)
      ensures ok <==> forall o :: !Clashes(Value(), other, o) && !Clashes(other, Value(), o) && !RemovesDiffer(Value(), other, o)
    {
      var add, remove := toAdd, toRemove;
      var offending := CheckIntersectionWithRule(remove, other.toAdd,
        (o: Outpoint, entry: nat, diffEntry: nat) => !(diffEntry != entry && (Has(add, o, diffEntry) || Has(other.toRemove, o, entry))));
      if offending.Some? {
        assert Clashes(Value(), other, offending.value);
        return false;
      }
      offending := CheckIntersectionWithRule(add, other.toRemove,
        (o: Outpoint, entry: nat, diffEntry: nat) => !(diffEntry != entry && (Has(remove, o, diffEntry) || Has(other.toAdd, o, entry))));
      if offending.Some? {
        assert Clashes(other, Value(), offending.value);
        return false;
      }
      offending := CheckIntersectionWithRule(remove, other.toRemove, (o: Outpoint, entry: nat, diffEntry: nat) => entry != diffEntry);
      if offending.Some? {
        assert RemovesDiffer(Value(), other, offending.value);
        return false;
      }
      ok := true;
    }

    method DiffFrom(other: Diff) returns (result: Option<Diff>)
      ensures result == Difference(Value(), other)
    {
      hide Matched, Unmatched, Intersects, Clashes, RemovesDiffer;
      var ok := SameBase(other);
      ClashesMentions(Value(), other);
      ClashesMentions(other, Value());
      if !ok {
        return None;
      }
      var inBothToAdd, resultRemove := IntersectionWithRemainder(toAdd, other.toAdd, map[], map[]);
      NothingAdds(Matched(toAdd, other.toAdd));
      NothingAdds(Unmatched(toAdd, other.toAdd));
      var here := CheckIntersection(inBothToAdd, toRemove);
      var there := CheckIntersection(inBothToAdd, other.toRemove);
      if here != there {
        return None;
      }
      resultRemove := Subtraction(other.toRemove, toRemove, resultRemove);
      var resultAdd := Subtraction(toRemove, other.toRemove, map[]);
      NothingAdds(Unmatched(toRemove, other.toRemove));
      resultAdd := Subtraction(other.toAdd, toAdd, resultAdd);
      result := Some(Diff(resultAdd, resultRemove));
    }
  }

  lemma NothingAdds(c: Collection)
    ensures map[] + c == c
  {
  }

  lemma ClashesMentions(removes: Diff, adds: Diff)
    ensures forall o :: Clashes(removes, adds, o) ==> o in removes.toRemove && o in adds.toAdd
    ensures forall o :: RemovesDiffer(removes, adds, o) ==> o in removes.toRemove
  {
  }

  // ---------------------------------------------------------------------------------------
  // One outpoint at a time
  // ---------------------------------------------------------------------------------------

  function Get(c: Collection, o: Outpoint): Option<nat> {
    if o in c then Some(c[o]) else None
  }

  /** What a diff says about one outpoint. */
  datatype Point = Point(add: Option<nat>, remove: Option<nat>)

  function At(d: Diff, o: Outpoint): Point {
    Point(Get(d.toAdd, o), Get(d.toRemove, o))
  }

  function Kept(x: Option<nat>, y: Option<nat>): Option<nat> {
    if x == y then None else x
  }

  function Over(x: Option<nat>, y: Option<nat>): Option<nat> {
    if y.Some? then y else x
  }

  /** `Combined` at one outpoint. */
  function PointWith(p: Point, q: Point): Option<Point> {
    if (q.remove.Some? && p.remove.Some? && p.add != q.remove) || (q.add.Some? && p.add.Some? && q.remove != p.add) then None
    else
      var remove := Over(p.remove, Kept(q.remove, p.add));
      var add := if q.remove.Some? && p.add == q.remove then None else p.add;
      Some(Point(Over(add, Kept(q.add, remove)), if q.add.Some? && remove == q.add then None else remove))
  }

  /** `DiffFrom` at one outpoint, leaving aside the test that spans all outpoints. */
  function PointFrom(p: Point, q: Point): Option<Point> {
    if PointClashes(p, q) || PointClashes(q, p) || (p.remove.Some? && q.remove.Some? && p.remove != q.remove) then None
    else Some(Point(Over(Kept(p.remove, q.remove), Kept(q.add, p.add)), Over(Kept(p.add, q.add), Kept(q.remove, p.remove))))
  }

  predicate PointClashes(removes: Point, adds: Point) {
    removes.remove.Some? && adds.add.Some? &&
    !(adds.add != removes.remove && (removes.add == adds.add || adds.remove == removes.remove))
  }

  lemma GetMatched(c: Collection, d: Collection, o: Outpoint)
    ensures Get(Unmatched(c, d), o) == Kept(Get(c, o), Get(d, o))
    ensures o in Matched(c, d) <==> o in c && Get(c, o) == Get(d, o)
  {
  }

  lemma SameCollections(c: Collection, d: Collection)
    requires forall o :: Get(c, o) == Get(d, o)
    ensures c == d
  {
    forall o: Outpoint
      ensures o in c <==> o in d
      ensures o in c ==> c[o] == d[o]
    {
      assert Get(c, o) == Get(d, o);
    }
  }

  lemma CombinedAt(ours: Diff, other: Diff, o: Outpoint)
    ensures Combined(ours, other).Some? ==> PointWith(At(ours, o), At(other, o)) == Some(At(Combined(ours, other).value, o))
  {
    var toRemove := ours.toRemove + Unmatched(other.toRemove, ours.toAdd);
    var toAdd := ours.toAdd - Matched(other.toRemove, ours.toAdd).Keys;
    GetMatched(other.toRemove, ours.toAdd, o);
    GetMatched(other.toAdd, toRemove, o);
    assert Get(toRemove, o) == Over(Get(ours.toRemove, o), Get(Unmatched(other.toRemove, ours.toAdd), o));
    if Combined(ours, other).Some? {
      var result := Combined(ours, other).value;
      hide Unmatched, Matched;
      assert !RemovedTwice(ours, other, o) && !AddedTwice(ours, other, o);
      assert Get(result.toAdd, o) == Over(Get(toAdd, o), Get(Unmatched(other.toAdd, toRemove), o));
    }
  }

  /** Combining fails exactly when it fails at some outpoint. */
  lemma CombinedFails(ours: Diff, other: Diff)
    ensures Combined(ours, other).None? <==> exists o :: PointWith(At(ours, o), At(other, o)).None?
  {
    if Combined(ours, other).None? {
      if o :| o in other.toRemove && RemovedTwice(ours, other, o) {
        assert PointWith(At(ours, o), At(other, o)).None?;
      } else {
        var o :| o in other.toAdd && AddedTwice(ours, other, o);
        assert PointWith(At(ours, o), At(other, o)).None?;
      }
    } else {
      forall o: Outpoint
        ensures PointWith(At(ours, o), At(other, o)).Some?
      {
        CombinedAt(ours, other, o);
      }
    }
  }

  lemma DifferenceAt(ours: Diff, other: Diff, o: Outpoint)
    ensures Difference(ours, other).Some? ==> PointFrom(At(ours, o), At(other, o)) == Some(At(Difference(ours, other).value, o))
  {
    GetMatched(ours.toRemove, other.toRemove, o);
    GetMatched(other.toAdd, ours.toAdd, o);
    GetMatched(ours.toAdd, other.toAdd, o);
    GetMatched(other.toRemove, ours.toRemove, o);
    if Difference(ours, other).Some? {
      hide Unmatched, Matched;
      assert !Clashes(ours, other, o) && !Clashes(other, ours, o) && !RemovesDiffer(ours, other, o);
    }
  }

  // ---------------------------------------------------------------------------------------
  // Combining with what Difference returned gives the other diff
  // ---------------------------------------------------------------------------------------

  /** The other diff adds and removes the same entry, which this diff does not mention. */
  predicate IsIdle(p: Point, q: Point) {
    p == Point(None, None) && q.add.Some? && q.add == q.remove
  }

  /** Both diffs add the same entry, but only this one removes another entry of the outpoint. */
  predicate IsMasked(p: Point, q: Point) {
    p.add.Some? && p.add == q.add && p.remove.Some? && q.remove.None?
  }

  lemma PointRoundTrip(p: Point, q: Point)
    requires PointFrom(p, q).Some?
    ensures PointWith(p, PointFrom(p, q).value) == Some(q) <==> !IsIdle(p, q) && !IsMasked(p, q)
  {
  }

  lemma {:induction false} SameDiffs(d: Diff, e: Diff)
    requires forall o :: At(d, o) == At(e, o)
    ensures d == e
  {
    forall o: Outpoint
      ensures Get(d.toAdd, o) == Get(e.toAdd, o) && Get(d.toRemove, o) == Get(e.toRemove, o)
    {
      assert At(d, o) == At(e, o);
    }
    SameCollections(d.toAdd, e.toAdd);
    SameCollections(d.toRemove, e.toRemove);
  }

  /**
   Whenever `DiffFrom` succeeds, combining this diff with its result gives exactly the other diff,
   if and only if no outpoint is idle or masked.
   */
  lemma CombiningGivesTheOtherExactly(ours: Diff, other: Diff)
    requires Difference(ours, other).Some?
    ensures Combined(ours, Difference(ours, other).value) == Some(other) <==>
            forall o :: !IsIdle(At(ours, o), At(other, o)) && !IsMasked(At(ours, o), At(other, o))
  {
    hide Difference, Combined, PointFrom, PointWith, IsIdle, IsMasked;
    var result := Difference(ours, other).value;
    var combined := Combined(ours, result);
    forall o: Outpoint
      ensures PointWith(At(ours, o), At(result, o)) == Some(At(other, o)) <==>
              !IsIdle(At(ours, o), At(other, o)) && !IsMasked(At(ours, o), At(other, o))
      ensures combined.Some? ==> PointWith(At(ours, o), At(result, o)) == Some(At(combined.value, o))
    {
      DifferenceAt(ours, other, o);
      PointRoundTrip(At(ours, o), At(other, o));
      CombinedAt(ours, result, o);
    }
    CombinedFails(ours, result);
    if forall o :: !IsIdle(At(ours, o), At(other, o)) && !IsMasked(At(ours, o), At(other, o)) {
      SameDiffs(combined.value, other);
    }
  }

  /** Two outpoints can mask each other from the one test that spans all of them. */
  lemma MaskedExample()
    ensures var ours := Diff(map[1 := 1, 2 := 1], map[1 := 2]);
            var other := Diff(map[1 := 1, 2 := 1], map[2 := 2]);
            Difference(ours, other).Some? && Combined(ours, Difference(ours, other).value).None?
  {
    var ours := Diff(map[1 := 1, 2 := 1], map[1 := 2]);
    var other := Diff(map[1 := 1, 2 := 1], map[2 := 2]);
    var both := Matched(ours.toAdd, other.toAdd);
    assert 1 in both && 1 in ours.toRemove && 2 in both && 2 in other.toRemove;
    assert Difference(ours, other).Some?;
    DifferenceAt(ours, other, 1);
    assert IsMasked(At(ours, 1), At(other, 1));
    PointRoundTrip(At(ours, 1), At(other, 1));
    assert PointWith(At(ours, 1), At(Difference(ours, other).value, 1)).None?;
    CombinedFails(ours, Difference(ours, other).value);
  }

  /** What both diffs remove, or both add, without anything in between, cannot be combined. */
  lemma TwiceIsRefused(ours: Diff, other: Diff, o: Outpoint)
    requires (o in ours.toRemove && o !in ours.toAdd && o in other.toRemove) || (o in ours.toAdd && o in other.toAdd && o !in other.toRemove)
    ensures Combined(ours, other).None?
  {
    assert RemovedTwice(ours, other, o) || AddedTwice(ours, other, o);
  }

  /**
   The table of `DiffFrom`, for an outpoint that each diff adds, removes or does not mention: the
   two cells in which one adds and the other removes it are refused, whatever the entries; in the
   other cells the result adds it, removes it or leaves it out.
   */
  lemma TableOfDifferences(ours: Diff, other: Diff, o: Outpoint, x: nat, y: nat)
    ensures At(ours, o) == Point(Some(x), None) && At(other, o) == Point(None, Some(y)) ==> Difference(ours, other).None?
    ensures At(ours, o) == Point(None, Some(x)) && At(other, o) == Point(Some(y), None) ==> Difference(ours, other).None?
    ensures Difference(ours, other).Some? ==>
            var p, q, r := At(ours, o), At(other, o), At(Difference(ours, other).value, o);
            && (p == q == Point(None, None) || p == q == Point(Some(x), None) || p == q == Point(None, Some(x)) ==> r == Point(None, None))
            && (p == Point(None, None) && q == Point(Some(x), None) ==> r == Point(Some(x), None))
            && (p == Point(None, None) && q == Point(None, Some(x)) ==> r == Point(None, Some(x)))
            && (p == Point(Some(x), None) && q == Point(None, None) ==> r == Point(None, Some(x)))
            && (p == Point(None, Some(x)) && q == Point(None, None) ==> r == Point(Some(x), None))
  {
    hide Difference;
    DifferenceAt(ours, other, o);
  }

  // ---------------------------------------------------------------------------------------
  // Meaning over a base set
  // ---------------------------------------------------------------------------------------

  function Apply(base: Collection, d: Diff): Collection {
    (base - d.toRemove.Keys) + d.toAdd
  }

  function PointApply(b: Option<nat>, p: Point): Option<nat> {
    if p.add.Some? then p.add else if p.remove.Some? then None else b
  }

  predicate PointValid(b: Option<nat>, p: Point) {
    (p.remove.Some? ==> b == p.remove) && (p.add.Some? && b.Some? ==> p.remove.Some?)
  }

  /** The diff removes entries of the base and adds outpoints that are then free. */
  ghost predicate Valid(base: Collection, d: Diff) {
    forall o :: PointValid(Get(base, o), At(d, o))
  }

  /** The diff does not add what it removes. */
  ghost predicate Normal(d: Diff) {
    forall o :: PointNormal(At(d, o))
  }

  predicate PointNormal(p: Point) {
    p.add.Some? ==> p.add != p.remove
  }

  lemma ApplyAt(base: Collection, d: Diff, o: Outpoint)
    ensures Get(Apply(base, d), o) == PointApply(Get(base, o), At(d, o))
  {
  }

  lemma PointComposes(b: Option<nat>, p: Point, q: Point)
    requires PointValid(b, p) && PointValid(PointApply(b, p), q)
    ensures PointWith(p, q).Some?
    ensures var r := PointWith(p, q).value;
            PointValid(b, r) && PointApply(b, r) == PointApply(PointApply(b, p), q) && (PointNormal(p) ==> PointNormal(r))
  {
  }

  /** Combining two diffs that follow each other never fails, and means one after the other. */
  lemma CombinedMeansBoth(base: Collection, ours: Diff, other: Diff)
    requires Valid(base, ours) && Valid(Apply(base, ours), other)
    ensures Combined(ours, other).Some?
    ensures var d := Combined(ours, other).value;
            Valid(base, d) && Apply(base, d) == Apply(Apply(base, ours), other) && (Normal(ours) ==> Normal(d))
  {
    hide Combined, PointWith, PointApply, PointValid, PointNormal, Apply;
    CombinedFails(ours, other);
    forall o: Outpoint
      ensures PointWith(At(ours, o), At(other, o)).Some?
      ensures Combined(ours, other).Some? ==>
        var d := Combined(ours, other).value;
        && PointValid(Get(base, o), At(d, o)) && (PointNormal(At(ours, o)) ==> PointNormal(At(d, o)))
        && Get(Apply(base, d), o) == Get(Apply(Apply(base, ours), other), o)
    {
      ApplyAt(base, ours, o);
      ApplyAt(Apply(base, ours), other, o);
      PointComposes(Get(base, o), At(ours, o), At(other, o));
      CombinedAt(ours, other, o);
      if Combined(ours, other).Some? {
        ApplyAt(base, Combined(ours, other).value, o);
      }
    }
    var d := Combined(ours, other).value;
    SameCollections(Apply(base, d), Apply(Apply(base, ours), other));
  }

  /** Both diffs remove the entry of the base, and one of them adds the same entry again. */
  predicate Obstructs(p: Point, q: Point) {
    p.remove.Some? && q.remove.Some? && (!PointNormal(p) || !PointNormal(q))
  }

  lemma PointLeads(b: Option<nat>, p: Point, q: Point)
    requires PointValid(b, p) && PointValid(b, q)
    ensures PointFrom(p, q).Some? <==> !Obstructs(p, q)
    ensures PointFrom(p, q).Some? ==>
            var r := PointFrom(p, q).value;
            && PointValid(PointApply(b, p), r) && (PointNormal(p) && PointNormal(q) ==> PointNormal(r))
            && PointApply(PointApply(b, p), r) == PointApply(b, q)
    ensures p.add == q.add && p.add.Some? && !Obstructs(p, q) ==> p.remove == q.remove
  {
  }

  /**
   Between two diffs of one base `DiffFrom` succeeds if and only if no outpoint obstructs it, and
   then leads from the one set to the other.  Diffs that do not add what they remove never obstruct it.
   */
  lemma DifferenceLeads(base: Collection, ours: Diff, other: Diff)
    requires Valid(base, ours) && Valid(base, other)
    ensures Difference(ours, other).Some? <==> forall o :: !Obstructs(At(ours, o), At(other, o))
    ensures Difference(ours, other).Some? ==>
            var d := Difference(ours, other).value;
            && Valid(Apply(base, ours), d) && Apply(Apply(base, ours), d) == Apply(base, other)
            && (Normal(ours) && Normal(other) ==> Normal(d))
    ensures Normal(ours) && Normal(other) ==> Difference(ours, other).Some?
  {
    hide Difference, PointFrom, PointApply, PointValid, PointNormal, Apply, Obstructs;
    DifferenceSucceeds(base, ours, other);
    NormalNeverObstructs(ours, other);
    if Difference(ours, other).Some? {
      var d := Difference(ours, other).value;
      forall o: Outpoint
        ensures PointValid(Get(Apply(base, ours), o), At(d, o))
        ensures PointNormal(At(ours, o)) && PointNormal(At(other, o)) ==> PointNormal(At(d, o))
        ensures Get(Apply(Apply(base, ours), d), o) == Get(Apply(base, other), o)
      {
        PointLeads(Get(base, o), At(ours, o), At(other, o));
        DifferenceAt(ours, other, o);
        ApplyAt(base, ours, o);
        ApplyAt(base, other, o);
        ApplyAt(Apply(base, ours), d, o);
      }
      SameCollections(Apply(Apply(base, ours), d), Apply(base, other));
    }
  }

  lemma NormalNeverObstructs(ours: Diff, other: Diff)
    ensures Normal(ours) && Normal(other) ==> forall o :: !Obstructs(At(ours, o), At(other, o))
  {
    hide PointNormal;
  }

  lemma DifferenceSucceeds(base: Collection, ours: Diff, other: Diff)
    requires Valid(base, ours) && Valid(base, other)
    ensures Difference(ours, other).Some? <==> forall o :: !Obstructs(At(ours, o), At(other, o))
  {
    forall o: Outpoint
      ensures Difference(ours, other).Some? ==> !Obstructs(At(ours, o), At(other, o))
    {
      assert PointValid(Get(base, o), At(ours, o)) && PointValid(Get(base, o), At(other, o));
      DifferenceAt(ours, other, o);
      PointLeads(Get(base, o), At(ours, o), At(other, o));
    }
    if forall o :: !Obstructs(At(ours, o), At(other, o)) {
      forall o: Outpoint
        ensures !Clashes(ours, other, o) && !Clashes(other, ours, o) && !RemovesDiffer(ours, other, o)
        ensures o in ours.toAdd && Has(other.toAdd, o, ours.toAdd[o]) ==> (o in ours.toRemove <==> o in other.toRemove)
      {
        assert PointValid(Get(base, o), At(ours, o)) && PointValid(Get(base, o), At(other, o));
        assert !Obstructs(At(ours, o), At(other, o));
      }
    }
  }

  lemma PointDetermined(b: Option<nat>, p: Point, q: Point)
    requires PointValid(b, p) && PointValid(b, q) && PointNormal(p) && PointNormal(q) && PointApply(b, p) == PointApply(b, q)
    ensures p == q
  {
  }

  /** A normal diff of a base is determined by the set it leads to. */
  lemma NormalDiffIsUnique(base: Collection, d: Diff, e: Diff)
    requires Valid(base, d) && Valid(base, e) && Normal(d) && Normal(e) && Apply(base, d) == Apply(base, e)
    ensures d == e
  {
    hide Apply;
    forall o: Outpoint
      ensures At(d, o) == At(e, o)
    {
      ApplyAt(base, d, o);
      ApplyAt(base, e, o);
      PointDetermined(Get(base, o), At(d, o), At(e, o));
    }
    SameDiffs(d, e);
  }

  lemma PointUndoes(b: Option<nat>, p: Point, q: Point)
    requires PointValid(b, p) && PointValid(b, q) && !Obstructs(p, q)
    ensures !IsIdle(p, q) && !IsMasked(p, q) <==> PointNormal(q)
  {
  }

  /**
   Over a common base, combining a diff with its difference to another gives exactly the other, if
   and only if the other does not add what it removes and no outpoint obstructs the difference.
   */
  lemma CombiningUndoesDifference(base: Collection, ours: Diff, other: Diff)
    requires Valid(base, ours) && Valid(base, other)
    ensures (Difference(ours, other).Some? && Combined(ours, Difference(ours, other).value) == Some(other)) <==>
            Normal(other) && forall o :: !Obstructs(At(ours, o), At(other, o))
  {
    hide Difference, Combined, PointValid, PointNormal, Obstructs, IsIdle, IsMasked;
    DifferenceLeads(base, ours, other);
    if Difference(ours, other).Some? {
      CombiningGivesTheOtherExactly(ours, other);
      forall o: Outpoint
        ensures !IsIdle(At(ours, o), At(other, o)) && !IsMasked(At(ours, o), At(other, o)) <==> PointNormal(At(other, o))
      {
        PointUndoes(Get(base, o), At(ours, o), At(other, o));
      }
    }
  }

  function Reversed(d: Diff): Diff {
    Diff(d.toRemove, d.toAdd)
  }

  /** The reversed diff leads back to the base. */
  lemma ReversedUndoes(base: Collection, d: Diff)
    requires Valid(base, d)
    ensures Valid(Apply(base, d), Reversed(d)) && Apply(Apply(base, d), Reversed(d)) == base
  {
    hide Apply;
    forall o: Outpoint
      ensures PointValid(Get(Apply(base, d), o), At(Reversed(d), o))
      ensures Get(Apply(Apply(base, d), Reversed(d)), o) == Get(base, o)
    {
      assert PointValid(Get(base, o), At(d, o));
      ApplyAt(base, d, o);
      ApplyAt(Apply(base, d), Reversed(d), o);
    }
    SameCollections(Apply(Apply(base, d), Reversed(d)), base);
  }
}
