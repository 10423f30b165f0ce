/**
 Values of the UTXO index: entries, virtual UTXO sets and their diffs, staged changes, and
 sums of amounts.
 */
module UtxoStaging {
  import opened Basics

  /** A script public key in its string form; the key of the index. */
  type Script = string

  datatype Outpoint = Outpoint(transactionID: nat, index: nat)

  datatype Entry = Entry(amount: uint64, script: Script, blockDAAScore: uint64, isCoinbase: bool)

  type Key = (Script, Outpoint)

  /** What the database stores: entries by script and outpoint. */
  type Index = map<Key, Entry>

  /** A virtual UTXO set, as the consensus sees it. */
  type UtxoSet = map<Outpoint, Entry>

  datatype Diff = Diff(toAdd: UtxoSet, toRemove: UtxoSet)

  function Apply(utxos: UtxoSet, diff: Diff): UtxoSet {
    (utxos - diff.toRemove.Keys) + diff.toAdd
  }

  /**
   A diff of the given set: it removes entries of the set, adds outpoints that are free after
   the removals, and an output that it both removes and adds keeps its amount.
   */
  ghost predicate ValidDiff(utxos: UtxoSet, diff: Diff) {
    && (forall o :: o in diff.toRemove ==> o in utxos && utxos[o] == diff.toRemove[o])
    && (forall o :: o in diff.toAdd && o in utxos ==> o in diff.toRemove)
    && (forall o :: o in diff.toAdd && o in diff.toRemove && diff.toAdd[o].script == diff.toRemove[o].script ==>
                      diff.toAdd[o].amount == diff.toRemove[o].amount)
  }

  // ---------------------------------------------------------------------------------------
  // Sums of amounts
  // ---------------------------------------------------------------------------------------

  ghost function Total(index: Index): nat {
    if index == map[] then 0
    else
      var k :| k in index;
      index[k].amount + Total(index - {k})
  }

  lemma {:induction false} TotalSplits(index: Index, k: Key)
    requires k in index
    ensures Total(index) == index[k].amount + Total(index - {k})
    decreases |index|
  {
    var first :| first in index && Total(index) == index[first].amount + Total(index - {first});
    if first != k {
      TotalSplits(index - {first}, k);
      TotalSplits(index - {k}, first);
      assert index - {first} - {k} == index - {k} - {first};
    }
  }

  lemma TotalOfNothing()
    ensures Total(map[]) == 0
  {
  }

  lemma TotalExtends(index: Index, k: Key, e: Entry)
    requires k !in index
    ensures Total(index[k := e]) == Total(index) + e.amount
  {
    TotalSplits(index[k := e], k);
    assert index[k := e] - {k} == index;
  }

  lemma {:induction false} TotalWithout(index: Index, removed: Index)
    requires removed.Keys <= index.Keys && forall k :: k in removed ==> removed[k].amount == index[k].amount
    ensures Total(index) == Total(index - removed.Keys) + Total(removed)
    decreases |removed|
  {
    hide Total;
    if removed == map[] {
      TotalOfNothing();
      assert index - removed.Keys == index;
    } else {
      var k :| k in removed;
      TotalSplits(index, k);
      TotalSplits(removed, k);
      TotalWithout(index - {k}, removed - {k});
      assert (index - {k}) - (removed - {k}).Keys == index - removed.Keys;
    }
  }

  lemma {:induction false} TotalWith(index: Index, added: Index)
    requires added.Keys !! index.Keys
    ensures Total(index + added) == Total(index) + Total(added)
    decreases |added|
  {
    hide Total;
    if added == map[] {
      TotalOfNothing();
      assert index + added == index;
    } else {
      var k :| k in added;
      TotalSplits(added, k);
      TotalWith(index, added - {k});
      TotalSplits(index + added, k);
      JoinWithout(index, added, k);
    }
  }

  lemma JoinWithout(index: Index, added: Index, k: Key)
    requires k in added && k !in index
    ensures (index + added) - {k} == index + (added - {k})
  {
  }

  // ---------------------------------------------------------------------------------------
  // Staged changes
  // ---------------------------------------------------------------------------------------

  /** Entries waiting to be written and to be deleted. */
  datatype Stage = Stage(adds: Index, removes: Index)

  /** What the database will hold once the staged changes are committed. */
  function Committed(index: Index, stage: Stage): Index {
    (index - stage.removes.Keys) + stage.adds
  }

  /** The specification of the store's `Add`; a staged removal is cancelled. */
  function StageAdd(stage: Stage, k: Key, e: Entry): Stage {
    if k in stage.removes then stage.(removes := stage.removes - {k}) else stage.(adds := stage.adds[k := e])
  }

  /** The specification of the store's `Remove`; a staged addition is cancelled. */
  function StageRemove(stage: Stage, k: Key, e: Entry): Stage {
    if k in stage.adds then stage.(adds := stage.adds - {k}) else stage.(removes := stage.removes[k := e])
  }

  /** The set holds the outpoint of the key, under the script of the key. */
  predicate Holds(utxos: UtxoSet, k: Key) {
    k.1 in utxos && utxos[k.1].script == k.0
  }

  /** The key will be stored once the staged changes are committed. */
  predicate WillHold(index: Index, stage: Stage, k: Key) {
    k in stage.adds || (k in index && k !in stage.removes)
  }

  /**
   The staged changes lead from the index to the given UTXO set: nothing is staged both ways,
   removals are of stored keys with their amounts, additions are of new keys with the entries
   of the set, and together they reach exactly the keys of the set, with their amounts.
   */
  ghost predicate LeadsTo(index: Index, stage: Stage, utxos: UtxoSet) {
    && (forall k :: k in stage.removes ==> k !in stage.adds && k in index && stage.removes[k].amount == index[k].amount)
    && (forall k :: k in stage.adds ==> k !in index && Holds(utxos, k) && stage.adds[k] == utxos[k.1])
    && (forall k :: WillHold(index, stage, k) <==> Holds(utxos, k))
    && (forall k :: k in index && k !in stage.removes && Holds(utxos, k) ==> index[k].amount == utxos[k.1].amount)
  }

  /** Removing an entry of the set from the stage removes it from what the stage leads to. */
  lemma StageRemoveLeads(index: Index, stage: Stage, utxos: UtxoSet, o: Outpoint)
    requires LeadsTo(index, stage, utxos) && o in utxos
    ensures var k := (utxos[o].script, o);
            && (k in stage.adds || k !in stage.removes)
            && LeadsTo(index, StageRemove(stage, k, utxos[o]), utxos - {o})
  {
    var k := (utxos[o].script, o);
    assert Holds(utxos, k);
    var stage' := StageRemove(stage, k, utxos[o]);
    forall x: Key
      ensures WillHold(index, stage', x) <==> WillHold(index, stage, x) && x != k
      ensures Holds(utxos - {o}, x) <==> Holds(utxos, x) && x != k
    {
      assert x == (x.0, x.1);
      assert WillHold(index, stage, k);
    }
  }

  /**
   Adding an output that is free in the set, with the amount of any staged removal it cancels.
   With another amount the stage would no longer lead to the set.
   */
  lemma StageAddLeads(index: Index, stage: Stage, utxos: UtxoSet, o: Outpoint, e: Entry)
    requires LeadsTo(index, stage, utxos) && o !in utxos
    ensures var k := (e.script, o);
            && (k in stage.removes || k !in stage.adds)
            && (LeadsTo(index, StageAdd(stage, k, e), utxos[o := e]) <==>
                (k in stage.removes ==> stage.removes[k].amount == e.amount))
  {
    var k := (e.script, o);
    assert !Holds(utxos, k) && !WillHold(index, stage, k);
    assert Holds(utxos[o := e], k);
    forall x: Key
      ensures WillHold(index, StageAdd(stage, k, e), x) <==> WillHold(index, stage, x) || x == k
      ensures Holds(utxos[o := e], x) <==> Holds(utxos, x) || x == k
    {
      assert x == (x.0, x.1);
    }
  }
}
