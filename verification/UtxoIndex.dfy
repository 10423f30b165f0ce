/**
 The persisted UTXO index: a database of entries by script and outpoint, the virtual parents it
 is synchronised with, and the circulating supply.

 The database keeps a ghost history of every durable state it has been in.  A crash between two
 writes leaves one of these states behind, so what holds of all of them holds after any crash.
 Every write may also fail, in which case it changes nothing and the caller gives up; a ghost
 count of these faults lets the contracts say that nothing gives up without a reason.
 */
module UtxoIndex {
  import opened Basics
  import opened UtxoStaging
  import opened HashSerialization

  /** An entry as the consensus lists it. */
  datatype Pair = Pair(outpoint: Outpoint, entry: Entry)

  /** What survives a crash. */
  datatype Durable = Durable(index: Index, virtualParents: Option<seq<byte>>, circulatingSupply: Option<uint64>)

  /** For every virtual parents list the UTXO set of that virtual, in the order it is listed. */
  type World = map<seq<Hash>, seq<Pair>>

  function SetOf(listing: seq<Pair>): UtxoSet {
    if |listing| == 0 then map[]
    else
      var last := listing[|listing| - 1];
      SetOf(listing[..|listing| - 1])[last.outpoint := last.entry]
  }

  predicate NoDuplicates(listing: seq<Pair>) {
    forall i, j :: 0 <= i < j < |listing| ==> listing[i].outpoint != listing[j].outpoint
  }

  ghost predicate ValidWorld(world: World) {
    forall parents :: parents in world ==> NoDuplicates(world[parents]) && |parents| < TWO_64
  }

  /** At most `limit` entries from position `start` on. */
  function Page(listing: seq<Pair>, start: nat, limit: nat): seq<Pair>
    requires start <= |listing|
  {
    if start + limit <= |listing| then listing[start..start + limit] else listing[start..]
  }

  /** The listed entries written into an index one after the other. */
  function Extended(index: Index, pairs: seq<Pair>): Index {
    if |pairs| == 0 then index
    else
      var Pair(outpoint, entry) := pairs[|pairs| - 1];
      Extended(index, pairs[..|pairs| - 1])[(entry.script, outpoint) := entry]
  }

  function SumOf(pairs: seq<Pair>): nat {
    if |pairs| == 0 then 0 else SumOf(pairs[..|pairs| - 1]) + pairs[|pairs| - 1].entry.amount
  }

  /** From the given state on, every durable state carries the given parents, or none. */
  ghost predicate ParentsSince(history: seq<Durable>, start: nat, parents: Option<seq<byte>>) {
    forall i :: start <= i < |history| ==> history[i].virtualParents == parents
  }

  /** The index holds exactly the keys of the set, with their amounts. */
  ghost predicate Agrees(index: Index, utxos: UtxoSet) {
    && (forall k :: k in index <==> Holds(utxos, k))
    && (forall k :: k in index ==> index[k].amount == utxos[k.1].amount)
  }

  /**
   A durable state never lies: when it carries both a parents list and a supply, its index is
   that of the UTXO set of those parents and its supply is the sum of the index, modulo 2^64.
   */
  ghost predicate Honest(d: Durable, world: World) {
    d.virtualParents.Some? && d.circulatingSupply.Some? ==>
      var parents := Deserialized(d.virtualParents.value);
      && parents.Ok? && parents.value in world
      && Agrees(d.index, SetOf(world[parents.value]))
      && d.circulatingSupply.value == Total(d.index) % TWO_64
  }

  // ---------------------------------------------------------------------------------------
  // The database
  // ---------------------------------------------------------------------------------------

  class Database {
    var index: Index
    var virtualParents: Option<seq<byte>>
    var circulatingSupply: Option<uint64>
    ghost var history: seq<Durable>
    ghost var faults: nat

    function Now(): Durable
      reads this
    {
      Durable(index, virtualParents, circulatingSupply)
    }

    ghost predicate Valid()
      reads this
    {
      |history| > 0 && history[|history| - 1] == Now()
    }

    ghost predicate AllHonest(world: World)
      reads this
    {
      Valid() && forall i :: 0 <= i < |history| ==> Honest(history[i], world)
    }

    constructor ()
      ensures Valid() && index == map[] && virtualParents == None && circulatingSupply == None
      ensures history == [Now()] && faults == 0
    {
      index, virtualParents, circulatingSupply := map[], None, None;
      faults := 0;
      history := [Durable(map[], None, None)];
    }

    method PutEntry(k: Key, e: Entry) returns (ok: bool)
      requires Valid()
      modifies this
      ensures Valid() && virtualParents == old(virtualParents) && circulatingSupply == old(circulatingSupply)
      ensures ok ==> index == old(index)[k := e] && history == old(history) + [Now()]
      ensures !ok ==> index == old(index) && history == old(history)
      ensures faults == old(faults) + if ok then 0 else 1
    {
      ok := *;
      if ok {
        index := index[k := e];
        history := history + [Now()];
      } else {
        faults := faults + 1;
      }
    }

    method DeleteEntry(k: Key) returns (ok: bool)
      requires Valid()
      modifies this
      ensures Valid() && virtualParents == old(virtualParents) && circulatingSupply == old(circulatingSupply)
      ensures ok ==> index == old(index) - {k} && history == old(history) + [Now()]
      ensures !ok ==> index == old(index) && history == old(history)
      ensures faults == old(faults) + if ok then 0 else 1
    {
      ok := *;
      if ok {
        index := index - {k};
        history := history + [Now()];
      } else {
        faults := faults + 1;
      }
    }

    method SetVirtualParents(parents: Option<seq<byte>>) returns (ok: bool)
      requires Valid()
      modifies this
      ensures Valid() && index == old(index) && circulatingSupply == old(circulatingSupply)
      ensures ok ==> virtualParents == parents && history == old(history) + [Now()]
      ensures !ok ==> virtualParents == old(virtualParents) && history == old(history)
      ensures faults == old(faults) + if ok then 0 else 1
    {
      ok := *;
      if ok {
        virtualParents := parents;
        history := history + [Now()];
      } else {
        faults := faults + 1;
      }
    }

    method SetCirculatingSupply(supply: Option<uint64>) returns (ok: bool)
      requires Valid()
      modifies this
      ensures Valid() && index == old(index) && virtualParents == old(virtualParents)
      ensures ok ==> circulatingSupply == supply && history == old(history) + [Now()]
      ensures !ok ==> circulatingSupply == old(circulatingSupply) && history == old(history)
      ensures faults == old(faults) + if ok then 0 else 1
    {
      ok := *;
      if ok {
        circulatingSupply := supply;
        history := history + [Now()];
      } else {
        faults := faults + 1;
      }
    }

    /** A transaction: all of its writes become durable at once, or none. */
    method CommitTransaction(d: Durable) returns (ok: bool)
      requires Valid()
      modifies this
      ensures Valid()
      ensures ok ==> Now() == d && history == old(history) + [d]
      ensures !ok ==> Now() == old(Now()) && history == old(history)
      ensures faults == old(faults) + if ok then 0 else 1
    {
      ok := *;
      if ok {
        index, virtualParents, circulatingSupply := d.index, d.virtualParents, d.circulatingSupply;
        history := history + [d];
      } else {
        faults := faults + 1;
      }
    }
  }

  // ---------------------------------------------------------------------------------------
  // The consensus, as far as the index sees it
  // ---------------------------------------------------------------------------------------

  class Consensus {
    const world: World
    const reliable: bool
    var parents: seq<Hash>
    var frozen: bool

    ghost predicate Valid()
      reads this
    {
      ValidWorld(world) && parents in world
    }

    constructor (world: World, parents: seq<Hash>, frozen: bool, reliable: bool)
      requires ValidWorld(world) && parents in world
      ensures Valid() && this.world == world && this.parents == parents && this.frozen == frozen && this.reliable == reliable
    {
      this.world, this.parents, this.frozen, this.reliable := world, parents, frozen, reliable;
    }

    /** Other threads may resolve the virtual at any time, unless blocks are held back. */
    method Interleave()
      requires Valid()
      modifies this
      ensures Valid() && frozen == old(frozen) && (frozen ==> parents == old(parents))
    {
      var moves := *;
      if !frozen && moves {
        var next :| next in world;
        parents := next;
      }
    }

    /** A page of the listing, starting after `from`; an error when the virtual has moved. */
    method GetVirtualUTXOs(expected: seq<Hash>, from: Option<Outpoint>, limit: nat, ghost position: nat)
      returns (page: Option<seq<Pair>>)
      requires Valid()
      requires expected in world && position <= |world[expected]|
      requires if from.None? then position == 0
               else position > 0 && world[expected][position - 1].outpoint == from.value
      ensures page.Some? ==> expected == parents && page.value == Page(world[expected], position, limit)
      ensures page.None? <== expected != parents
      ensures page.None? ==> expected != parents || !reliable
    {
      if expected != parents {
        return None;
      }
      var failed := *;
      if failed && !reliable {
        return None;
      }
      var listing := world[expected];
      var start := 0;
      if from.Some? {
        while start < |listing| && listing[start].outpoint != from.value
          invariant 0 <= start <= |listing|
          invariant forall i :: 0 <= i < start ==> listing[i].outpoint != from.value
        {
          start := start + 1;
        }
        start := start + 1;
      }
      page := Some(Page(listing, start, limit));
    }
  }

  // ---------------------------------------------------------------------------------------
  // The store
  // ---------------------------------------------------------------------------------------

  type Nested = map<Script, map<Outpoint, Entry>>

  /** The entries of a nested map under their index keys. */
  function Flat(nested: Nested): Index {
    map s, o | s in nested && o in nested[s] :: (s, o) := nested[s][o]
  }

  lemma FlatPut(nested: Nested, s: Script, o: Outpoint, e: Entry)
    requires s in nested
    ensures Flat(nested[s := nested[s][o := e]]) == Flat(nested)[(s, o) := e]
  {
    hide Flat;
    var put := nested[s := nested[s][o := e]];
    forall k: Key
      ensures k in Flat(put) <==> k in Flat(nested) || k == (s, o)
      ensures k in Flat(put) ==> Flat(put)[k] == if k == (s, o) then e else Flat(nested)[k]
    {
      FlatHas(put, k);
      FlatHas(nested, k);
    }
  }

  lemma FlatDelete(nested: Nested, s: Script, o: Outpoint)
    requires s in nested
    ensures Flat(nested[s := nested[s] - {o}]) == Flat(nested) - {(s, o)}
  {
    hide Flat;
    var deleted := nested[s := nested[s] - {o}];
    forall k: Key
      ensures k in Flat(deleted) <==> k in Flat(nested) && k != (s, o)
      ensures k in Flat(deleted) ==> Flat(deleted)[k] == Flat(nested)[k]
    {
      FlatHas(deleted, k);
      FlatHas(nested, k);
    }
  }

  lemma FlatCreate(nested: Nested, s: Script)
    requires s !in nested
    ensures Flat(nested[s := map[]]) == Flat(nested)
  {
    hide Flat;
    var created := nested[s := map[]];
    forall k: Key
      ensures k in Flat(created) <==> k in Flat(nested)
      ensures k in Flat(created) ==> Flat(created)[k] == Flat(nested)[k]
    {
      FlatHas(created, k);
      FlatHas(nested, k);
    }
  }

  lemma FlatHas(nested: Nested, k: Key)
    ensures k in Flat(nested) <==> k.0 in nested && k.1 in nested[k.0]
    ensures k in Flat(nested) ==> Flat(nested)[k] == nested[k.0][k.1]
  {
    assert k == (k.0, k.1);
  }

  /** The key belongs to the nested map and has been visited: neither its script nor its outpoint is still pending. */
  predicate Visited(nested: Nested, scripts: set<Script>, current: Script, outpoints: set<Outpoint>, k: Key) {
    k.0 in nested && k.1 in nested[k.0] && k.0 !in scripts && (k.0 == current ==> k.1 !in outpoints)
  }

  /** The entries visited so far. */
  ghost predicate Covers(done: Index, nested: Nested, scripts: set<Script>, current: Script, outpoints: set<Outpoint>) {
    && (forall k :: k in done <==> Visited(nested, scripts, current, outpoints, k))
    && (forall k :: k in done ==> done[k] == nested[k.0][k.1])
  }

  lemma CoversStep(done: Index, nested: Nested, scripts: set<Script>, s: Script, outpoints: set<Outpoint>, o: Outpoint)
    requires Covers(done, nested, scripts, s, outpoints)
    requires s in nested && s !in scripts && o in outpoints && o in nested[s]
    ensures (s, o) !in done
    ensures Covers(done[(s, o) := nested[s][o]], nested, scripts, s, outpoints - {o})
  {
    var k := (s, o);
    assert !Visited(nested, scripts, s, outpoints, k);
    forall x: Key
      ensures Visited(nested, scripts, s, outpoints - {o}, x) <==> Visited(nested, scripts, s, outpoints, x) || x == k
    {
      assert x == (x.0, x.1);
    }
  }

  /** Picking a new script: its outpoints become the pending ones. */
  lemma CoversPick(done: Index, nested: Nested, scripts: set<Script>, previous: Script, s: Script)
    requires Covers(done, nested, scripts, previous, {}) && s in scripts && s in nested
    ensures Covers(done, nested, scripts - {s}, s, nested[s].Keys)
  {
    forall k: Key
      ensures Visited(nested, scripts - {s}, s, nested[s].Keys, k) <==> Visited(nested, scripts, previous, {}, k)
    {
    }
  }

  lemma CoversNone(nested: Nested)
    ensures Covers(map[], nested, nested.Keys, "", {})
  {
  }

  /** One more entry is put: the index and the sum follow. */
  lemma PutStep(index: Index, done: Index, k: Key, e: Entry, sompi: uint64)
    requires k !in done && sompi == Total(done) % TWO_64
    ensures (index + done)[k := e] == index + done[k := e]
    ensures (sompi + e.amount) % TWO_64 == Total(done[k := e]) % TWO_64
  {
    TotalExtends(done, k, e);
  }

  /** One more entry is deleted: the index and the sum follow. */
  lemma DeleteStep(index: Index, done: Index, k: Key, e: Entry, sompi: uint64)
    requires k !in done && sompi == Total(done) % TWO_64
    ensures (index - done.Keys) - {k} == index - done[k := e].Keys
    ensures (sompi + e.amount) % TWO_64 == Total(done[k := e]) % TWO_64
  {
    TotalExtends(done, k, e);
  }

  /** One more entry is summed up. */
  lemma SumStep(index: Index, remaining: set<Key>, k: Key, sompi: uint64)
    requires k in remaining && k in index && sompi == Total(index - remaining) % TWO_64
    ensures (sompi + index[k].amount) % TWO_64 == Total(index - (remaining - {k})) % TWO_64
  {
    TotalExtends(index - remaining, k, index[k]);
    assert (index - remaining)[k := index[k]] == index - (remaining - {k});
  }

  lemma CoversAll(done: Index, nested: Nested, current: Script)
    requires Covers(done, nested, {}, current, {})
    ensures done == Flat(nested)
  {
    hide Flat;
    forall k: Key
      ensures k in done <==> k in Flat(nested)
      ensures k in done ==> done[k] == Flat(nested)[k]
    {
      FlatHas(nested, k);
      assert k in done <==> Visited(nested, {}, current, {}, k);
    }
  }

  lemma NothingListed(index: Index, pairs: seq<Pair>)
    ensures Extended(index, pairs[..0]) == index && SumOf(pairs[..0]) == 0
  {
  }

  lemma OneMoreListed(index: Index, pairs: seq<Pair>, i: nat)
    requires i < |pairs|
    ensures var Pair(o, e) := pairs[i]; Extended(index, pairs[..i + 1]) == Extended(index, pairs[..i])[(e.script, o) := e]
    ensures SumOf(pairs[..i + 1]) % TWO_64 == (SumOf(pairs[..i]) % TWO_64 + pairs[i].entry.amount) % TWO_64
  {
    assert pairs[..i + 1][..i] == pairs[..i];
  }

  class Store {
    const database: Database
    var toAdd: Nested
    var toRemove: Nested
    var virtualParents: seq<Hash>

    ghost function Staged(): Stage
      reads this
    {
      Stage(Flat(toAdd), Flat(toRemove))
    }

    constructor (database: Database)
      ensures this.database == database && toAdd == map[] && toRemove == map[] && virtualParents == []
    {
      this.database := database;
      toAdd, toRemove, virtualParents := map[], map[], [];
    }

    method Add(script: Script, outpoint: Outpoint, entry: Entry) returns (ok: bool)
      modifies this`toAdd, this`toRemove
      ensures ok <==> (script, outpoint) in old(Staged()).removes || (script, outpoint) !in old(Staged()).adds
      ensures Staged() == if ok then StageAdd(old(Staged()), (script, outpoint), entry) else old(Staged())
    {
      hide Flat;
      FlatHas(toAdd, (script, outpoint));
      FlatHas(toRemove, (script, outpoint));
      if script in toRemove && outpoint in toRemove[script] {
        FlatDelete(toRemove, script, outpoint);
        toRemove := toRemove[script := toRemove[script] - {outpoint}];
        return true;
      }
      if script !in toAdd {
        FlatCreate(toAdd, script);
        toAdd := toAdd[script := map[]];
      }
      if outpoint in toAdd[script] {
        return false;
      }
      FlatPut(toAdd, script, outpoint, entry);
      toAdd := toAdd[script := toAdd[script][outpoint := entry]];
      ok := true;
    }

    method Remove(script: Script, outpoint: Outpoint, entry: Entry) returns (ok: bool)
      modifies this`toAdd, this`toRemove
      ensures ok <==> (script, outpoint) in old(Staged()).adds || (script, outpoint) !in old(Staged()).removes
      ensures Staged() == if ok then StageRemove(old(Staged()), (script, outpoint), entry) else old(Staged())
    {
      hide Flat;
      FlatHas(toAdd, (script, outpoint));
      FlatHas(toRemove, (script, outpoint));
      if script in toAdd && outpoint in toAdd[script] {
        FlatDelete(toAdd, script, outpoint);
        toAdd := toAdd[script := toAdd[script] - {outpoint}];
        return true;
      }
      if script !in toRemove {
        FlatCreate(toRemove, script);
        toRemove := toRemove[script := map[]];
      }
      if outpoint in toRemove[script] {
        return false;
      }
      FlatPut(toRemove, script, outpoint, entry);
      toRemove := toRemove[script := toRemove[script][outpoint := entry]];
      ok := true;
    }

    method Discard()
      modifies this
      ensures toAdd == map[] && toRemove == map[] && virtualParents == []
    {
      toAdd, toRemove, virtualParents := map[], map[], [];
    }

    /** Also true when every staged script has had all its changes cancelled. */
    predicate IsAnythingStaged()
      reads this
    {
      |toAdd| > 0 || |toRemove| > 0
    }

    /** Nothing is staged when there is no staged script; there may be staged scripts without entries. */
    lemma NothingStaged()
      requires !IsAnythingStaged()
      ensures Staged() == Stage(map[], map[])
    {
      assert toAdd == map[] && toRemove == map[];
      EmptyStage();
    }

    /** The first half of a commit: staged removals leave the index, their amounts are summed up. */
    method DeleteStaged(index: Index) returns (result: Index, sompi: uint64)
      ensures result == index - Flat(toRemove).Keys
      ensures sompi == Total(Flat(toRemove)) % TWO_64
    {
      hide Flat, Total, Covers;
      result, sompi := index, 0;
      ghost var done: Index := map[];
      TotalOfNothing();
      CoversNone(toRemove);
      var scripts := toRemove.Keys;
      var script := "";
      while scripts != {}
        invariant scripts <= toRemove.Keys && Covers(done, toRemove, scripts, script, {})
        invariant result == index - done.Keys && sompi == Total(done) % TWO_64
        decreases scripts
      {
        ghost var previous := script;
        script :| script in scripts;
        CoversPick(done, toRemove, scripts, previous, script);
        scripts := scripts - {script};
        var outpoints := toRemove[script].Keys;
        while outpoints != {}
          invariant outpoints <= toRemove[script].Keys && Covers(done, toRemove, scripts, script, outpoints)
          invariant result == index - done.Keys && sompi == Total(done) % TWO_64
          decreases outpoints
        {
          var outpoint :| outpoint in outpoints;
          var key, entry := (script, outpoint), toRemove[script][outpoint];
          CoversStep(done, toRemove, scripts, script, outpoints, outpoint);
          DeleteStep(index, done, key, entry, sompi);
          result := result - {key};
          sompi := (sompi + entry.amount) % TWO_64;
          done := done[key := entry];
          outpoints := outpoints - {outpoint};
        }
      }
      CoversAll(done, toRemove, script);
    }

    /** The second half of a commit: staged additions enter the index, their amounts are summed up. */
    method PutStaged(index: Index) returns (result: Index, sompi: uint64)
      ensures result == index + Flat(toAdd)
      ensures sompi == Total(Flat(toAdd)) % TWO_64
    {
      hide Flat, Total, Covers;
      result, sompi := index, 0;
      ghost var done: Index := map[];
      TotalOfNothing();
      CoversNone(toAdd);
      var scripts := toAdd.Keys;
      var script := "";
      while scripts != {}
        invariant scripts <= toAdd.Keys && Covers(done, toAdd, scripts, script, {})
        invariant result == index + done && sompi == Total(done) % TWO_64
        decreases scripts
      {
        ghost var previous := script;
        script :| script in scripts;
        CoversPick(done, toAdd, scripts, previous, script);
        scripts := scripts - {script};
        var outpoints := toAdd[script].Keys;
        while outpoints != {}
          invariant outpoints <= toAdd[script].Keys && Covers(done, toAdd, scripts, script, outpoints)
          invariant result == index + done && sompi == Total(done) % TWO_64
          decreases outpoints
        {
          var outpoint :| outpoint in outpoints;
          var key, entry := (script, outpoint), toAdd[script][outpoint];
          CoversStep(done, toAdd, scripts, script, outpoints, outpoint);
          PutStep(index, done, key, entry, sompi);
          result := result[key := entry];
          sompi := (sompi + entry.amount) % TWO_64;
          done := done[key := entry];
          outpoints := outpoints - {outpoint};
        }
      }
      CoversAll(done, toAdd, script);
    }

    /** The wrapping 64-bit update of the supply; `None` when there is no supply to update. */
    static function UpdatedSupply(supply: Option<uint64>, added: uint64, removed: uint64): Option<Option<uint64>> {
      if added == removed then Some(supply)
      else if supply.None? then None
      else Some(Some(((supply.value + added) % TWO_64 + TWO_64 - removed) % TWO_64))
    }

    method Commit() returns (ok: bool)
      requires database.Valid()
      modifies this, database
      ensures database.Valid()
      ensures ok ==>
        && toAdd == map[] && toRemove == map[] && virtualParents == []
        && database.history == old(database.history) + [database.Now()]
        && database.index == Committed(old(database.index), old(Staged()))
        && database.virtualParents == Some(Serialized(old(virtualParents)))
        && UpdatedSupply(old(database.circulatingSupply), Total(old(Staged()).adds) % TWO_64, Total(old(Staged()).removes) % TWO_64)
           == Some(database.circulatingSupply)
      ensures !ok ==>
        && toAdd == old(toAdd) && toRemove == old(toRemove) && virtualParents == old(virtualParents)
        && database.Now() == old(database.Now()) && database.history == old(database.history)
      ensures !ok ==>
        || database.faults > old(database.faults)
        || (old(database.circulatingSupply).None? && Total(old(Staged()).adds) % TWO_64 != Total(old(Staged()).removes) % TWO_64)
      ensures ok ==> database.faults == old(database.faults)
      ensures ok && old(database.circulatingSupply).None? ==>
        Total(old(Staged()).adds) % TWO_64 == Total(old(Staged()).removes) % TWO_64 && database.circulatingSupply.None?
    {
      hide Flat, Total;
      var index, removedSompi := DeleteStaged(database.index);
      var addedSompi;
      index, addedSompi := PutStaged(index);
      var parents := SerializeHashes(virtualParents);
      var supply := UpdatedSupply(database.circulatingSupply, addedSompi, removedSompi);
      if supply.None? {
        return false;
      }
      ok := database.CommitTransaction(Durable(index, Some(parents), supply.value));
      if ok {
        Discard();
      }
    }

    /** Entries are written one by one; then the supply grows by their sum. */
    method AddAndCommitOutpointsWithoutTransaction(pairs: seq<Pair>) returns (ok: bool)
      requires database.Valid()
      modifies database
      ensures database.Valid() && database.virtualParents == old(database.virtualParents)
      ensures old(database.history) <= database.history
      ensures ParentsSince(database.history, |old(database.history)|, old(database.virtualParents))
      ensures ok ==> database.index == Extended(old(database.index), pairs)
      ensures ok ==> UpdatedSupply(old(database.circulatingSupply), SumOf(pairs) % TWO_64, 0) == Some(database.circulatingSupply)
      ensures ok ==> database.faults == old(database.faults)
      ensures !ok ==> database.faults > old(database.faults) || old(database.circulatingSupply).None?
    {
      hide Extended, SumOf;
      var sompi: uint64 := 0;
      NothingListed(database.index, pairs);
      for i := 0 to |pairs|
        invariant database.Valid() && database.virtualParents == old(database.virtualParents)
        invariant database.circulatingSupply == old(database.circulatingSupply) && database.faults == old(database.faults)
        invariant old(database.history) <= database.history
        invariant ParentsSince(database.history, |old(database.history)|, old(database.virtualParents))
        invariant database.index == Extended(old(database.index), pairs[..i])
        invariant sompi == SumOf(pairs[..i]) % TWO_64
      {
        var Pair(outpoint, entry) := pairs[i];
        OneMoreListed(old(database.index), pairs, i);
        ok := database.PutEntry((entry.script, outpoint), entry);
        if !ok {
          return;
        }
        sompi := (sompi + entry.amount) % TWO_64;
      }
      assert pairs[..|pairs|] == pairs;
      var supply := UpdatedSupply(database.circulatingSupply, sompi, 0);
      if supply.None? {
        return false;
      }
      if sompi != 0 {
        ok := database.SetCirculatingSupply(supply.value);
      } else {
        ok := true;
      }
    }

    /** The parents go first, so that whatever is left behind is known not to be synchronised. */
    method DeleteAll() returns (ok: bool)
      requires database.Valid()
      modifies database
      ensures database.Valid() && old(database.history) <= database.history
      ensures ParentsSince(database.history, |old(database.history)|, None)
      ensures ok ==> database.Now() == Durable(map[], None, None)
      ensures database.faults == old(database.faults) + if ok then 0 else 1
    {
      ok := database.SetVirtualParents(None);
      if !ok {
        return;
      }
      ok := database.SetCirculatingSupply(None);
      if !ok {
        return;
      }
      while database.index != map[]
        invariant database.Valid() && database.virtualParents == None && database.circulatingSupply == None
        invariant database.faults == old(database.faults)
        invariant old(database.history) <= database.history && ParentsSince(database.history, |old(database.history)|, None)
        decreases |database.index|
      {
        var key :| key in database.index;
        ok := database.DeleteEntry(key);
        if !ok {
          return;
        }
      }
      ok := true;
    }

    method InitializeCirculatingSompiSupply() returns (ok: bool)
      requires database.Valid()
      modifies database
      ensures database.Valid() && old(database.history) <= database.history
      ensures ParentsSince(database.history, |old(database.history)|, old(database.virtualParents))
      ensures database.index == old(database.index) && database.virtualParents == old(database.virtualParents)
      ensures ok ==> database.circulatingSupply == Some(Total(database.index) % TWO_64)
      ensures database.faults == old(database.faults) + if ok then 0 else 1
    {
      hide Total;
      var sompi: uint64 := 0;
      var remaining := database.index.Keys;
      TotalOfNothing();
      assert database.index - remaining == map[];
      while remaining != {}
        invariant unchanged(database)
        invariant remaining <= database.index.Keys && sompi == Total(database.index - remaining) % TWO_64
        decreases remaining
      {
        var key :| key in remaining;
        SumStep(database.index, remaining, key, sompi);
        sompi := (sompi + database.index[key].amount) % TWO_64;
        remaining := remaining - {key};
      }
      assert database.index - remaining == database.index;
      ok := database.SetCirculatingSupply(Some(sompi));
    }
  }

  // ---------------------------------------------------------------------------------------
  // Listings
  // ---------------------------------------------------------------------------------------

  /** The index holds exactly the entries of the set. */
  ghost predicate Mirrors(index: Index, utxos: UtxoSet) {
    && (forall k :: k in index <==> Holds(utxos, k))
    && (forall k :: k in index ==> index[k] == utxos[k.1])
  }

  lemma {:induction false} SetOfHas(listing: seq<Pair>, o: Outpoint)
    ensures o in SetOf(listing) <==> exists i :: 0 <= i < |listing| && listing[i].outpoint == o
    decreases |listing|
  {
    if |listing| > 0 {
      var n := |listing| - 1;
      SetOfHas(listing[..n], o);
      if o in SetOf(listing) && listing[n].outpoint != o {
        var i :| 0 <= i < n && listing[..n][i].outpoint == o;
        assert listing[i].outpoint == o;
      }
      if exists i :: 0 <= i < |listing| && listing[i].outpoint == o {
        var i :| 0 <= i < |listing| && listing[i].outpoint == o;
        assert i == n || listing[..n][i].outpoint == o;
      }
    }
  }

  /** Writing out a whole listing mirrors its set, and the sums agree. */
  lemma {:induction false} ListingMirrors(listing: seq<Pair>)
    requires NoDuplicates(listing)
    ensures Mirrors(Extended(map[], listing), SetOf(listing))
    ensures Total(Extended(map[], listing)) == SumOf(listing)
    decreases |listing|
  {
    hide Total;
    TotalOfNothing();
    if |listing| > 0 {
      var n := |listing| - 1;
      var init := listing[..n];
      var Pair(o, e) := listing[n];
      ListingMirrors(init);
      SetOfHas(init, o);
      assert o !in SetOf(init);
      var index, k := Extended(map[], init), (e.script, o);
      assert !Holds(SetOf(init), k);
      TotalExtends(index, k, e);
      forall x: Key
        ensures Holds(SetOf(listing), x) <==> Holds(SetOf(init), x) || x == k
      {
        assert x == (x.0, x.1);
      }
    }
  }

  lemma {:induction false} ExtendedAppends(index: Index, a: seq<Pair>, b: seq<Pair>)
    ensures Extended(Extended(index, a), b) == Extended(index, a + b)
    ensures SumOf(a) + SumOf(b) == SumOf(a + b)
    decreases |b|
  {
    if |b| == 0 {
      assert a + b == a;
    } else {
      var n := |b| - 1;
      ExtendedAppends(index, a, b[..n]);
      assert (a + b)[..|a + b| - 1] == a + b[..n];
    }
  }

  lemma SupplyGrows(sum: nat, added: nat)
    ensures Store.UpdatedSupply(Some(sum % TWO_64), added % TWO_64, 0) == Some(Some((sum + added) % TWO_64))
  {
    SupplyFollows(sum, added, 0, sum + added);
  }

  lemma StoredParentsReadBack(parents: seq<Hash>)
    requires |parents| < TWO_64
    ensures Deserialized(Serialized(parents)) == HashSerialization.Ok(parents)
  {
    assert TWO_64 == Pow256(8);
    DeserializesExactlyWhatWasSerialized(Serialized(parents), parents);
  }

  /** The durable state after a complete synchronisation. */
  ghost predicate SyncedWith(d: Durable, parents: seq<Hash>, utxos: UtxoSet) {
    && d.virtualParents == Some(Serialized(parents))
    && d.circulatingSupply == Some(Total(d.index) % TWO_64)
    && Agrees(d.index, utxos)
  }

  lemma SyncedIsHonest(d: Durable, parents: seq<Hash>, world: World)
    requires ValidWorld(world) && parents in world && SyncedWith(d, parents, SetOf(world[parents]))
    ensures Honest(d, world)
  {
    hide Deserialized, Serialized, SetOf, Total;
    StoredParentsReadBack(parents);
  }

  /** Writing the parents after a complete copy of their listing. */
  lemma CompleteCopyIsSynced(d: Durable, parents: seq<Hash>, world: World)
    requires ValidWorld(world) && parents in world
    requires d == Durable(Extended(map[], world[parents]), Some(Serialized(parents)), Some(SumOf(world[parents]) % TWO_64))
    ensures SyncedWith(d, parents, SetOf(world[parents])) && Mirrors(d.index, SetOf(world[parents])) && Honest(d, world)
  {
    hide Serialized, Total, Extended, SumOf, SetOf;
    ListingMirrors(world[parents]);
    SyncedIsHonest(d, parents, world);
  }

  /** What a commit leaves: exactly the keys of the set, old entries for old keys, new entries for new keys. */
  ghost predicate Refreshes(before: Index, after: Index, utxos: UtxoSet) {
    && (forall k :: k in after <==> Holds(utxos, k))
    && (forall k :: k in after ==> after[k] == if k in before then before[k] else utxos[k.1])
  }

  lemma CommitReaches(index: Index, stage: Stage, utxos: UtxoSet)
    requires LeadsTo(index, stage, utxos)
    ensures Refreshes(index, Committed(index, stage), utxos) && Agrees(Committed(index, stage), utxos)
    ensures LeadsTo(Committed(index, stage), Stage(map[], map[]), utxos)
    ensures Total(Committed(index, stage)) + Total(stage.removes) == Total(index) + Total(stage.adds)
  {
    hide Total;
    var committed := Committed(index, stage);
    forall k: Key
      ensures k in committed <==> WillHold(index, stage, k)
      ensures WillHold(committed, Stage(map[], map[]), k) <==> k in committed
    {
    }
    TotalWithout(index, stage.removes);
    TotalWith(index - stage.removes.Keys, stage.adds);
  }

  /** The staged changes are the net changes. */
  lemma StagedIsNet(index: Index, stage: Stage, utxos: UtxoSet)
    requires LeadsTo(index, stage, utxos)
    ensures forall k :: k in stage.adds <==> k in Committed(index, stage) && k !in index
    ensures forall k :: k in stage.removes <==> k !in Committed(index, stage) && k in index
    ensures forall k :: k in stage.adds ==> k.1 in utxos && stage.adds[k] == utxos[k.1]
    ensures forall k :: k in stage.removes ==> stage.removes[k].amount == index[k].amount
  {
  }

  /** The wrapping add-then-subtract gives the exact new total, modulo 2^64. */
  lemma SupplyFollows(total: nat, added: nat, removed: nat, newTotal: nat)
    requires newTotal + removed == total + added
    ensures Store.UpdatedSupply(Some(total % TWO_64), added % TWO_64, removed % TWO_64) == Some(Some(newTotal % TWO_64))
  {
    WrappedUpdate(total, added, removed, newTotal);
  }

  lemma WrappedUpdate(total: nat, added: nat, removed: nat, newTotal: nat)
    requires newTotal + removed == total + added
    ensures var a, b, c, m := total % 0x1_0000_0000_0000_0000, added % 0x1_0000_0000_0000_0000,
                              removed % 0x1_0000_0000_0000_0000, 0x1_0000_0000_0000_0000;
            && ((a + b) % m + m - c) % m == newTotal % m
            && (b == c ==> a == newTotal % m)
  {
  }

  /**
   After a commit the index mirrors the new set entry by entry exactly when every key that was
   already stored kept its entry.
   */
  lemma MirrorsExactlyWhenEntriesAreKept(before: Index, after: Index, utxos: UtxoSet)
    requires Refreshes(before, after, utxos)
    ensures Mirrors(after, utxos) <==> forall k :: k in before && Holds(utxos, k) ==> before[k] == utxos[k.1]
  {
    if Mirrors(after, utxos) {
      forall k | k in before && Holds(utxos, k)
        ensures before[k] == utxos[k.1]
      {
        assert k in after;
      }
    }
  }

  /**
   Starting from a mirror, one update leaves a mirror exactly when the outputs on both sides of
   the diff under the same script carry identical entries.
   */
  lemma UpdateMirrorsExactlyWhen(before: Index, after: Index, utxos: UtxoSet, diff: Diff)
    requires Mirrors(before, utxos) && ValidDiff(utxos, diff) && Refreshes(before, after, Apply(utxos, diff))
    ensures Mirrors(after, Apply(utxos, diff)) <==>
            forall o :: o in diff.toAdd && o in diff.toRemove && diff.toAdd[o].script == diff.toRemove[o].script ==>
                          diff.toAdd[o] == diff.toRemove[o]
  {
    var next := Apply(utxos, diff);
    MirrorsExactlyWhenEntriesAreKept(before, after, next);
    if Mirrors(after, next) {
      forall o | o in diff.toAdd && o in diff.toRemove && diff.toAdd[o].script == diff.toRemove[o].script
        ensures diff.toAdd[o] == diff.toRemove[o]
      {
        var k := (diff.toAdd[o].script, o);
        assert Holds(utxos, k) && Holds(next, k);
      }
    } else {
      var k :| k in before && Holds(next, k) && before[k] != next[k.1];
      assert k.1 in diff.toAdd && k.1 in diff.toRemove;
    }
  }

  /**
   An output that is removed with one DAA score and added again with another: the two staged
   changes cancel, and the committed index keeps the old entry.
   */
  lemma ReaddedEntryIsNotRefreshed(o: Outpoint, script: Script)
    ensures var before, after := Entry(5, script, 1, false), Entry(5, script, 2, false);
            var utxos, diff, key := map[o := before], Diff(map[o := after], map[o := before]), (script, o);
            var index: Index := map[key := before];
            var staged := StageAdd(StageRemove(Stage(map[], map[]), key, before), key, after);
            && Mirrors(index, utxos) && ValidDiff(utxos, diff)
            && Committed(index, staged)[key] == before && Apply(utxos, diff)[o] == after
            && !Mirrors(Committed(index, staged), Apply(utxos, diff))
  {
    var before, after := Entry(5, script, 1, false), Entry(5, script, 2, false);
    var utxos, key := map[o := before], (script, o);
    var index: Index := map[key := before];
    forall k: Key
      ensures k in index <==> Holds(utxos, k)
    {
      assert k == (k.0, k.1);
    }
    var staged := StageAdd(StageRemove(Stage(map[], map[]), key, before), key, after);
    assert key in Committed(index, staged);
  }

  // ---------------------------------------------------------------------------------------
  // The index
  // ---------------------------------------------------------------------------------------

  const STEP := 1000

  class UTXOIndex {
    const store: Store
    const consensus: Consensus

    ghost predicate Valid()
      reads store.database, consensus
    {
      consensus.Valid() && store.database.AllHonest(consensus.world)
    }

    constructor (store: Store, consensus: Consensus)
      ensures this.store == store && this.consensus == consensus
    {
      this.store, this.consensus := store, consensus;
    }

    /** The database holds the first `n` entries of the listing and their sum, but no parents. */
    ghost predicate Copied(listing: seq<Pair>, n: nat)
      requires n <= |listing|
      reads store.database
    {
      && store.database.Valid()
      && store.database.Now() == Durable(Extended(map[], listing[..n]), None, Some(SumOf(listing[..n]) % TWO_64))
    }

    lemma NothingCopied(listing: seq<Pair>)
      requires store.database.Valid() && store.database.Now() == Durable(map[], None, Some(0))
      ensures Copied(listing, 0)
    {
      NothingListed(map[], listing);
    }

    /** One page of a reset. */
    method CopyPage(parents: seq<Hash>, from: Option<Outpoint>, ghost position: nat) returns (page: Option<seq<Pair>>)
      requires consensus.Valid() && parents in consensus.world
      requires position <= |consensus.world[parents]| && Copied(consensus.world[parents], position)
      requires if from.None? then position == 0
               else position > 0 && consensus.world[parents][position - 1].outpoint == from.value
      modifies store.database
      ensures store.database.Valid() && old(store.database.history) <= store.database.history
      ensures ParentsSince(store.database.history, |old(store.database.history)|, None)
      ensures page.Some? ==>
        && parents == consensus.parents
        && page.value == Page(consensus.world[parents], position, STEP)
        && Copied(consensus.world[parents], position + |page.value|)
        && store.database.faults == old(store.database.faults)
      ensures page.None? ==>
        store.database.faults > old(store.database.faults) || parents != consensus.parents || !consensus.reliable
    {
      hide Extended, SumOf;
      ghost var listing := consensus.world[parents];
      page := consensus.GetVirtualUTXOs(parents, from, STEP, position);
      if page.None? {
        return;
      }
      var ok := store.AddAndCommitOutpointsWithoutTransaction(page.value);
      if !ok {
        return None;
      }
      assert listing[..position + |page.value|] == listing[..position] + page.value;
      ExtendedAppends(map[], listing[..position], page.value);
      SupplyGrows(SumOf(listing[..position]), SumOf(page.value));
    }

    /** The paging loop of a reset: copies the whole listing of the given parents. */
    method CopyListing(parents: seq<Hash>) returns (ok: bool)
      requires consensus.Valid() && parents in consensus.world
      requires store.database.Valid() && store.database.Now() == Durable(map[], None, Some(0))
      modifies store.database, consensus
      ensures consensus.Valid() && consensus.frozen == old(consensus.frozen)
      ensures consensus.frozen ==> consensus.parents == old(consensus.parents)
      ensures store.database.Valid() && old(store.database.history) <= store.database.history
      ensures ParentsSince(store.database.history, |old(store.database.history)|, None)
      ensures ok ==> Copied(consensus.world[parents], |consensus.world[parents]|)
      ensures ok && consensus.frozen ==> parents == consensus.parents
      ensures ok ==> store.database.faults == old(store.database.faults)
      ensures !ok && consensus.frozen && parents == consensus.parents ==>
        store.database.faults > old(store.database.faults) || !consensus.reliable
    {
      hide Copied;
      ghost var listing := consensus.world[parents];
      NothingCopied(listing);
      ghost var position := 0;
      var from: Option<Outpoint> := None;
      while true
        invariant consensus.Valid() && consensus.frozen == old(consensus.frozen)
        invariant consensus.frozen ==> consensus.parents == old(consensus.parents)
        invariant store.database.faults == old(store.database.faults)
        invariant old(store.database.history) <= store.database.history
        invariant ParentsSince(store.database.history, |old(store.database.history)|, None)
        invariant 0 <= position <= |listing| && Copied(listing, position)
        invariant if from.None? then position == 0 else position > 0 && listing[position - 1].outpoint == from.value
        decreases |listing| - position
      {
        consensus.Interleave();
        var page := CopyPage(parents, from, position);
        if page.None? {
          return false;
        }
        var virtualUTXOs := page.value;
        position := position + |virtualUTXOs|;
        if |virtualUTXOs| < STEP {
          return true;
        }
        from := Some(virtualUTXOs[|virtualUTXOs| - 1].outpoint);
      }
    }

    /** A reset up to its last write: the copy is complete, and no durable state on the way carries parents. */
    method ClearAndCopy() returns (ok: bool, parents: seq<Hash>)
      requires consensus.Valid() && store.database.Valid()
      modifies store.database, consensus
      ensures consensus.Valid() && consensus.frozen == old(consensus.frozen)
      ensures consensus.frozen ==> consensus.parents == old(consensus.parents)
      ensures store.database.Valid() && old(store.database.history) <= store.database.history
      ensures ParentsSince(store.database.history, |old(store.database.history)|, None)
      ensures ok ==> parents in consensus.world && Copied(consensus.world[parents], |consensus.world[parents]|)
      ensures ok && consensus.frozen ==> parents == consensus.parents
      ensures ok ==> store.database.faults == old(store.database.faults)
      ensures !ok && consensus.frozen ==> store.database.faults > old(store.database.faults) || !consensus.reliable
    {
      hide Total, Extended, SumOf, ValidWorld;
      parents := [];
      ok := store.DeleteAll();
      if !ok {
        return;
      }
      consensus.Interleave();
      var failed := *;
      if failed && !consensus.reliable {
        return false, parents;
      }
      parents := consensus.parents;
      ok := store.InitializeCirculatingSompiSupply();
      if !ok {
        return;
      }
      TotalOfNothing();
      ok := CopyListing(parents);
    }

    method Reset() returns (ok: bool, ghost synced: seq<Hash>)
      requires Valid()
      modifies store.database, consensus
      ensures Valid() && consensus.frozen == old(consensus.frozen)
      ensures old(store.database.history) <= store.database.history
      ensures consensus.frozen ==> consensus.parents == old(consensus.parents)
      ensures ok ==>
        && synced in consensus.world
        && SyncedWith(store.database.Now(), synced, SetOf(consensus.world[synced]))
        && Mirrors(store.database.index, SetOf(consensus.world[synced]))
      ensures ok && consensus.frozen ==> synced == consensus.parents
      ensures ok ==> store.database.faults == old(store.database.faults)
      ensures !ok && consensus.frozen ==> store.database.faults > old(store.database.faults) || !consensus.reliable
    {
      hide Serialized, Total, Extended, SumOf, SetOf, Mirrors, SyncedWith;
      var parents;
      ok, parents := ClearAndCopy();
      synced := parents;
      if !ok {
        return;
      }
      assert consensus.world[parents][..|consensus.world[parents]|] == consensus.world[parents];
      var serialized := SerializeHashes(parents);
      ok := store.database.SetVirtualParents(Some(serialized));
      if ok {
        CompleteCopyIsSynced(store.database.Now(), parents, consensus.world);
      }
    }

    /** Something is staged, or the stored parents cannot be read back. */
    predicate IsUnreadable()
      reads store, store.database
    {
      store.IsAnythingStaged() ||
      (store.database.virtualParents.Some? && Deserialized(store.database.virtualParents.value).Err?)
    }

    /** Whether the stored parents are those of the current virtual; `None` on an error. */
    method IsSynced() returns (synced: Option<bool>)
      requires Valid()
      ensures synced.Some? ==>
        (synced.value <==> store.database.virtualParents.Some? &&
                           Deserialized(store.database.virtualParents.value) == HashSerialization.Ok(consensus.parents))
      ensures IsUnreadable() ==> synced.None?
      ensures synced.None? && consensus.reliable ==> IsUnreadable()
    {
      if store.IsAnythingStaged() {
        return None;
      }
      if store.database.virtualParents.None? {
        return Some(false);
      }
      var stored := DeserializeHashes(store.database.virtualParents.value);
      if stored.Err? {
        return None;
      }
      var failed := *;
      if failed && !consensus.reliable {
        return None;
      }
      synced := Some(stored.value == consensus.parents);
    }

    /** The database records a supply and the parents of the current virtual. */
    static predicate IsUpToDate(database: Database, consensus: Consensus)
      reads database, consensus
    {
      && database.circulatingSupply.Some? && database.virtualParents.Some?
      && Deserialized(database.virtualParents.value) == HashSerialization.Ok(consensus.parents)
    }

    /**
     Opening the index on whatever a previous run left behind: a database that New accepts, with
     or without a reset, agrees with the current virtual.
     */
    static method New(database: Database, consensus: Consensus) returns (r: Option<UTXOIndex>)
      requires consensus.Valid() && consensus.frozen && database.AllHonest(consensus.world)
      modifies database, consensus
      ensures consensus.Valid() && consensus.parents == old(consensus.parents) && database.AllHonest(consensus.world)
      ensures r.Some? ==>
        && fresh(r.value) && fresh(r.value.store)
        && r.value.store.database == database && r.value.consensus == consensus
        && r.value.store.toAdd == map[] && r.value.store.toRemove == map[]
        && database.circulatingSupply == Some(Total(database.index) % TWO_64)
        && Agrees(database.index, SetOf(consensus.world[consensus.parents]))
      ensures r.Some? && old(IsUpToDate(database, consensus)) ==> database.history == old(database.history)
      ensures r.None? ==>
        || database.faults > old(database.faults) || !consensus.reliable
        || (old(database.virtualParents).Some? && Deserialized(old(database.virtualParents).value).Err?)
    {
      hide Deserialized, Serialized, SetOf, Total;
      var store := new Store(database);
      var utxoIndex := new UTXOIndex(store, consensus);
      var isSynced := utxoIndex.IsSynced();
      if isSynced.None? {
        return None;
      }
      var hasCirculatingSupplyKey := database.circulatingSupply.Some?;
      if !isSynced.value || !hasCirculatingSupplyKey {
        ghost var parents;
        var ok;
        ok, parents := utxoIndex.Reset();
        if !ok {
          return None;
        }
      } else {
        assert Honest(database.history[|database.history| - 1], consensus.world);
      }
      r := Some(utxoIndex);
    }

    /** Every staged removal carries the entry it was staged with: before, or by the given removals. */
    ghost predicate RemovesFrom(before: Index, toRemove: UtxoSet)
      reads store
    {
      var removes := store.Staged().removes;
      forall k :: k in removes ==>
        (k in before && removes[k] == before[k]) ||
        (k.1 in toRemove && k.0 == toRemove[k.1].script && removes[k] == toRemove[k.1])
    }

    method RemoveUTXOs(toRemove: UtxoSet, ghost utxos: UtxoSet) returns (ok: bool)
      requires LeadsTo(store.database.index, store.Staged(), utxos)
      requires forall o :: o in toRemove ==> o in utxos && utxos[o] == toRemove[o]
      modifies store`toAdd, store`toRemove
      ensures ok && LeadsTo(store.database.index, store.Staged(), utxos - toRemove.Keys)
      ensures RemovesFrom(old(store.Staged()).removes, toRemove)
    {
      hide LeadsTo, Flat;
      ghost var before := store.Staged();
      var remaining := toRemove.Keys;
      ghost var current := utxos;
      while remaining != {}
        invariant remaining <= toRemove.Keys && current == utxos - (toRemove.Keys - remaining)
        invariant LeadsTo(store.database.index, store.Staged(), current)
        invariant RemovesFrom(before.removes, toRemove)
        decreases remaining
      {
        var outpoint :| outpoint in remaining;
        var entry := toRemove[outpoint];
        StageRemoveLeads(store.database.index, store.Staged(), current, outpoint);
        ok := store.Remove(entry.script, outpoint, entry);
        if !ok {
          return;
        }
        remaining := remaining - {outpoint};
        current := current - {outpoint};
      }
      assert toRemove.Keys - remaining == toRemove.Keys;
      ok := true;
    }

    method AddUTXOs(toAdd: UtxoSet, ghost utxos: UtxoSet) returns (ok: bool)
      requires LeadsTo(store.database.index, store.Staged(), utxos)
      requires forall o :: o in toAdd ==> o !in utxos
      requires forall k :: k in store.Staged().removes && Holds(toAdd, k) ==>
        store.Staged().removes[k].amount == toAdd[k.1].amount
      modifies store`toAdd, store`toRemove
      ensures ok && LeadsTo(store.database.index, store.Staged(), utxos + toAdd)
      ensures RemovesFrom(old(store.Staged()).removes, map[])
    {
      hide LeadsTo, Flat;
      var remaining := toAdd.Keys;
      ghost var current := utxos;
      assert utxos + (toAdd - remaining) == utxos;
      while remaining != {}
        invariant remaining <= toAdd.Keys && current == utxos + (toAdd - remaining)
        invariant LeadsTo(store.database.index, store.Staged(), current)
        invariant RemovesFrom(old(store.Staged()).removes, map[])
        invariant forall k :: k in store.Staged().removes && Holds(toAdd, k) ==>
          store.Staged().removes[k].amount == toAdd[k.1].amount
        decreases remaining
      {
        var outpoint :| outpoint in remaining;
        var entry := toAdd[outpoint];
        assert Holds(toAdd, (entry.script, outpoint));
        StageAddLeads(store.database.index, store.Staged(), current, outpoint, entry);
        ok := store.Add(entry.script, outpoint, entry);
        if !ok {
          return;
        }
        remaining := remaining - {outpoint};
        current := current[outpoint := entry];
      }
      assert toAdd - remaining == toAdd;
      ok := true;
    }

    /**
     One virtual change: the diff is staged, and committed together with the new parents.  Whether
     or not the commit succeeds, index and stage together lead to the new UTXO set.
     */
    method Update(diff: Diff, virtualParents: seq<Hash>, ghost utxos: UtxoSet)
      returns (ok: bool, added: Nested, removed: Nested)
      requires Valid()
      requires LeadsTo(store.database.index, store.Staged(), utxos) && ValidDiff(utxos, diff)
      requires forall k :: k in store.Staged().removes && Holds(diff.toAdd, k) ==>
        store.Staged().removes[k].amount == diff.toAdd[k.1].amount
      requires virtualParents in consensus.world && SetOf(consensus.world[virtualParents]) == Apply(utxos, diff)
      requires store.database.circulatingSupply.Some? ==>
        store.database.circulatingSupply.value == Total(store.database.index) % TWO_64
      modifies store, store.database
      ensures Valid() && LeadsTo(store.database.index, store.Staged(), Apply(utxos, diff))
      ensures !ok ==> store.database.Now() == old(store.database.Now()) && store.database.history == old(store.database.history)
      ensures !ok ==> store.database.faults > old(store.database.faults) || old(store.database.circulatingSupply).None?
      ensures ok ==>
        && store.database.faults == old(store.database.faults)
        && store.toAdd == map[] && store.toRemove == map[]
        && store.database.history == old(store.database.history) + [store.database.Now()]
        && Refreshes(old(store.database.index), store.database.index, Apply(utxos, diff))
        && Agrees(store.database.index, Apply(utxos, diff))
        && store.database.virtualParents == Some(Serialized(virtualParents))
        && (store.database.circulatingSupply.Some? <==> old(store.database.circulatingSupply).Some?)
        && (store.database.circulatingSupply.Some? ==>
            store.database.circulatingSupply.value == Total(store.database.index) % TWO_64)
        && (forall k :: k in Flat(added) <==> k in store.database.index && k !in old(store.database.index))
        && (forall k :: k in Flat(removed) <==> k !in store.database.index && k in old(store.database.index))
        && (forall k :: k in Flat(added) ==> k.1 in Apply(utxos, diff) && Flat(added)[k] == Apply(utxos, diff)[k.1])
        && (forall k :: k in Flat(removed) ==> Flat(removed)[k].amount == old(store.database.index)[k].amount)
        && (forall k :: k in Flat(removed) && k !in old(store.Staged()).removes ==>
              k.1 in diff.toRemove && Flat(removed)[k] == diff.toRemove[k.1])
    {
      hide Total, SetOf, Flat, Honest, LeadsTo, Refreshes, Agrees, Committed, Serialized, ValidDiff, Apply;
      added, removed := map[], map[];
      ok := StageDiff(diff, utxos);
      if !ok {
        return;
      }
      store.virtualParents := virtualParents;
      added, removed := store.toAdd, store.toRemove;
      ghost var index, stage := store.database.index, store.Staged();
      CommitReaches(index, stage, Apply(utxos, diff));
      StagedIsNet(index, stage, Apply(utxos, diff));
      SupplyFollows(Total(index), Total(stage.adds), Total(stage.removes), Total(Committed(index, stage)));
      ok := store.Commit();
      if ok {
        SyncedOrUnsupplied(store.database.Now(), virtualParents, consensus.world);
        EmptyStage();
      }
    }

    /** The parents the database stands at. */
    method CurrentParents(ghost parents: seq<Hash>) returns (stored: seq<Hash>)
      requires consensus.Valid() && parents in consensus.world && IsSyncedAt(parents)
      ensures stored == parents
    {
      hide Serialized, Deserialized;
      StoredParentsReadBack(parents);
      var read := DeserializeHashes(store.database.virtualParents.value);
      stored := read.value;
    }

    method StageDiff(diff: Diff, ghost utxos: UtxoSet) returns (ok: bool)
      requires LeadsTo(store.database.index, store.Staged(), utxos) && ValidDiff(utxos, diff)
      requires forall k :: k in store.Staged().removes && Holds(diff.toAdd, k) ==>
        store.Staged().removes[k].amount == diff.toAdd[k.1].amount
      modifies store`toAdd, store`toRemove
      ensures ok && LeadsTo(store.database.index, store.Staged(), Apply(utxos, diff))
      ensures RemovesFrom(old(store.Staged()).removes, diff.toRemove)
    {
      hide LeadsTo, Flat;
      ok := RemoveUTXOs(diff.toRemove, utxos);
      if !ok {
        return;
      }
      ok := AddUTXOs(diff.toAdd, utxos - diff.toRemove.Keys);
    }

    /** Nothing is staged, and the database is synchronised with the given parents. */
    ghost predicate IsSyncedAt(parents: seq<Hash>)
      requires parents in consensus.world
      reads store, store.database
    {
      && store.toAdd == map[] && store.toRemove == map[]
      && SyncedWith(store.database.Now(), parents, SetOf(consensus.world[parents]))
      && LeadsTo(store.database.index, Stage(map[], map[]), SetOf(consensus.world[parents]))
    }

    lemma SyncedFacts(parents: seq<Hash>)
      requires parents in consensus.world && IsSyncedAt(parents)
      ensures store.toAdd == map[] && store.toRemove == map[]
      ensures store.database.virtualParents == Some(Serialized(parents))
      ensures Agrees(store.database.index, SetOf(consensus.world[parents]))
      ensures store.database.circulatingSupply == Some(Total(store.database.index) % TWO_64)
    {
    }

    /** A reset with nothing staged. */
    method SyncAnew() returns (ok: bool, ghost next: seq<Hash>)
      requires Valid() && store.toAdd == map[] && store.toRemove == map[]
      modifies store.database, consensus
      ensures Valid() && old(store.database.history) <= store.database.history && consensus.frozen == old(consensus.frozen)
      ensures ok ==>
        && store.database.faults == old(store.database.faults)
        && next in consensus.world && IsSyncedAt(next) && Mirrors(store.database.index, SetOf(consensus.world[next]))
      ensures ok && consensus.frozen ==> next == consensus.parents
      ensures !ok ==> store.database.faults > old(store.database.faults) || !consensus.reliable || !consensus.frozen
    {
      hide Total, SetOf, Honest, Serialized, Agrees, Mirrors, LeadsTo;
      ok, next := Reset();
      if ok {
        MirrorsLeads(store.database.index, SetOf(consensus.world[next]));
      }
    }

    /** One reset or update of a synchronised index. */
    method Perform(action: Action, ghost parents: seq<Hash>) returns (ok: bool, ghost next: seq<Hash>)
      requires Valid() && parents in consensus.world && IsSyncedAt(parents)
      requires action.Follow? ==> ValidChange(consensus.world, parents, action.change)
      modifies store, store.database, consensus
      ensures Valid() && old(store.database.history) <= store.database.history && consensus.frozen == old(consensus.frozen)
      ensures ok ==>
        && store.database.faults == old(store.database.faults)
        && next in consensus.world && IsSyncedAt(next) && (action.Follow? ==> next == action.change.virtualParents)
        && (action.Resync? || (SameEntries(action.change.diff) && Mirrors(old(store.database.index), SetOf(consensus.world[parents]))) ==>
              Mirrors(store.database.index, SetOf(consensus.world[next])))
      ensures !ok ==> store.database.faults > old(store.database.faults) || !consensus.reliable || !consensus.frozen
    {
      hide Total, Flat, SetOf, Honest, Serialized, ValidDiff, Apply, Agrees, Mirrors, Refreshes, LeadsTo, SameEntries;
      EmptyStage();
      if action.Resync? {
        ok, next := SyncAnew();
      } else {
        var Change(diff, virtualParents) := action.change;
        next := virtualParents;
        ghost var before, utxos := store.database.index, SetOf(consensus.world[parents]);
        var added, removed;
        ok, added, removed := Update(diff, virtualParents, utxos);
        if ok && Mirrors(before, utxos) {
          UpdateMirrorsWhenSame(before, store.database.index, utxos, diff);
        }
      }
    }

    /**
     Every run of a reset followed by any number of updates and further resets, on a node whose
     virtual may move at any time.  What happens next may depend on where the index stands; an
     update is given a diff from the UTXO set of the stored parents to that of the next ones.  All
     durable states on the way are honest.  When no step fails, the index agrees with the set of
     the last parents and the supply is its sum; it mirrors that set entry by entry if no diff
     since the last reset puts different entries for one key on its two sides.
     */
    method FollowVirtual(script: (nat, seq<Hash>) -> Action, steps: nat) returns (ok: bool, ghost visited: seq<seq<Hash>>)
      requires Valid() && store.toAdd == map[] && store.toRemove == map[]
      requires ValidScript(consensus.world, script)
      modifies store, store.database, consensus
      ensures Valid() && old(store.database.history) <= store.database.history
      ensures ok ==>
        && IsTrace(script, visited) && |visited| == steps + 1 && visited[steps] in consensus.world
        && store.database.virtualParents == Some(Serialized(visited[steps]))
        && Agrees(store.database.index, SetOf(consensus.world[visited[steps]]))
        && store.database.circulatingSupply == Some(Total(store.database.index) % TWO_64)
        && store.toAdd == map[] && store.toRemove == map[]
      ensures ok && KeepsEntries(script, visited, steps) ==>
        Mirrors(store.database.index, SetOf(consensus.world[visited[steps]]))
      ensures ok && steps == 0 && consensus.frozen ==> visited[0] == consensus.parents
      ensures !ok ==> store.database.faults > old(store.database.faults) || !consensus.reliable || !consensus.frozen
    {
      hide Total, SetOf, Serialized, Agrees, Mirrors, SameEntries, ValidChange, ValidScript, KeepsEntries, IsTrace, IsSyncedAt, Honest, ValidWorld;
      ghost var parents;
      ok, parents := SyncAnew();
      visited := [parents];
      TraceBegins(script, parents);
      if !ok {
        return;
      }
      for i := 0 to steps
        invariant Valid() && old(store.database.history) <= store.database.history
        invariant store.database.faults == old(store.database.faults) && consensus.frozen == old(consensus.frozen)
        invariant IsTrace(script, visited) && |visited| == i + 1 && visited[i] in consensus.world
        invariant i == 0 && consensus.frozen ==> visited[0] == consensus.parents
        invariant IsSyncedAt(visited[i])
        invariant KeepsEntries(script, visited, i) ==> Mirrors(store.database.index, SetOf(consensus.world[visited[i]]))
      {
        consensus.Interleave();
        var stored := CurrentParents(visited[i]);
        var action := script(i, stored);
        ScriptedChange(consensus.world, script, i, visited[i]);
        ghost var next;
        ok, next := Perform(action, visited[i]);
        if !ok {
          return;
        }
        TraceExtends(script, visited, next);
        KeepsEntriesExtends(script, visited, next);
        visited := visited + [next];
      }
      SyncedFacts(visited[steps]);
      ok := true;
    }
  }

  lemma UpdateMirrorsWhenSame(before: Index, after: Index, utxos: UtxoSet, diff: Diff)
    requires Mirrors(before, utxos) && ValidDiff(utxos, diff) && Refreshes(before, after, Apply(utxos, diff))
    ensures SameEntries(diff) ==> Mirrors(after, Apply(utxos, diff))
  {
    hide Mirrors, ValidDiff, Refreshes, Apply;
    UpdateMirrorsExactlyWhen(before, after, utxos, diff);
  }

  lemma MirrorsLeads(index: Index, utxos: UtxoSet)
    requires Mirrors(index, utxos)
    ensures Agrees(index, utxos) && LeadsTo(index, Stage(map[], map[]), utxos)
  {
    forall k: Key
      ensures WillHold(index, Stage(map[], map[]), k) <==> k in index
    {
    }
  }

  /** One step of the virtual: the diff to its new UTXO set, and its new parents. */
  datatype Change = Change(diff: Diff, virtualParents: seq<Hash>)

  /** Outputs on both sides of the diff under one script carry identical entries. */
  ghost predicate SameEntries(diff: Diff) {
    forall o :: o in diff.toAdd && o in diff.toRemove && diff.toAdd[o].script == diff.toRemove[o].script ==>
                  diff.toAdd[o] == diff.toRemove[o]
  }

  /** What happens next: a new reset, or an update. */
  datatype Action = Resync | Follow(change: Change)

  /** The diff leads from the UTXO set of the parents to that of the new parents. */
  ghost predicate ValidChange(world: World, parents: seq<Hash>, change: Change)
    requires parents in world
  {
    && ValidDiff(SetOf(world[parents]), change.diff)
    && change.virtualParents in world
    && SetOf(world[change.virtualParents]) == Apply(SetOf(world[parents]), change.diff)
  }

  ghost predicate ValidScript(world: World, script: (nat, seq<Hash>) -> Action) {
    forall i: nat, parents: seq<Hash> :: parents in world && script(i, parents).Follow? ==>
      ValidChange(world, parents, script(i, parents).change)
  }

  lemma ScriptedChange(world: World, script: (nat, seq<Hash>) -> Action, i: nat, parents: seq<Hash>)
    requires ValidScript(world, script) && parents in world
    ensures script(i, parents).Follow? ==> ValidChange(world, parents, script(i, parents).change)
  {
  }

  /** An update moves on to the parents of its change. */
  predicate IsStep(script: (nat, seq<Hash>) -> Action, i: nat, parents: seq<Hash>, next: seq<Hash>) {
    script(i, parents).Follow? ==> next == script(i, parents).change.virtualParents
  }

  /** The parents the index has stood at, one after the other. */
  ghost predicate IsTrace(script: (nat, seq<Hash>) -> Action, visited: seq<seq<Hash>>) {
    forall i :: 0 <= i < |visited| - 1 ==> IsStep(script, i, visited[i], visited[i + 1])
  }

  /** Since the last reset no diff puts different entries for one key on its two sides. */
  ghost predicate KeepsEntries(script: (nat, seq<Hash>) -> Action, visited: seq<seq<Hash>>, n: nat)
    requires n < |visited|
  {
    n == 0 || script(n - 1, visited[n - 1]).Resync? ||
    (SameEntries(script(n - 1, visited[n - 1]).change.diff) && KeepsEntries(script, visited, n - 1))
  }

  lemma {:induction false} KeepsEntriesOfPrefix(script: (nat, seq<Hash>) -> Action, visited: seq<seq<Hash>>, more: seq<seq<Hash>>, n: nat)
    requires n < |visited|
    ensures KeepsEntries(script, visited + more, n) <==> KeepsEntries(script, visited, n)
  {
    hide SameEntries;
    if n > 0 {
      KeepsEntriesOfPrefix(script, visited, more, n - 1);
    }
  }

  lemma TraceBegins(script: (nat, seq<Hash>) -> Action, parents: seq<Hash>)
    ensures IsTrace(script, [parents]) && KeepsEntries(script, [parents], 0)
  {
  }

  lemma TraceExtends(script: (nat, seq<Hash>) -> Action, visited: seq<seq<Hash>>, next: seq<Hash>)
    requires |visited| > 0 && IsTrace(script, visited) && IsStep(script, |visited| - 1, visited[|visited| - 1], next)
    ensures IsTrace(script, visited + [next])
  {
    hide IsStep;
  }

  lemma KeepsEntriesExtends(script: (nat, seq<Hash>) -> Action, visited: seq<seq<Hash>>, next: seq<Hash>)
    requires |visited| > 0
    ensures var last := script(|visited| - 1, visited[|visited| - 1]);
            KeepsEntries(script, visited + [next], |visited|) <==>
            last.Resync? || (SameEntries(last.change.diff) && KeepsEntries(script, visited, |visited| - 1))
  {
    hide SameEntries;
    KeepsEntriesOfPrefix(script, visited, [next], |visited| - 1);
  }

  lemma EmptyStage()
    ensures Flat(map[]) == map[]
  {
  }

  lemma SyncedOrUnsupplied(d: Durable, parents: seq<Hash>, world: World)
    requires ValidWorld(world) && parents in world
    requires d.circulatingSupply.Some? ==> SyncedWith(d, parents, SetOf(world[parents]))
    ensures Honest(d, world)
  {
    hide Deserialized, Serialized, SetOf, Total;
    if d.circulatingSupply.Some? {
      SyncedIsHonest(d, parents, world);
    }
  }
}
