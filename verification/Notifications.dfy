/**
 Which changed UTXOs a listener is told about.

 As an optimisation the listener either walks over the changes or over its addresses, whichever
 is fewer.  The specification is the plain filter, as a count: an entry is reported once for
 every changed script that the listener watches and that has it among its changes.
 */
module Notifications {
  import opened Basics
  import opened UtxoStaging
  import opened UtxoIndex

  datatype Address = Address(address: string, script: Script)

  datatype Notice = Notice(address: string, outpoint: Outpoint, entry: Entry)

  datatype Notification = Notification(added: seq<Notice>, removed: seq<Notice>)

  type Addresses = map<Script, Address>

  /** Every address is filed under its own script. */
  predicate Filed(addresses: Addresses) {
    forall s :: s in addresses ==> addresses[s].script == s
  }

  /** The addresses filed one after the other; of two for one script the later one stays. */
  function Joined(addresses: Addresses, more: seq<Address>): Addresses {
    if |more| == 0 then addresses
    else
      var last := more[|more| - 1];
      Joined(addresses, more[..|more| - 1])[last.script := last]
  }

  /** Of the new addresses for a script the last one stays. */
  lemma {:induction false} LastJoins(addresses: Addresses, more: seq<Address>, i: nat)
    requires i < |more| && forall j :: i < j < |more| ==> more[j].script != more[i].script
    ensures more[i].script in Joined(addresses, more) && Joined(addresses, more)[more[i].script] == more[i]
    decreases |more|
  {
    if i < |more| - 1 {
      LastJoins(addresses, more[..|more| - 1], i);
    }
  }

  /** A script that no new address has keeps its old address, or none. */
  lemma {:induction false} OthersRemain(addresses: Addresses, more: seq<Address>, s: Script)
    requires forall i :: 0 <= i < |more| ==> more[i].script != s
    ensures s in Joined(addresses, more) <==> s in addresses
    ensures s in addresses ==> Joined(addresses, more)[s] == addresses[s]
    decreases |more|
  {
    if |more| > 0 {
      OthersRemain(addresses, more[..|more| - 1], s);
    }
  }

  // ---------------------------------------------------------------------------------------
  // The plain filter
  // ---------------------------------------------------------------------------------------

  /** The changes of one script, reported under the given address, contain the notice. */
  predicate Reports(address: string, pairs: map<Outpoint, Entry>, n: Notice) {
    n.address == address && n.outpoint in pairs && pairs[n.outpoint] == n.entry
  }

  /** The watched scripts, among the given ones, whose changes contain the notice. */
  ghost function Sources(changes: Nested, names: map<Script, string>, scripts: set<Script>, n: Notice): set<Script> {
    set s | s in scripts && s in changes && s in names && Reports(names[s], changes[s], n)
  }

  /** Every notice is reported once for each of its sources. */
  ghost predicate Reported(notices: seq<Notice>, changes: Nested, names: map<Script, string>, scripts: set<Script>) {
    forall n: Notice :: multiset(notices)[n] == |Sources(changes, names, scripts, n)|
  }

  /** The notices are those of the plain filter of the changes by the watched scripts. */
  ghost predicate Filters(notices: seq<Notice>, changes: Nested, names: map<Script, string>) {
    Reported(notices, changes, names, changes.Keys)
  }

  /** The address strings of a listener, by script. */
  function Names(addresses: Addresses): map<Script, string> {
    map s | s in addresses :: addresses[s].address
  }

  /** A notice is reported if and only if some changed and named script has its entry, under its address string. */
  lemma FilterReports(notices: seq<Notice>, changes: Nested, names: map<Script, string>, n: Notice)
    requires Filters(notices, changes, names)
    ensures n in notices <==>
            exists s :: s in changes && s in names && names[s] == n.address && n.outpoint in changes[s] && changes[s][n.outpoint] == n.entry
  {
    var sources := Sources(changes, names, changes.Keys, n);
    assert multiset(notices)[n] == |sources|;
    if n in notices {
      assert sources != {};
      var s :| s in sources;
      assert Reports(names[s], changes[s], n);
    }
    if s :| s in changes && s in names && names[s] == n.address && n.outpoint in changes[s] && changes[s][n.outpoint] == n.entry {
      assert s in sources;
    }
  }

  /** A listener watches its scripts under the address strings it was given for them. */
  lemma NamesAreAddresses(addresses: Addresses, s: Script)
    ensures s in Names(addresses) <==> s in addresses
    ensures s in addresses ==> Names(addresses)[s] == addresses[s].address
  {
  }

  /** The filter leaves no choice but the order. */
  lemma FilterIsUnique(a: seq<Notice>, b: seq<Notice>, changes: Nested, names: map<Script, string>)
    requires Filters(a, changes, names) && Filters(b, changes, names)
    ensures multiset(a) == multiset(b)
  {
  }

  /** Walking over the scripts of the changes or over the watched scripts finds the same sources. */
  lemma EitherWalkFilters(notices: seq<Notice>, changes: Nested, names: map<Script, string>)
    requires Reported(notices, changes, names, names.Keys)
    ensures Filters(notices, changes, names)
  {
    forall n: Notice
      ensures Sources(changes, names, names.Keys, n) == Sources(changes, names, changes.Keys, n)
    {
    }
  }

  lemma NothingReported(changes: Nested, names: map<Script, string>)
    ensures Reported([], changes, names, {})
  {
    forall n: Notice
      ensures Sources(changes, names, {}, n) == {}
    {
    }
  }

  /** Visiting a script that is not watched or not changed reports nothing. */
  lemma SkipScript(notices: seq<Notice>, changes: Nested, names: map<Script, string>, scripts: set<Script>, s: Script)
    requires Reported(notices, changes, names, scripts) && (s !in changes || s !in names)
    ensures Reported(notices, changes, names, scripts + {s})
  {
    forall n: Notice
      ensures Sources(changes, names, scripts + {s}, n) == Sources(changes, names, scripts, n)
    {
    }
  }

  /** The notices of one script: each of its changed entries once. */
  ghost predicate ReportsOnce(notices: seq<Notice>, address: string, pairs: map<Outpoint, Entry>) {
    forall n: Notice :: multiset(notices)[n] == if Reports(address, pairs, n) then 1 else 0
  }

  /** Visiting a watched and changed script reports its entries. */
  lemma VisitScript(notices: seq<Notice>, more: seq<Notice>, changes: Nested, names: map<Script, string>, scripts: set<Script>, s: Script)
    requires Reported(notices, changes, names, scripts) && s in changes && s in names && s !in scripts
    requires ReportsOnce(more, names[s], changes[s])
    ensures Reported(notices + more, changes, names, scripts + {s})
  {
    forall n: Notice
      ensures multiset(notices + more)[n] == |Sources(changes, names, scripts + {s}, n)|
    {
      var before, after := Sources(changes, names, scripts, n), Sources(changes, names, scripts + {s}, n);
      if Reports(names[s], changes[s], n) {
        assert after == before + {s};
      } else {
        assert after == before;
      }
    }
  }

  /** Each pair becomes one notice, in any order. */
  method ConvertPairs(address: string, pairs: map<Outpoint, Entry>) returns (notices: seq<Notice>)
    ensures ReportsOnce(notices, address, pairs)
  {
    notices := [];
    var remaining := pairs.Keys;
    while remaining != {}
      invariant remaining <= pairs.Keys
      invariant forall n: Notice ::
        multiset(notices)[n] == if Reports(address, pairs, n) && n.outpoint !in remaining then 1 else 0
      decreases remaining
    {
      var outpoint :| outpoint in remaining;
      notices := notices + [Notice(address, outpoint, pairs[outpoint])];
      remaining := remaining - {outpoint};
    }
  }

  // ---------------------------------------------------------------------------------------
  // Listeners
  // ---------------------------------------------------------------------------------------

  class NotificationListener {
    var propagates: bool
    var addresses: Addresses

    ghost predicate Valid()
      reads this
    {
      Filed(addresses)
    }

    constructor ()
      ensures Valid() && !propagates && addresses == map[]
    {
      propagates, addresses := false, map[];
    }

    /** The given addresses join those already watched; the first call starts from none. */
    method Propagate(more: seq<Address>)
      requires Valid()
      modifies this
      ensures Valid() && propagates
      ensures addresses == Joined(if old(propagates) then old(addresses) else map[], more)
    {
      if !propagates {
        propagates := true;
        addresses := map[];
      }
      ghost var start := addresses;
      for i := 0 to |more|
        invariant Valid() && propagates && addresses == Joined(start, more[..i])
      {
        assert more[..i + 1][..i] == more[..i];
        addresses := addresses[more[i].script := more[i]];
      }
      assert more[..|more|] == more;
    }

    /** The given addresses are no longer watched. */
    method StopPropagating(fewer: seq<Address>)
      requires Valid()
      modifies this
      ensures Valid() && propagates == old(propagates)
      ensures addresses == if propagates then old(addresses) - set i | 0 <= i < |fewer| :: fewer[i].script else old(addresses)
    {
      if !propagates {
        return;
      }
      for i := 0 to |fewer|
        invariant Valid() && propagates
        invariant addresses == old(addresses) - set j | 0 <= j < i :: fewer[j].script
      {
        addresses := addresses - {fewer[i].script};
      }
    }

    /** Walking over the changes. */
    method IterateChanges(changes: Nested) returns (notices: seq<Notice>)
      requires Valid()
      ensures Filters(notices, changes, Names(addresses))
    {
      hide Reported, ReportsOnce;
      notices := [];
      ghost var names := Names(addresses);
      var remaining := changes.Keys;
      NothingReported(changes, names);
      assert changes.Keys - remaining == {};
      while remaining != {}
        invariant remaining <= changes.Keys && Reported(notices, changes, names, changes.Keys - remaining)
        decreases remaining
      {
        var script :| script in remaining;
        ghost var visited := changes.Keys - remaining;
        if script in addresses {
          var entries := ConvertPairs(addresses[script].address, changes[script]);
          VisitScript(notices, entries, changes, names, visited, script);
          notices := notices + entries;
        } else {
          SkipScript(notices, changes, names, visited, script);
        }
        remaining := remaining - {script};
        assert changes.Keys - remaining == visited + {script};
      }
      assert changes.Keys - remaining == changes.Keys;
    }

    /** Walking over the addresses, which are looked up by their own script. */
    method IterateAddresses(added: Nested, removed: Nested) returns (notification: Notification)
      requires Valid()
      ensures Filters(notification.added, added, Names(addresses)) && Filters(notification.removed, removed, Names(addresses))
    {
      hide Reported, ReportsOnce;
      notification := Notification([], []);
      ghost var names := Names(addresses);
      var remaining := addresses.Keys;
      NothingReported(added, names);
      NothingReported(removed, names);
      assert addresses.Keys - remaining == {};
      while remaining != {}
        invariant remaining <= addresses.Keys
        invariant Reported(notification.added, added, names, addresses.Keys - remaining)
        invariant Reported(notification.removed, removed, names, addresses.Keys - remaining)
        decreases remaining
      {
        var key :| key in remaining;
        ghost var visited := addresses.Keys - remaining;
        var listenerAddress := addresses[key];
        var script := listenerAddress.script;
        if script in added {
          var entries := ConvertPairs(listenerAddress.address, added[script]);
          VisitScript(notification.added, entries, added, names, visited, script);
          notification := notification.(added := notification.added + entries);
        } else {
          SkipScript(notification.added, added, names, visited, script);
        }
        if script in removed {
          var entries := ConvertPairs(listenerAddress.address, removed[script]);
          VisitScript(notification.removed, entries, removed, names, visited, script);
          notification := notification.(removed := notification.removed + entries);
        } else {
          SkipScript(notification.removed, removed, names, visited, script);
        }
        remaining := remaining - {key};
        assert addresses.Keys - remaining == visited + {key};
      }
      assert addresses.Keys - remaining == names.Keys;
      EitherWalkFilters(notification.added, added, names);
      EitherWalkFilters(notification.removed, removed, names);
    }

    /** Without addresses every script is reported, under the name it resolves to. */
    method IterateAll(changes: Nested, resolve: Script -> Option<string>) returns (notices: Option<seq<Notice>>)
      ensures notices.None? <==> exists s :: s in changes && resolve(s).None?
      ensures notices.Some? ==> Filters(notices.value, changes, Resolved(changes, resolve))
    {
      hide Reported, ReportsOnce;
      var result := [];
      ghost var names := Resolved(changes, resolve);
      var remaining := changes.Keys;
      NothingReported(changes, names);
      assert changes.Keys - remaining == {};
      while remaining != {}
        invariant remaining <= changes.Keys && Reported(result, changes, names, changes.Keys - remaining)
        invariant forall s :: s in changes && s !in remaining ==> resolve(s).Some?
        decreases remaining
      {
        var script :| script in remaining;
        ghost var visited := changes.Keys - remaining;
        var name := resolve(script);
        if name.None? {
          return None;
        }
        var entries := ConvertPairs(name.value, changes[script]);
        VisitScript(result, entries, changes, names, visited, script);
        result := result + entries;
        remaining := remaining - {script};
        assert changes.Keys - remaining == visited + {script};
      }
      assert changes.Keys - remaining == changes.Keys;
      notices := Some(result);
    }

    /**
     The notification for a change: whichever way it is computed, it is the plain filter by the
     watched scripts, or everything when no address is watched.
     */
    method ConvertUTXOChangesToNotification(added: Nested, removed: Nested, resolve: Script -> Option<string>)
      returns (notification: Option<Notification>)
      requires Valid()
      ensures |addresses| > 0 ==>
        && notification.Some?
        && Filters(notification.value.added, added, Names(addresses))
        && Filters(notification.value.removed, removed, Names(addresses))
      ensures |addresses| == 0 ==>
        (notification.None? <==> exists s :: (s in added || s in removed) && resolve(s).None?)
      ensures |addresses| == 0 && notification.Some? ==>
        && Filters(notification.value.added, added, Resolved(added, resolve))
        && Filters(notification.value.removed, removed, Resolved(removed, resolve))
    {
      hide Filters;
      var utxoChangesSize := |added| + |removed|;
      var addressesSize := |addresses|;
      if utxoChangesSize < addressesSize {
        var addedNotices := IterateChanges(added);
        var removedNotices := IterateChanges(removed);
        notification := Some(Notification(addedNotices, removedNotices));
      } else if addressesSize > 0 {
        var result := IterateAddresses(added, removed);
        notification := Some(result);
      } else {
        var addedNotices := IterateAll(added, resolve);
        if addedNotices.None? {
          return None;
        }
        var removedNotices := IterateAll(removed, resolve);
        if removedNotices.None? {
          return None;
        }
        notification := Some(Notification(addedNotices.value, removedNotices.value));
      }
    }
  }

  /** The names of the changed scripts that resolve to an address string. */
  function Resolved(changes: Nested, resolve: Script -> Option<string>): map<Script, string> {
    map s | s in changes && resolve(s).Some? :: resolve(s).value
  }
}
