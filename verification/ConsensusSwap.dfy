/**
 Swapping the consensus under a running node: a staging consensus is built under the inactive
 database prefix, made active in one transaction, and the old prefix is erased key by key.

 The node is a step system.  Every step is at most one durable write; a crash may come before
 any of them; the live and the staging consensus, and a consensus that is being built, write their
 own keys at any time in between.
 */
module ConsensusSwap {
  import opened Basics

  datatype Prefix = Zero | One {
    function Flip(): Prefix {
      if this == Zero then One else Zero
    }
  }

  /** A consensus key of the database, under its prefix. */
  type Key = (Prefix, nat)

  /** The prefix records and the consensus keys: what survives a crash. */
  datatype Durable = Durable(active: Option<Prefix>, inactive: Option<Prefix>, keys: set<Key>)

  /** The operation that erases the inactive prefix. */
  datatype Task = ForNew | ForCommit | ForDelete

  /** Where the one operation that holds the lock stands. */
  datatype Phase =
    | Down                                                // no process is running
    | Idle
    | Recorded                                            // staging: the prefix is recorded, the consensus not built
    | Swapped                                             // commit: the transaction is done
    | Erasing(prefix: Prefix, cursor: set<Key>, task: Task) // the keys the cursor has yet to visit
    | Erased(task: Task)                                  // nothing is recorded as inactive any more

  /** `live` and `staging` are the prefixes of the two consensus instances in memory. */
  datatype State = State(durable: Durable, live: Option<Prefix>, staging: Option<Prefix>, phase: Phase)

  datatype Event =
    | Boot
    | InitStaging
    | BuildWrite(n: nat)
    | BuildStaging
    | CommitSwap
    | BeginErase
    | BeginDelete
    | EraseKey(key: Key)
    | Forget
    | Finish
    | Fail
    | Crash
    | LiveWrite(n: nat)
    | LiveRemove(n: nat)
    | StagingWrite(n: nat)
    | StagingRemove(n: nat)

  function Under(keys: set<Key>, p: Prefix): set<Key> {
    set k | k in keys && k.0 == p
  }

  /** The start of an erasure: a snapshot of the keys under the inactive prefix, if there is one. */
  function EraseFrom(d: Durable, task: Task): Phase {
    if d.inactive.None? then Erased(task) else Erasing(d.inactive.value, Under(d.keys, d.inactive.value), task)
  }

  /** One step; `None` when the event cannot happen. */
  function Step(s: State, e: Event): Option<State> {
    match e
    case Boot => if s.phase == Down then Some(State(s.durable, None, None, EraseFrom(s.durable, ForNew))) else None
    case InitStaging =>
      if s.phase == Idle && s.durable.inactive == None && s.durable.active.Some?
      then Some(s.(durable := s.durable.(inactive := Some(s.durable.active.value.Flip())), phase := Recorded)) else None
    case BuildWrite(n) =>
      if s.phase == Recorded && s.durable.inactive.Some? then Some(Put(s, (s.durable.inactive.value, n))) else None
    case BuildStaging => if s.phase == Recorded then Some(s.(staging := s.durable.inactive, phase := Idle)) else None
    case CommitSwap =>
      if s.phase == Idle && s.durable.inactive.Some? && s.durable.active.Some?
      then Some(s.(durable := s.durable.(active := s.durable.inactive, inactive := s.durable.active), phase := Swapped))
      else None
    case BeginErase => if s.phase == Swapped then Some(s.(phase := EraseFrom(s.durable, ForCommit))) else None
    case BeginDelete => if s.phase == Idle then Some(s.(phase := EraseFrom(s.durable, ForDelete))) else None
    case EraseKey(key) =>
      if s.phase.Erasing? && key in s.phase.cursor
      then Some(s.(durable := s.durable.(keys := s.durable.keys - {key}), phase := s.phase.(cursor := s.phase.cursor - {key})))
      else None
    case Forget =>
      if s.phase.Erasing? && s.phase.cursor == {}
      then Some(s.(durable := s.durable.(inactive := None), phase := Erased(s.phase.task))) else None
    case Finish =>
      if !s.phase.Erased? then None
      else (match s.phase.task
        case ForNew =>
          var active := if s.durable.active.None? then Some(Zero) else s.durable.active;
          Some(State(s.durable.(active := active), active, None, Idle))
        case ForCommit => Some(s.(live := s.staging, staging := None, phase := Idle))
        case ForDelete => Some(s.(staging := None, phase := Idle)))
    case Fail =>
      if s.phase == Down || s.phase == Idle then None
      else if (s.phase.Erasing? || s.phase.Erased?) && s.phase.task == ForNew then Some(State(s.durable, None, None, Down))
      else Some(s.(phase := Idle))
    case Crash => Some(State(s.durable, None, None, Down))
    case LiveWrite(n) => if s.live.Some? then Some(Put(s, (s.live.value, n))) else None
    case LiveRemove(n) => if s.live.Some? then Some(Remove(s, (s.live.value, n))) else None
    case StagingWrite(n) => if s.staging.Some? then Some(Put(s, (s.staging.value, n))) else None
    case StagingRemove(n) => if s.staging.Some? then Some(Remove(s, (s.staging.value, n))) else None
  }

  function Put(s: State, key: Key): State {
    s.(durable := s.durable.(keys := s.durable.keys + {key}))
  }

  function Remove(s: State, key: Key): State {
    s.(durable := s.durable.(keys := s.durable.keys - {key}))
  }

  function Exec(s: State, events: seq<Event>): Option<State> {
    if |events| == 0 then Some(s)
    else
      var before := Exec(s, events[..|events| - 1]);
      if before.None? then None else Step(before.value, events[|events| - 1])
  }

  // ---------------------------------------------------------------------------------------
  // What every durable state keeps
  // ---------------------------------------------------------------------------------------

  /** The prefix is recorded as active or inactive. */
  predicate IsRecorded(d: Durable, p: Prefix) {
    d.active == Some(p) || d.inactive == Some(p)
  }

  /** Active and inactive prefix differ, and every key lies under one of them. */
  predicate Sound(d: Durable) {
    && (d.inactive.Some? ==> d.active.Some? && d.active != d.inactive)
    && (forall k :: k in d.keys ==> IsRecorded(d, k.0))
  }

  /** An erasure runs over the inactive prefix, and its cursor will visit every key under it. */
  predicate Inv(s: State) {
    && Sound(s.durable)
    && (s.phase.Erasing? ==>
          && s.durable.inactive == Some(s.phase.prefix)
          && Under(s.durable.keys, s.phase.prefix) <= s.phase.cursor
          && forall k :: k in s.phase.cursor ==> k.0 == s.phase.prefix)
    && (s.phase.Erased? ==> s.durable.inactive == None)
    && (s.phase == Recorded || s.phase == Swapped ==> s.durable.inactive.Some?)
  }

  /** The key a consensus instance is about to write, if the event is such a write. */
  function Written(s: State, e: Event): Option<Key> {
    if e.LiveWrite? && s.live.Some? then Some((s.live.value, e.n))
    else if e.StagingWrite? && s.staging.Some? then Some((s.staging.value, e.n))
    else if e.BuildWrite? && s.phase == Recorded && s.durable.inactive.Some? then Some((s.durable.inactive.value, e.n))
    else None
  }

  /** The prefix of the key is recorded, and if it is being erased the cursor will still visit the key. */
  predicate MayWrite(s: State, key: Key) {
    IsRecorded(s.durable, key.0) && (s.phase.Erasing? && key.0 == s.phase.prefix ==> key in s.phase.cursor)
  }

  /** The discipline under which the node is safe: no consensus writes a key that would be left behind. */
  predicate Disciplined(s: State, e: Event) {
    Written(s, e).Some? ==> MayWrite(s, Written(s, e).value)
  }

  lemma StepKeepsInv(s: State, e: Event)
    requires Inv(s) && Step(s, e).Some? && Disciplined(s, e)
    ensures Inv(Step(s, e).value)
  {
    var t := Step(s, e).value;
    if s.phase.Erasing? && t.phase.Erasing? {
      forall k | k in Under(t.durable.keys, t.phase.prefix)
        ensures k in t.phase.cursor
      {
        assert k in s.durable.keys ==> k in Under(s.durable.keys, s.phase.prefix);
      }
    }
    if e == Forget {
      forall k | k in t.durable.keys
        ensures t.durable.active == Some(k.0)
      {
        assert k !in Under(s.durable.keys, s.phase.prefix);
      }
    }
  }

  /** A run in which every step is possible and disciplined. */
  predicate Run(s: State, events: seq<Event>) {
    |events| > 0 ==>
      && Run(s, events[..|events| - 1])
      && Exec(s, events).Some?
      && Disciplined(Exec(s, events[..|events| - 1]).value, events[|events| - 1])
  }

  /** Safety over whole runs: whatever happens, and wherever the node crashes, the durable state is sound. */
  lemma {:induction false} EveryRunIsSound(s: State, events: seq<Event>)
    requires Inv(s) && Run(s, events)
    ensures Exec(s, events).Some? && Inv(Exec(s, events).value) && Sound(Exec(s, events).value.durable)
    decreases |events|
  {
    if |events| > 0 {
      var init := events[..|events| - 1];
      EveryRunIsSound(s, init);
      StepKeepsInv(Exec(s, init).value, events[|events| - 1]);
    }
  }

  /** Erasing a prefix never touches a key under the active prefix. */
  lemma ErasureSparesActiveKeys(s: State, key: Key)
    requires Inv(s) && Step(s, EraseKey(key)).Some?
    ensures s.durable.active != Some(key.0)
  {
  }

  /** Only a consensus instance deletes keys under the active prefix. */
  lemma ActiveKeysStay(s: State, e: Event, key: Key)
    requires Inv(s) && Step(s, e).Some? && !e.LiveRemove? && !e.StagingRemove?
    requires key in s.durable.keys && s.durable.active == Some(key.0)
    ensures key in Step(s, e).value.durable.keys
  {
  }

  /**
   Erasing, one key at a time, is the only way in which the node itself deletes a key; so all keys
   of the staging consensus survive its commit, under the prefix that is then active.
   */
  lemma OnlyErasureDeletes(s: State, e: Event, key: Key)
    requires Inv(s) && Step(s, e).Some? && key in s.durable.keys && key !in Step(s, e).value.durable.keys
    ensures (e == EraseKey(key) && s.durable.inactive == Some(key.0)) || e.LiveRemove? || e.StagingRemove?
  {
  }

  /** No key appears but by a write of an instance. */
  lemma OnlyInstancesWrite(s: State, e: Event, key: Key)
    requires Step(s, e).Some? && key !in s.durable.keys && key in Step(s, e).value.durable.keys
    ensures Written(s, e) == Some(key)
  {
  }

  /** Once New is done, one prefix is active and nothing is stored under any other. */
  lemma NothingIsLeftAfterNew(s: State)
    requires Inv(s) && s.phase == Erased(ForNew)
    ensures var t := Step(s, Finish);
            && t.Some? && t.value.durable.active.Some? && t.value.durable.inactive == None && t.value.live == t.value.durable.active
            && forall k :: k in t.value.durable.keys ==> Some(k.0) == t.value.durable.active
  {
  }

  // ---------------------------------------------------------------------------------------
  // The discipline is exactly what is needed
  // ---------------------------------------------------------------------------------------

  lemma {:induction false} ExecAppends(s: State, a: seq<Event>, b: seq<Event>)
    requires Exec(s, a).Some?
    ensures Exec(s, a + b) == Exec(Exec(s, a).value, b)
    decreases |b|
  {
    if |b| == 0 {
      assert a + b == a;
    } else {
      ExecAppends(s, a, b[..|b| - 1]);
      assert (a + b)[..|a + b| - 1] == a + b[..|b| - 1];
    }
  }

  lemma {:induction false} RunAppends(s: State, a: seq<Event>, b: seq<Event>)
    requires Run(s, a) && Exec(s, a).Some? && Run(Exec(s, a).value, b)
    ensures Run(s, a + b) && Exec(s, a + b) == Exec(Exec(s, a).value, b)
    decreases |b|
  {
    hide Exec, Step, Disciplined;
    ExecAppends(s, a, b);
    if |b| == 0 {
      assert a + b == a;
    } else {
      RunAppends(s, a, b[..|b| - 1]);
      ExecAppends(s, a, b[..|b| - 1]);
      assert (a + b)[..|a + b| - 1] == a + b[..|b| - 1];
    }
  }

  lemma RunOfOne(s: State, e: Event)
    requires Step(s, e).Some? && Disciplined(s, e)
    ensures Run(s, [e]) && Exec(s, [e]) == Step(s, e)
  {
    assert [e][..0] == [];
  }

  /** The cursor can always be run to its end. */
  lemma {:induction false} ErasureCompletes(s: State) returns (events: seq<Event>)
    requires s.phase.Erasing?
    ensures Run(s, events)
    ensures Exec(s, events) == Some(s.(durable := s.durable.(keys := s.durable.keys - s.phase.cursor),
                                       phase := s.phase.(cursor := {})))
    decreases s.phase.cursor
  {
    if s.phase.cursor == {} {
      assert s.durable.keys - s.phase.cursor == s.durable.keys;
      events := [];
    } else {
      var key :| key in s.phase.cursor;
      RunOfOne(s, EraseKey(key));
      var next := Step(s, EraseKey(key)).value;
      var rest := ErasureCompletes(next);
      events := [EraseKey(key)] + rest;
      RunAppends(s, [EraseKey(key)], rest);
      assert next.durable.keys - next.phase.cursor == s.durable.keys - s.phase.cursor;
    }
  }

  /** After a forbidden write, some disciplined continuation reaches an unsound durable state. */
  lemma ForbiddenWriteLosesKeys(s: State, e: Event) returns (events: seq<Event>)
    requires Inv(s) && Step(s, e).Some? && Written(s, e).Some? && !MayWrite(s, Written(s, e).value)
    ensures Run(Step(s, e).value, events) && Exec(Step(s, e).value, events).Some?
    ensures !Sound(Exec(Step(s, e).value, events).value.durable)
  {
    var key := Written(s, e).value;
    var t := Step(s, e).value;
    assert t == Put(s, key) && key in t.durable.keys;
    if !IsRecorded(s.durable, key.0) {
      events := [];
    } else {
      var erase := ErasureCompletes(t);
      var u := Exec(t, erase).value;
      RunOfOne(u, Forget);
      events := erase + [Forget];
      RunAppends(t, erase, [Forget]);
      assert key in u.durable.keys;
      assert !IsRecorded(Exec(t, events).value.durable, key.0);
    }
  }

  /**
   A consensus instance may write a key exactly when no disciplined continuation can ever leave
   an unsound durable state behind.
   */
  lemma DisciplineIsExact(s: State, e: Event)
    requires Inv(s) && Step(s, e).Some? && Written(s, e).Some?
    ensures MayWrite(s, Written(s, e).value) <==>
            forall events :: Run(Step(s, e).value, events) ==>
              Exec(Step(s, e).value, events).Some? && Sound(Exec(Step(s, e).value, events).value.durable)
  {
    if MayWrite(s, Written(s, e).value) {
      StepKeepsInv(s, e);
      forall events | Run(Step(s, e).value, events)
        ensures Exec(Step(s, e).value, events).Some? && Sound(Exec(Step(s, e).value, events).value.durable)
      {
        EveryRunIsSound(Step(s, e).value, events);
      }
    } else {
      var events := ForbiddenWriteLosesKeys(s, e);
    }
  }

  /**
   A concrete loss: the old live consensus writes after its prefix has been forgotten and before
   the staging instance takes its place.
   */
  lemma LateWriteIsLost()
    ensures var s := State(Durable(Some(Zero), Some(One), {}), Some(Zero), Some(One), Idle);
            var events := [CommitSwap, BeginErase, Forget, LiveWrite(0)];
            Inv(s) && Exec(s, events).Some? && !Sound(Exec(s, events).value.durable)
  {
    var s := State(Durable(Some(Zero), Some(One), {}), Some(Zero), Some(One), Idle);
    var a, b, c, d := CommitSwap, BeginErase, Forget, LiveWrite(0);
    assert [a, b, c, d][..3] == [a, b, c] && [a, b, c][..2] == [a, b] && [a, b][..1] == [a] && [a][..0] == [];
    assert Exec(s, [a]) == Step(s, a);
    assert Under({}, Zero) == {};
    assert Exec(s, [a, b]) == Some(State(Durable(Some(One), Some(Zero), {}), Some(Zero), Some(One), Erasing(Zero, {}, ForCommit)));
    var forgotten := State(Durable(Some(One), None, {}), Some(Zero), Some(One), Erased(ForCommit));
    assert Exec(s, [a, b, c]) == Some(forgotten);
    assert Exec(s, [a, b, c, d]) == Some(Put(forgotten, (Zero, 0)));
    assert (Zero, 0) in Put(forgotten, (Zero, 0)).durable.keys;
  }

  // ---------------------------------------------------------------------------------------
  // Memory follows the database
  // ---------------------------------------------------------------------------------------

  /** While no operation has failed, the instances in memory stand on the recorded prefixes. */
  predicate Follows(s: State) {
    match s.phase
    case Down => s.live == None && s.staging == None
    case Idle => s.live == s.durable.active && s.live.Some? && s.staging == s.durable.inactive
    case Recorded => s.live == s.durable.active && s.live.Some? && s.staging == None
    case Swapped => s.live == s.durable.inactive && s.staging == s.durable.active && s.staging.Some?
    case Erasing(_, _, ForNew) => s.live == None && s.staging == None
    case Erasing(_, _, ForCommit) => s.live == s.durable.inactive && s.staging == s.durable.active && s.staging.Some?
    case Erasing(_, _, ForDelete) => s.live == s.durable.active && s.live.Some? && s.staging == s.durable.inactive
    case Erased(ForNew) => s.live == None && s.staging == None
    case Erased(ForCommit) => s.live != s.durable.active && s.staging == s.durable.active && s.staging.Some?
    case Erased(ForDelete) => s.live == s.durable.active && s.live.Some? && s.staging != s.durable.active
  }

  lemma StepKeepsFollows(s: State, e: Event)
    requires Inv(s) && Follows(s) && Step(s, e).Some? && e != Fail
    ensures Follows(Step(s, e).value)
  {
  }

  /**
   While nothing fails, the only writes the discipline forbids are those of the outgoing
   instance: the old live consensus during the erasure that ends a commit, and the staging
   consensus during the erasure that deletes it.
   */
  lemma OnlyTheOutgoingInstanceIsRestrained(s: State, e: Event)
    requires Inv(s) && Follows(s) && Step(s, e).Some? && !Disciplined(s, e)
    ensures s.phase.Erasing? || s.phase.Erased?
    ensures s.phase.task == ForCommit ==> e.LiveWrite?
    ensures s.phase.task == ForDelete ==> e.StagingWrite?
    ensures s.phase.task != ForNew
  {
  }

  // ---------------------------------------------------------------------------------------
  // The operations of a node
  // ---------------------------------------------------------------------------------------

  /** What an operation reports to its caller. */
  datatype Outcome = Done | Refused | Failed

  /**
   The operations keep the invariant from any state that satisfies it, also after an earlier
   operation has failed; while none has failed, memory keeps following the database.  The ghost
   count of faults lets the contracts say that no operation fails without one.
   */
  class Node {
    var state: State
    ghost var log: seq<Event>
    ghost var faults: nat

    /** The log holds, after its first `n` events, a disciplined run from the given state to the current one. */
    ghost predicate RanFrom(start: State, n: nat)
      reads this
    {
      n <= |log| && Run(start, log[n..]) && Exec(start, log[n..]) == Some(state)
    }

    /** Two runs, one after the other. */
    lemma Joins(start: State, n: nat, middle: State, m: nat)
      requires n <= m <= |log| && Run(start, log[n..m]) && Exec(start, log[n..m]) == Some(middle) && RanFrom(middle, m)
      ensures RanFrom(start, n)
    {
      RunAppends(start, log[n..m], log[m..]);
      assert log[n..] == log[n..m] + log[m..];
    }

    constructor (durable: Durable)
      requires Sound(durable)
      ensures Inv(state) && state == State(durable, None, None, Down) && log == [] && faults == 0
    {
      state, log, faults := State(durable, None, None, Down), [], 0;
    }

    method Do(e: Event, ghost start: State, ghost n: nat)
      requires RanFrom(start, n) && Step(state, e).Some? && Disciplined(state, e)
      modifies this
      ensures state == Step(old(state), e).value && log == old(log) + [e] && RanFrom(start, n) && faults == old(faults)
    {
      hide Run, Exec;
      ghost var m := |log|;
      RunOfOne(state, e);
      ghost var middle := state;
      state := Step(state, e).value;
      log := log + [e];
      assert log[m..] == [e] && log[n..m] == old(log)[n..];
      Joins(start, n, middle, m);
    }

    /** One write or deletion by a consensus instance. */
    method InstanceStep(e: Event, ghost start: State, ghost n: nat)
      requires Inv(state) && RanFrom(start, n) && Step(state, e).Some? && Disciplined(state, e)
      requires e.BuildWrite? || e.LiveWrite? || e.LiveRemove? || e.StagingWrite? || e.StagingRemove?
      modifies this
      ensures Inv(state) && RanFrom(start, n) && (old(Follows(state)) ==> Follows(state)) && faults == old(faults)
      ensures state.(durable := state.durable.(keys := {})) == old(state.(durable := state.durable.(keys := {})))
    {
      hide Inv, Follows, Run, Exec, Disciplined;
      StepKeepsInv(state, e);
      if Follows(state) {
        StepKeepsFollows(state, e);
      }
      Do(e, start, n);
    }

    /** Any number of writes and deletions by the two consensus instances. */
    method Interleave(ghost start: State, ghost n: nat)
      requires Inv(state) && RanFrom(start, n)
      modifies this
      ensures Inv(state) && RanFrom(start, n) && (old(Follows(state)) ==> Follows(state)) && faults == old(faults)
      ensures state.(durable := state.durable.(keys := {})) == old(state.(durable := state.durable.(keys := {})))
    {
      hide Inv, Follows, Run, Exec, Disciplined;
      var count :| 0 <= count;
      for i := 0 to count
        invariant Inv(state) && RanFrom(start, n) && (old(Follows(state)) ==> Follows(state)) && faults == old(faults)
        invariant state.(durable := state.durable.(keys := {})) == old(state.(durable := state.durable.(keys := {})))
      {
        var e: Event := *;
        if (e.BuildWrite? || e.LiveWrite? || e.LiveRemove? || e.StagingWrite? || e.StagingRemove?) && Step(state, e).Some? && Disciplined(state, e) {
          InstanceStep(e, start, n);
        }
      }
    }

    /** A step of the operation itself. */
    method Advance(e: Event, ghost start: State, ghost n: nat)
      requires Inv(state) && RanFrom(start, n) && Step(state, e).Some? && Written(state, e) == None
      modifies this
      ensures Inv(state) && RanFrom(start, n) && state == Step(old(state), e).value && faults == old(faults)
      ensures old(Follows(state)) && e != Fail ==> Follows(state)
    {
      hide Inv, Follows, Run, Exec;
      StepKeepsInv(state, e);
      if Follows(state) && e != Fail {
        StepKeepsFollows(state, e);
      }
      Do(e, start, n);
    }

    /** The cursor loop and the removal of the inactive record; `false` when a write fails. */
    method DeleteInactivePrefix(ghost start: State, ghost n: nat) returns (ok: bool)
      requires Inv(state) && RanFrom(start, n) && (state.phase.Erasing? || state.phase.Erased?)
      modifies this
      ensures Inv(state) && RanFrom(start, n) && (old(Follows(state)) ==> Follows(state))
      ensures state.durable.active == old(state.durable.active)
      ensures state.live == old(state.live) && state.staging == old(state.staging)
      ensures (state.phase.Erasing? || state.phase.Erased?) && state.phase.task == old(state.phase.task)
      ensures ok ==> state.phase.Erased?
      ensures faults == old(faults) + if ok then 0 else 1
    {
      hide Follows, Run, Exec;
      if state.phase.Erased? {
        return true;
      }
      while state.phase.cursor != {}
        invariant Inv(state) && RanFrom(start, n) && (old(Follows(state)) ==> Follows(state)) && faults == old(faults)
        invariant state.phase.Erasing? && state.phase.task == old(state.phase.task)
        invariant state.durable.active == old(state.durable.active)
        invariant state.live == old(state.live) && state.staging == old(state.staging)
        decreases state.phase.cursor
      {
        Interleave(start, n);
        ok := *;
        if !ok {
          faults := faults + 1;
          return;
        }
        var key :| key in state.phase.cursor;
        ErasureSparesActiveKeys(state, key);
        Advance(EraseKey(key), start, n);
      }
      Interleave(start, n);
      ok := *;
      if ok {
        Advance(Forget, start, n);
        ok := *;
      }
      if !ok {
        faults := faults + 1;
      }
    }

    /** Starting up on whatever a crash left behind. */
    method New() returns (r: Outcome)
      requires Inv(state) && state.phase == Down
      modifies this
      ensures r != Refused
      ensures Inv(state) && RanFrom(old(state), |old(log)|)
      ensures faults == old(faults) + if r == Failed then 1 else 0
      ensures r == Done ==>
        && Follows(state) && state.phase == Idle && state.durable.active.Some? && state.durable.inactive == None
        && state.durable.active == (if old(state).durable.active.Some? then old(state).durable.active else Some(Zero))
        && forall k :: k in state.durable.keys ==> Some(k.0) == state.durable.active
    {
      hide Run, Exec;
      ghost var start, n := state, |log|;
      Starts();
      Advance(Boot, start, n);
      assert Follows(state);
      var ok := DeleteInactivePrefix(start, n);
      if !ok {
        Advance(Fail, start, n);
        return Failed;
      }
      var built := *;
      if !built {
        faults := faults + 1;
        Advance(Fail, start, n);
        return Failed;
      }
      NothingIsLeftAfterNew(state);
      Advance(Finish, start, n);
      Interleave(start, n);
      built := *;
      if !built {
        faults := faults + 1;
        Advance(Crash, start, n);
        return Failed;
      }
      r := Done;
    }

    lemma Starts()
      ensures RanFrom(state, |log|)
    {
      assert log[|log|..] == [];
    }

    method InitStagingConsensus() returns (r: Outcome)
      requires Inv(state) && state.phase == Idle
      modifies this
      ensures Inv(state) && RanFrom(old(state), |old(log)|)
      ensures faults == old(faults) + if r == Failed then 1 else 0
      ensures r == Refused ==> state == old(state) && (state.durable.inactive.Some? || state.durable.active.None?)
      ensures r == Done ==>
        && old(state).durable.inactive.None? && state.phase == Idle
        && state.durable.active == old(state).durable.active && state.durable.active.Some?
        && state.staging == state.durable.inactive == Some(state.durable.active.value.Flip())
        && (old(Follows(state)) ==> Follows(state))
      ensures r == Failed ==>
        && state.live == old(state).live && state.staging == old(state).staging && state.phase == Idle
        && state.durable.active == old(state).durable.active
    {
      hide Follows, Run, Exec;
      ghost var start, n := state, |log|;
      Starts();
      var failed := *;
      if failed {
        faults := faults + 1;
        return Failed;
      }
      if state.durable.inactive.Some? || state.durable.active.None? {
        return Refused;
      }
      Advance(InitStaging, start, n);
      Interleave(start, n);
      var built := *;
      if !built {
        faults := faults + 1;
        Advance(Fail, start, n);
        return Failed;
      }
      Advance(BuildStaging, start, n);
      r := Done;
    }

    method CommitStagingConsensus() returns (r: Outcome)
      requires Inv(state) && state.phase == Idle
      modifies this
      ensures Inv(state) && RanFrom(old(state), |old(log)|)
      ensures faults == old(faults) + if r == Failed then 1 else 0
      ensures r == Refused ==> state == old(state) && state.durable.inactive.None?
      ensures r == Done ==>
        && old(state).durable.inactive.Some? && state.phase == Idle && state.durable.inactive == None
        && state.durable.active == old(state).durable.inactive
        && state.live == old(state).staging && state.staging == None
        && (forall k :: k in state.durable.keys ==> Some(k.0) == state.durable.active)
        && (old(Follows(state)) ==> Follows(state))
      ensures r == Failed ==>
        && state.live == old(state).live && state.staging == old(state).staging && state.phase == Idle
        && (state.durable.active == old(state).durable.active || state.durable.active == old(state).durable.inactive)
    {
      hide Follows, Run, Exec;
      ghost var start, n := state, |log|;
      Starts();
      var failed := *;
      if failed {
        faults := faults + 1;
        return Failed;
      }
      if state.durable.inactive.None? {
        return Refused;
      }
      Advance(CommitSwap, start, n);
      Interleave(start, n);
      Advance(BeginErase, start, n);
      var ok := DeleteInactivePrefix(start, n);
      if !ok {
        Advance(Fail, start, n);
        return Failed;
      }
      Interleave(start, n);
      Advance(Finish, start, n);
      r := Done;
    }

    method DeleteStagingConsensus() returns (r: Outcome)
      requires Inv(state) && state.phase == Idle
      modifies this
      ensures Inv(state) && RanFrom(old(state), |old(log)|)
      ensures faults == old(faults) + if r == Failed then 1 else 0
      ensures r != Refused
      ensures r == Done ==>
        && state.phase == Idle && state.durable.inactive == None
        && state.durable.active == old(state).durable.active
        && state.live == old(state).live && state.staging == None
        && (forall k :: k in state.durable.keys ==> Some(k.0) == state.durable.active)
        && (old(Follows(state)) ==> Follows(state))
      ensures r == Failed ==>
        && state.live == old(state).live && state.staging == old(state).staging && state.phase == Idle
        && state.durable.active == old(state).durable.active
    {
      hide Follows, Run, Exec;
      ghost var start, n := state, |log|;
      Starts();
      Advance(BeginDelete, start, n);
      var ok := DeleteInactivePrefix(start, n);
      if !ok {
        Advance(Fail, start, n);
        return Failed;
      }
      Interleave(start, n);
      Advance(Finish, start, n);
      r := Done;
    }
  }
}
