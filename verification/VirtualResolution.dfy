/**
 Inserting blocks and resolving the virtual from many threads under one lock.

 A block inserted without updating the virtual leaves it unresolved until some thread has
 resolved it completely; the flag `virtualNotUpdated` is meant to say so.  Each thread runs one
 call at a time, as a sequence of steps between which any other thread may run.
 */
module VirtualResolution {
  import opened Basics

  type Thread = nat
  type Block = nat

  /** Where a call stands.  The names ending in `Wait` and `Relock` are outside the lock. */
  datatype Pc =
    | InsertWait(block: Block)       // insert with virtual update: about to lock
    | InsertLocked(block: Block)     // about to test the flag
    | InsertResolving(block: Block)  // about to resolve a chunk
    | InsertYield(block: Block)      // chunk done, more to come: about to unlock
    | InsertRelock(block: Block)     // about to lock for the next chunk
    | InsertReady(block: Block)      // about to insert with virtual update
    | PlainWait(block: Block)        // insert without virtual update: about to lock
    | PlainLocked(block: Block)      // about to insert without virtual update
    | ResolveWait                    // resolve: about to lock
    | ResolveLocked                  // about to resolve a chunk
    | ResolveYield                   // chunk done, more to come: about to unlock
    | Leaving                        // about to unlock for the last time
    | Finished

  /** The outcome of the calls into the consensus processes. */
  datatype Choice =
    | Proceed                                      // steps without outcome
    | ChunkFails(left: set<Block>)                 // resolving fails
    | ChunkCompletes(thenFails: bool)              // all blocks are resolved; what follows may fail
    | ChunkContinues(left: set<Block>, thenFails: bool)
    | InsertFails                                  // nothing is stored
    | InsertFailsLate                              // the block is stored, and then something fails
    | InsertsHeader
    | InsertsBody

  datatype State = State(
    threads: map<Thread, Pc>,
    holder: Option<Thread>,
    virtualNotUpdated: bool,
    unresolved: set<Block>,
    locks: map<Thread, nat>,
    unlocks: map<Thread, nat>)

  datatype Event = Call(thread: Thread, pc: Pc) | Run(thread: Thread, choice: Choice)

  /** The program points at which a thread holds the lock. */
  predicate Holding(pc: Pc) {
    pc.InsertLocked? || pc.InsertResolving? || pc.InsertYield? || pc.InsertReady? || pc.PlainLocked? ||
    pc.ResolveLocked? || pc.ResolveYield? || pc.Leaving?
  }

  function Count(counts: map<Thread, nat>, t: Thread): nat {
    if t in counts then counts[t] else 0
  }

  function Goto(s: State, t: Thread, pc: Pc): State {
    s.(threads := s.threads[t := pc])
  }

  /** Taking the lock; impossible while another thread holds it. */
  function Lock(s: State, t: Thread, pc: Pc): Option<State> {
    if s.holder.Some? then None
    else Some(Goto(s, t, pc).(holder := Some(t), locks := s.locks[t := Count(s.locks, t) + 1]))
  }

  /** Releasing the lock, which the thread must hold. */
  function Unlock(s: State, t: Thread, pc: Pc): Option<State> {
    if s.holder != Some(t) then None
    else Some(Goto(s, t, pc).(holder := None, unlocks := s.unlocks[t := Count(s.unlocks, t) + 1]))
  }

  /** `resolveVirtualChunkNoLock`: `done` when everything is resolved, `more` when there is more to do. */
  function Chunk(s: State, t: Thread, c: Choice, done: Pc, more: Pc): Option<State> {
    match c
    case ChunkFails(left) => if left <= s.unresolved then Some(Goto(s, t, Leaving).(unresolved := left)) else None
    case ChunkCompletes(thenFails) =>
      Some(Goto(s, t, if thenFails then Leaving else done).(unresolved := {}, virtualNotUpdated := false))
    case ChunkContinues(left, thenFails) =>
      if left <= s.unresolved
      then Some(Goto(s, t, if thenFails then Leaving else more).(unresolved := left, virtualNotUpdated := true))
      else None
    case _ => None
  }

  /** `validateAndInsertBlockNoLock`. */
  function Insert(s: State, t: Thread, b: Block, c: Choice, updateVirtual: bool): Option<State> {
    match c
    case InsertFails => Some(Goto(s, t, Leaving))
    case InsertsHeader => Some(Goto(s, t, Leaving))
    case InsertFailsLate =>
      Some(Goto(s, t, Leaving).(unresolved := if updateVirtual then s.unresolved else s.unresolved + {b}))
    case InsertsBody =>
      if updateVirtual then Some(Goto(s, t, Leaving))
      else Some(Goto(s, t, Leaving).(unresolved := s.unresolved + {b}, virtualNotUpdated := true))
    case _ => None
  }

  function StepThread(s: State, t: Thread, c: Choice): Option<State>
    requires t in s.threads
  {
    match s.threads[t]
    case InsertWait(b) => Lock(s, t, InsertLocked(b))
    case InsertLocked(b) => Some(Goto(s, t, if s.virtualNotUpdated then InsertResolving(b) else InsertReady(b)))
    case InsertResolving(b) => Chunk(s, t, c, InsertReady(b), InsertYield(b))
    case InsertYield(b) => Unlock(s, t, InsertRelock(b))
    case InsertRelock(b) => Lock(s, t, InsertResolving(b))
    case InsertReady(b) => Insert(s, t, b, c, true)
    case PlainWait(b) => Lock(s, t, PlainLocked(b))
    case PlainLocked(b) => Insert(s, t, b, c, false)
    case ResolveWait => Lock(s, t, ResolveLocked)
    case ResolveLocked => Chunk(s, t, c, Leaving, ResolveYield)
    case ResolveYield => Unlock(s, t, ResolveWait)
    case Leaving => Unlock(s, t, Finished)
    case Finished => None
  }

  function Step(s: State, e: Event): Option<State> {
    match e
    case Call(t, pc) =>
      if (t !in s.threads || s.threads[t] == Finished) && (pc.InsertWait? || pc.PlainWait? || pc.ResolveWait?)
      then Some(Goto(s, t, pc)) else None
    case Run(t, c) => if t in s.threads then StepThread(s, t, c) else None
  }

  function Exec(s: State, events: seq<Event>): Option<State> {
    if |events| == 0 then Some(s)
    else
      var before := Exec(s, events[..|events| - 1]);
      if before.None? then None else Step(before.value, events[|events| - 1])
  }

  /** A freshly created consensus: the virtual may be behind whatever the database holds. */
  predicate Initial(s: State) {
    s.threads == map[] && s.holder == None && s.virtualNotUpdated && s.locks == map[] && s.unlocks == map[]
  }

  /**
   Exactly one thread holds the lock, and it is at a point where it should; every other thread
   has unlocked as often as it has locked; and a thread about to insert with virtual update
   stands before a clear flag.
   */
  ghost predicate Inv(s: State) {
    && (forall t :: t in s.threads ==> (Holding(s.threads[t]) <==> s.holder == Some(t)))
    && (s.holder.Some? ==> s.holder.value in s.threads)
    && (forall t: Thread :: Count(s.locks, t) == Count(s.unlocks, t) + if s.holder == Some(t) then 1 else 0)
    && (forall t :: t in s.threads && s.threads[t].InsertReady? ==> !s.virtualNotUpdated)
  }

  /** A clear flag means that nothing is left to resolve. */
  predicate FlagIsTrue(s: State) {
    !s.virtualNotUpdated ==> s.unresolved == {}
  }

  /** The one step that spoils the flag: a body stored by an insertion that then fails, under a clear flag. */
  predicate Spoils(s: State, e: Event) {
    && e.Run? && e.thread in s.threads && s.threads[e.thread].PlainLocked? && e.choice == InsertFailsLate
    && !s.virtualNotUpdated
  }

  lemma GotoKeepsInv(s: State, t: Thread, pc: Pc)
    requires Inv(s) && (s.holder == Some(t) <==> Holding(pc))
    requires pc.InsertReady? ==> !s.virtualNotUpdated
    ensures Inv(Goto(s, t, pc))
  {
  }

  lemma LockKeepsInv(s: State, t: Thread, pc: Pc)
    requires Inv(s) && t in s.threads && Holding(pc) && !pc.InsertReady? && Lock(s, t, pc).Some?
    ensures Inv(Lock(s, t, pc).value)
  {
  }

  lemma UnlockKeepsInv(s: State, t: Thread, pc: Pc)
    requires Inv(s) && t in s.threads && !Holding(pc) && Unlock(s, t, pc).Some?
    ensures Inv(Unlock(s, t, pc).value)
  {
  }

  /** The holder may change the flag: no other thread is about to insert with virtual update. */
  lemma HolderKeepsInv(s: State, t: Thread, pc: Pc, flag: bool, unresolved: set<Block>)
    requires Inv(s) && t in s.threads && s.holder == Some(t) && Holding(pc) && (pc.InsertReady? ==> !flag)
    ensures Inv(Goto(s, t, pc).(virtualNotUpdated := flag, unresolved := unresolved))
  {
    var after := Goto(s, t, pc).(virtualNotUpdated := flag, unresolved := unresolved);
    forall u | u in after.threads && after.threads[u].InsertReady?
      ensures !flag
    {
      assert Holding(after.threads[u]);
    }
  }

  /** Every step, of any thread, keeps the invariant. */
  lemma StepKeepsInv(s: State, e: Event)
    requires Inv(s) && Step(s, e).Some?
    ensures Inv(Step(s, e).value)
  {
    hide Inv, Count;
    var t, after := e.thread, Step(s, e).value;
    InvFacts(s, t);
    if e.Call? {
      GotoKeepsInv(s, t, e.pc);
    } else {
      match s.threads[t] {
        case InsertWait(b) => LockKeepsInv(s, t, InsertLocked(b));
        case InsertLocked(b) => GotoKeepsInv(s, t, if s.virtualNotUpdated then InsertResolving(b) else InsertReady(b));
        case InsertYield(b) => UnlockKeepsInv(s, t, InsertRelock(b));
        case InsertRelock(b) => LockKeepsInv(s, t, InsertResolving(b));
        case PlainWait(b) => LockKeepsInv(s, t, PlainLocked(b));
        case ResolveWait => LockKeepsInv(s, t, ResolveLocked);
        case ResolveYield => UnlockKeepsInv(s, t, ResolveWait);
        case Leaving => UnlockKeepsInv(s, t, Finished);
        case InsertResolving(_) => HolderKeepsInv(s, t, after.threads[t], after.virtualNotUpdated, after.unresolved);
        case InsertReady(_) => HolderKeepsInv(s, t, after.threads[t], after.virtualNotUpdated, after.unresolved);
        case PlainLocked(_) => HolderKeepsInv(s, t, after.threads[t], after.virtualNotUpdated, after.unresolved);
        case ResolveLocked => HolderKeepsInv(s, t, after.threads[t], after.virtualNotUpdated, after.unresolved);
        case Finished =>
      }
    }
  }

  lemma InvFacts(s: State, t: Thread)
    requires Inv(s)
    ensures s.holder == Some(t) ==> t in s.threads && Holding(s.threads[t])
    ensures t in s.threads && Holding(s.threads[t]) ==> s.holder == Some(t)
  {
  }

  /** The flag stays truthful in exactly the steps that do not spoil it. */
  lemma FlagStaysTrueExactly(s: State, e: Event)
    requires Inv(s) && FlagIsTrue(s) && Step(s, e).Some?
    ensures FlagIsTrue(Step(s, e).value) <==> !Spoils(s, e)
  {
  }

  // ---------------------------------------------------------------------------------------
  // Whole runs
  // ---------------------------------------------------------------------------------------

  lemma {:induction false} EveryRunKeepsInv(s: State, events: seq<Event>)
    requires Initial(s) && Exec(s, events).Some?
    ensures Inv(Exec(s, events).value)
    decreases |events|
  {
    if |events| > 0 {
      EveryRunKeepsInv(s, events[..|events| - 1]);
      StepKeepsInv(Exec(s, events[..|events| - 1]).value, events[|events| - 1]);
    }
  }

  /** No step of the run spoils the flag. */
  predicate Unspoiled(s: State, events: seq<Event>)
    requires Exec(s, events).Some?
  {
    |events| == 0 ||
    var init := events[..|events| - 1];
    Unspoiled(s, init) && !Spoils(Exec(s, init).value, events[|events| - 1])
  }

  /** The flag is truthful after every step of the run. */
  predicate AlwaysTrue(s: State, events: seq<Event>)
    requires Exec(s, events).Some?
  {
    FlagIsTrue(Exec(s, events).value) && (|events| == 0 || AlwaysTrue(s, events[..|events| - 1]))
  }

  /**
   In every interleaving from a fresh consensus, a clear flag always means that nothing is left
   to resolve, exactly if no insertion fails after storing a body while the flag is clear.
   */
  lemma {:induction false} FlagIsTruthfulExactlyOnUnspoiledRuns(s: State, events: seq<Event>)
    requires Initial(s) && Exec(s, events).Some?
    ensures AlwaysTrue(s, events) <==> Unspoiled(s, events)
    decreases |events|
  {
    if |events| > 0 {
      var init, last := events[..|events| - 1], events[|events| - 1];
      FlagIsTruthfulExactlyOnUnspoiledRuns(s, init);
      EveryRunKeepsInv(s, init);
      if AlwaysTrue(s, init) {
        TruthfulNow(s, init);
        FlagStaysTrueExactly(Exec(s, init).value, last);
      }
    }
  }

  lemma TruthfulNow(s: State, events: seq<Event>)
    requires Exec(s, events).Some? && AlwaysTrue(s, events)
    ensures FlagIsTrue(Exec(s, events).value)
  {
  }

  /**
   In every interleaving, a block is inserted with virtual update only by the thread that holds
   the lock, and only under a clear flag.
   */
  lemma InsertsOnlyUnderClearFlag(s: State, events: seq<Event>, t: Thread)
    requires Initial(s) && Exec(s, events).Some?
    requires var now := Exec(s, events).value; t in now.threads && now.threads[t].InsertReady?
    ensures var now := Exec(s, events).value; now.holder == Some(t) && !now.virtualNotUpdated
    ensures Unspoiled(s, events) ==> Exec(s, events).value.unresolved == {}
  {
    EveryRunKeepsInv(s, events);
    FlagIsTruthfulExactlyOnUnspoiledRuns(s, events);
  }

  /** In every interleaving, a thread about to unlock holds the lock: no step unlocks a free mutex. */
  lemma UnlocksOnlyWhatItHolds(s: State, events: seq<Event>, t: Thread)
    requires Initial(s) && Exec(s, events).Some?
    requires t in Exec(s, events).value.threads
    requires var pc := Exec(s, events).value.threads[t]; pc.Leaving? || pc.InsertYield? || pc.ResolveYield?
    ensures Step(Exec(s, events).value, Run(t, Proceed)).Some?
  {
    EveryRunKeepsInv(s, events);
  }

  /** A finished call has released the lock exactly as often as it has taken it. */
  lemma FinishedCallsHaveUnlocked(s: State, events: seq<Event>, t: Thread)
    requires Initial(s) && Exec(s, events).Some?
    requires t in Exec(s, events).value.threads && Exec(s, events).value.threads[t] == Finished
    ensures var now := Exec(s, events).value; now.holder != Some(t) && Count(now.locks, t) == Count(now.unlocks, t)
  {
    EveryRunKeepsInv(s, events);
  }

  /** A run extended by one more step. */
  lemma Then(s: State, events: seq<Event>, e: Event, before: State) returns (longer: seq<Event>, after: State)
    requires Exec(s, events) == Some(before) && Step(before, e).Some?
    ensures longer == events + [e] && Exec(s, longer) == Some(after) && Step(before, e) == Some(after)
  {
    longer, after := events + [e], Step(before, e).value;
    assert longer[..|longer| - 1] == events;
  }

  lemma EmptyRun(s: State)
    ensures Exec(s, []) == Some(s)
  {
  }

  /** The lock goes to a thread that waits for it to resolve the virtual. */
  lemma LocksToResolve(s: State) returns (events: seq<Event>, now: State)
    requires Initial(s)
    ensures Exec(s, events) == Some(now) && now.holder == Some(0) && now.threads == map[0 := ResolveLocked]
  {
    hide Exec;
    EmptyRun(s);
    events, now := Then(s, [], Call(0, ResolveWait), s);
    assert now.threads == map[0 := ResolveWait];
    events, now := Then(s, events, Run(0, Proceed), now);
  }

  /** One call that resolves everything clears the flag. */
  lemma ResolutionClearsTheFlag(s: State) returns (events: seq<Event>, now: State)
    requires Initial(s)
    ensures Exec(s, events) == Some(now)
    ensures now.holder == None && !now.virtualNotUpdated && now.unresolved == {} && now.threads == map[0 := Finished]
  {
    hide Exec, Initial;
    events, now := LocksToResolve(s);
    events, now := Then(s, events, Run(0, ChunkCompletes(false)), now);
    assert now.threads == map[0 := Leaving] && now.holder == Some(0);
    events, now := Then(s, events, Run(0, Proceed), now);
  }

  /** A spoiled flag: right after a complete resolution, an insertion stores a body and then fails. */
  lemma LateFailureSpoilsTheFlag(s: State) returns (events: seq<Event>)
    requires Initial(s)
    ensures Exec(s, events).Some? && !FlagIsTrue(Exec(s, events).value)
  {
    hide Exec, Initial;
    var now;
    events, now := ResolutionClearsTheFlag(s);
    events, now := Then(s, events, Call(0, PlainWait(7)), now);
    assert now.threads[0] == PlainWait(7);
    events, now := Then(s, events, Run(0, Proceed), now);
    assert now.threads[0] == PlainLocked(7);
    events, now := Then(s, events, Run(0, InsertFailsLate), now);
    assert 7 in now.unresolved;
  }

  // ---------------------------------------------------------------------------------------
  // What a call does
  // ---------------------------------------------------------------------------------------

  datatype Insertion = Insertion(block: Block, choice: Choice)

  /**
   One call of a thread: how it was entered, whether it found the flag raised when it had locked,
   the outcomes of its chunks, and its insertions.
   */
  datatype CallRecord = CallRecord(entry: Pc, behind: bool, chunks: seq<Choice>, insertions: seq<Insertion>)

  function RecordStep(record: CallRecord, pc: Pc, flag: bool, c: Choice): CallRecord {
    match pc
    case InsertLocked(_) => record.(behind := flag)
    case InsertResolving(_) => record.(chunks := record.chunks + [c])
    case ResolveLocked => record.(chunks := record.chunks + [c])
    case InsertReady(b) => record.(insertions := record.insertions + [Insertion(b, c)])
    case PlainLocked(b) => record.(insertions := record.insertions + [Insertion(b, c)])
    case _ => record
  }

  /** The current or last call of a thread, read off the run. */
  function RecordOf(s: State, events: seq<Event>, t: Thread): Option<CallRecord> {
    if |events| == 0 then None
    else
      var init, e := events[..|events| - 1], events[|events| - 1];
      NextRecord(RecordOf(s, init, t), Exec(s, init), e, t)
  }

  function NextRecord(record: Option<CallRecord>, before: Option<State>, e: Event, t: Thread): Option<CallRecord> {
    if e.thread != t then record
    else if e.Call? then Some(CallRecord(e.pc, false, [], []))
    else if record.None? || before.None? || t !in before.value.threads then record
    else Some(RecordStep(record.value, before.value.threads[t], before.value.virtualNotUpdated, e.choice))
  }

  /** The chunk leaves blocks to resolve, and nothing has failed. */
  predicate IsPartial(c: Choice) {
    c.ChunkContinues? && !c.thenFails
  }

  predicate IsComplete(c: Choice) {
    c == ChunkCompletes(false)
  }

  predicate IsFailure(c: Choice) {
    c.ChunkFails? || (c.ChunkCompletes? && c.thenFails) || (c.ChunkContinues? && c.thenFails)
  }

  predicate AllPartial(chunks: seq<Choice>) {
    forall i :: 0 <= i < |chunks| ==> IsPartial(chunks[i])
  }

  /** Partial chunks up to the last one. */
  predicate EndsWith(chunks: seq<Choice>, last: Choice) {
    |chunks| > 0 && chunks[|chunks| - 1] == last && AllPartial(chunks[..|chunks| - 1])
  }

  predicate EndsComplete(chunks: seq<Choice>) {
    EndsWith(chunks, ChunkCompletes(false))
  }

  predicate EndsFailed(chunks: seq<Choice>) {
    |chunks| > 0 && IsFailure(chunks[|chunks| - 1]) && EndsWith(chunks, chunks[|chunks| - 1])
  }

  predicate InsertsOnly(insertions: seq<Insertion>, b: Block) {
    |insertions| == 1 && insertions[0].block == b
  }

  /** Where a call stands fits what it has done so far. */
  predicate Fits(record: CallRecord, pc: Pc) {
    match record.entry
    case ResolveWait =>
      && record.insertions == []
      && (match pc
          case ResolveWait => AllPartial(record.chunks)
          case ResolveLocked => AllPartial(record.chunks)
          case ResolveYield => AllPartial(record.chunks)
          case Leaving => EndsComplete(record.chunks) || EndsFailed(record.chunks)
          case Finished => EndsComplete(record.chunks) || EndsFailed(record.chunks)
          case _ => false)
    case InsertWait(b) =>
      (match pc
       case InsertWait(b') => b' == b && record.chunks == [] && record.insertions == []
       case InsertLocked(b') => b' == b && record.chunks == [] && record.insertions == []
       case InsertResolving(b') => b' == b && record.behind && AllPartial(record.chunks) && record.insertions == []
       case InsertYield(b') => b' == b && record.behind && AllPartial(record.chunks) && record.insertions == []
       case InsertRelock(b') => b' == b && record.behind && AllPartial(record.chunks) && record.insertions == []
       case InsertReady(b') => b' == b && HasResolved(record) && record.insertions == []
       case Leaving => InsertEnds(record, b)
       case Finished => InsertEnds(record, b)
       case _ => false)
    case PlainWait(b) =>
      && record.chunks == []
      && (match pc
          case PlainWait(b') => b' == b && record.insertions == []
          case PlainLocked(b') => b' == b && record.insertions == []
          case Leaving => InsertsOnly(record.insertions, b)
          case Finished => InsertsOnly(record.insertions, b)
          case _ => false)
    case _ => false
  }

  /** The call has resolved the virtual completely, if and only if it found the flag raised. */
  predicate HasResolved(record: CallRecord) {
    if record.behind then EndsComplete(record.chunks) else record.chunks == []
  }

  predicate InsertEnds(record: CallRecord, b: Block) {
    || (InsertsOnly(record.insertions, b) && HasResolved(record))
    || (record.insertions == [] && record.behind && EndsFailed(record.chunks))
  }

  predicate IsChunk(c: Choice) {
    c.ChunkFails? || c.ChunkCompletes? || c.ChunkContinues?
  }

  /** The point a step leads to, for a chunk with the two ways on. */
  function AfterChunk(c: Choice, done: Pc, more: Pc): Pc {
    if IsComplete(c) then done else if IsPartial(c) then more else Leaving
  }

  function Target(pc: Pc, flag: bool, c: Choice): Pc {
    match pc
    case InsertWait(b) => InsertLocked(b)
    case InsertLocked(b) => if flag then InsertResolving(b) else InsertReady(b)
    case InsertResolving(b) => AfterChunk(c, InsertReady(b), InsertYield(b))
    case InsertYield(b) => InsertRelock(b)
    case InsertRelock(b) => InsertResolving(b)
    case InsertReady(b) => Leaving
    case PlainWait(b) => PlainLocked(b)
    case PlainLocked(b) => Leaving
    case ResolveWait => ResolveLocked
    case ResolveLocked => AfterChunk(c, Leaving, ResolveYield)
    case ResolveYield => ResolveWait
    case Leaving => Finished
    case Finished => Finished
  }

  lemma ChunkTarget(s: State, t: Thread, c: Choice, done: Pc, more: Pc)
    requires Chunk(s, t, c, done, more).Some?
    ensures IsChunk(c) && Chunk(s, t, c, done, more).value.threads == s.threads[t := AfterChunk(c, done, more)]
  {
  }

  lemma InsertTarget(s: State, t: Thread, b: Block, c: Choice, updateVirtual: bool)
    requires Insert(s, t, b, c, updateVirtual).Some?
    ensures Insert(s, t, b, c, updateVirtual).value.threads == s.threads[t := Leaving]
  {
  }

  /** A step moves its own thread, and no other. */
  lemma StepTarget(s: State, t: Thread, c: Choice)
    requires t in s.threads && StepThread(s, t, c).Some?
    ensures StepThread(s, t, c).value.threads == s.threads[t := Target(s.threads[t], s.virtualNotUpdated, c)]
    ensures s.threads[t].InsertResolving? || s.threads[t].ResolveLocked? ==> IsChunk(c)
    ensures s.threads[t] != Finished
  {
    hide Chunk, Insert, AfterChunk;
    match s.threads[t] {
      case InsertResolving(b) => ChunkTarget(s, t, c, InsertReady(b), InsertYield(b));
      case ResolveLocked => ChunkTarget(s, t, c, Leaving, ResolveYield);
      case InsertReady(b) => InsertTarget(s, t, b, c, true);
      case PlainLocked(b) => InsertTarget(s, t, b, c, false);
      case _ =>
    }
  }

  lemma OneMoreChunk(chunks: seq<Choice>, c: Choice)
    requires AllPartial(chunks) && IsChunk(c)
    ensures IsPartial(c) ==> AllPartial(chunks + [c])
    ensures IsComplete(c) ==> EndsComplete(chunks + [c])
    ensures !IsPartial(c) && !IsComplete(c) ==> EndsFailed(chunks + [c])
  {
    var more := chunks + [c];
    assert more[..|more| - 1] == chunks && more[|more| - 1] == c;
  }

  lemma TargetFits(record: CallRecord, pc: Pc, flag: bool, c: Choice)
    requires Fits(record, pc) && pc != Finished
    requires pc.InsertResolving? || pc.ResolveLocked? ==> IsChunk(c)
    ensures Fits(RecordStep(record, pc, flag, c), Target(pc, flag, c))
  {
    hide AllPartial, EndsComplete, EndsFailed, IsChunk, IsPartial, IsComplete;
    if pc.InsertResolving? || pc.ResolveLocked? {
      OneMoreChunk(record.chunks, c);
    }
    NoChunksYet();
  }

  lemma NoChunksYet()
    ensures AllPartial([])
  {
  }

  /** A step of a thread takes its record along. */
  lemma StepFits(s: State, t: Thread, c: Choice, record: CallRecord)
    requires t in s.threads && StepThread(s, t, c).Some? && Fits(record, s.threads[t])
    ensures t in StepThread(s, t, c).value.threads
    ensures Fits(RecordStep(record, s.threads[t], s.virtualNotUpdated, c), StepThread(s, t, c).value.threads[t])
  {
    hide StepThread, Fits, Target, RecordStep;
    StepTarget(s, t, c);
    TargetFits(record, s.threads[t], s.virtualNotUpdated, c);
  }

  /** The record of every thread fits where it stands. */
  lemma {:induction false} EveryRecordFits(s: State, events: seq<Event>, t: Thread)
    requires Initial(s) && Exec(s, events).Some? && t in Exec(s, events).value.threads
    ensures RecordOf(s, events, t).Some? && Fits(RecordOf(s, events, t).value, Exec(s, events).value.threads[t])
    decreases |events|
  {
    hide Fits, RecordStep, StepThread;
    if |events| > 0 {
      var init, e := events[..|events| - 1], events[|events| - 1];
      var before := Exec(s, init).value;
      if e.thread != t {
        OthersStay(before, e, t);
        EveryRecordFits(s, init, t);
      } else if e.Call? {
        EntryFits(e.pc);
      } else {
        EveryRecordFits(s, init, t);
        StepFits(before, t, e.choice, RecordOf(s, init, t).value);
      }
    }
  }

  lemma EntryFits(pc: Pc)
    requires pc.InsertWait? || pc.PlainWait? || pc.ResolveWait?
    ensures Fits(CallRecord(pc, false, [], []), pc)
  {
  }

  lemma OthersStay(s: State, e: Event, t: Thread)
    requires Step(s, e).Some? && e.thread != t
    ensures t in Step(s, e).value.threads <==> t in s.threads
    ensures t in s.threads ==> Step(s, e).value.threads[t] == s.threads[t]
  {
    hide StepThread, Target;
    if e.Run? {
      StepTarget(s, e.thread, e.choice);
    }
  }

  /** No chunk of the call has failed. */
  predicate Unfailing(record: CallRecord) {
    forall i :: 0 <= i < |record.chunks| ==> !IsFailure(record.chunks[i])
  }

  /**
   What a finished call has done, in every interleaving.  A call to resolve has gone on until a
   chunk completed or failed.  A call to insert has resolved first exactly if it found the flag
   raised, and has inserted exactly its own block, exactly once; it has inserted nothing only if a
   chunk of it failed.
   */
  lemma FinishedCallsAreDone(s: State, events: seq<Event>, t: Thread)
    requires Initial(s) && Exec(s, events).Some?
    requires t in Exec(s, events).value.threads && Exec(s, events).value.threads[t] == Finished
    ensures RecordOf(s, events, t).Some?
    ensures var CallRecord(entry, behind, chunks, insertions) := RecordOf(s, events, t).value;
            match entry
            case ResolveWait =>
              && insertions == [] && |chunks| > 0 && (forall i :: 0 <= i < |chunks| - 1 ==> IsPartial(chunks[i]))
              && (Unfailing(RecordOf(s, events, t).value) <==> chunks[|chunks| - 1] == ChunkCompletes(false))
            case InsertWait(b) =>
              && (Unfailing(RecordOf(s, events, t).value) <==> |insertions| == 1 && insertions[0].block == b)
              && (insertions == [] || (|insertions| == 1 && insertions[0].block == b))
              && (behind <==> chunks != [])
              && (insertions != [] && behind ==> chunks[|chunks| - 1] == ChunkCompletes(false))
            case PlainWait(b) => chunks == [] && |insertions| == 1 && insertions[0].block == b
            case _ => false
  {
    hide Exec, RecordOf;
    EveryRecordFits(s, events, t);
    var chunks := RecordOf(s, events, t).value.chunks;
    assert |chunks| > 0 && AllPartial(chunks[..|chunks| - 1]) ==> forall i :: 0 <= i < |chunks| - 1 ==> IsPartial(chunks[i]) by {
      assert forall i :: 0 <= i < |chunks| - 1 ==> chunks[..|chunks| - 1][i] == chunks[i];
    }
  }

  /** The last chunk of a call is a step of the run; if it completed, the flag was clear and nothing unresolved right after it. */
  lemma {:induction false} LastChunkOfCall(s: State, events: seq<Event>, t: Thread) returns (k: nat)
    requires Exec(s, events).Some? && RecordOf(s, events, t).Some? && |RecordOf(s, events, t).value.chunks| > 0
    ensures var last := RecordOf(s, events, t).value.chunks[|RecordOf(s, events, t).value.chunks| - 1];
            && k < |events| && events[k] == Run(t, last) && Exec(s, events[..k + 1]).Some?
            && var now := Exec(s, events[..k + 1]).value;
               last.ChunkCompletes? ==> !now.virtualNotUpdated && now.unresolved == {}
    decreases |events|
  {
    hide StepThread;
    var n := |events| - 1;
    var init, e := events[..n], events[n];
    var before := Exec(s, init).value;
    if e.thread == t && e.Run? && (before.threads[t].InsertResolving? || before.threads[t].ResolveLocked?) {
      k := n;
      assert events[..n + 1] == events;
      ChunkEffect(before, t, e.choice);
    } else {
      k := LastChunkOfCall(s, init, t);
      assert init[..k + 1] == events[..k + 1];
    }
  }

  lemma ChunkEffect(s: State, t: Thread, c: Choice)
    requires t in s.threads && (s.threads[t].InsertResolving? || s.threads[t].ResolveLocked?) && StepThread(s, t, c).Some?
    ensures c.ChunkCompletes? ==> !StepThread(s, t, c).value.virtualNotUpdated && StepThread(s, t, c).value.unresolved == {}
  {
  }

  /** The blocks a chunk leaves unresolved. */
  function LeftBy(c: Choice): set<Block> {
    match c
    case ChunkFails(left) => left
    case ChunkContinues(left, _) => left
    case _ => {}
  }

  /**
   What changes the set of unresolved blocks: a block enters it only as the body of an insertion
   without virtual update, always does so, and leaves it only in a chunk.
   */
  lemma UnresolvedChangesOnlySo(s: State, e: Event, b: Block)
    requires Step(s, e).Some?
    ensures var now := Step(s, e).value;
            && (b in now.unresolved && b !in s.unresolved ==>
                  e.Run? && s.threads[e.thread] == PlainLocked(b) && (e.choice == InsertsBody || e.choice == InsertFailsLate))
            && (e.Run? && s.threads[e.thread] == PlainLocked(b) && (e.choice == InsertsBody || e.choice == InsertFailsLate) ==>
                  b in now.unresolved)
            && (b in s.unresolved && b !in now.unresolved ==>
                  e.Run? && (s.threads[e.thread].InsertResolving? || s.threads[e.thread].ResolveLocked?))
            && (e.Run? && (s.threads[e.thread].InsertResolving? || s.threads[e.thread].ResolveLocked?) ==>
                  (b in now.unresolved <==> b in LeftBy(e.choice)))
  {
  }

  /** The flag is raised by a body stored without virtual update and by a partial chunk, and cleared by a complete one. */
  lemma FlagChangesOnlySo(s: State, e: Event)
    requires Step(s, e).Some?
    ensures var now := Step(s, e).value;
            now.virtualNotUpdated ==
            if e.Run? && s.threads[e.thread].PlainLocked? && e.choice == InsertsBody then true
            else if e.Run? && e.choice.ChunkContinues? && (s.threads[e.thread].InsertResolving? || s.threads[e.thread].ResolveLocked?) then true
            else if e.Run? && e.choice.ChunkCompletes? && (s.threads[e.thread].InsertResolving? || s.threads[e.thread].ResolveLocked?) then false
            else s.virtualNotUpdated
  {
  }

  /** The points at which a thread waits for the lock. */
  predicate Waiting(pc: Pc) {
    pc.InsertWait? || pc.InsertRelock? || pc.PlainWait? || pc.ResolveWait?
  }

  /** In every interleaving an unfinished call can go on, unless it waits for a lock that another thread holds. */
  lemma NeverStuck(s: State, events: seq<Event>, t: Thread) returns (c: Choice)
    requires Initial(s) && Exec(s, events).Some?
    requires t in Exec(s, events).value.threads && Exec(s, events).value.threads[t] != Finished
    ensures var now := Exec(s, events).value;
            Step(now, Run(t, c)).Some? || (Waiting(now.threads[t]) && now.holder.Some? && now.holder != Some(t))
  {
    hide Exec;
    EveryRunKeepsInv(s, events);
    var now := Exec(s, events).value;
    InvFacts(now, t);
    c := if now.threads[t].InsertReady? || now.threads[t].PlainLocked? then InsertsHeader else ChunkCompletes(false);
  }

  /** There is no deadlock: while some call is unfinished, some thread can go on. */
  lemma NoDeadlock(s: State, events: seq<Event>, t: Thread) returns (u: Thread, c: Choice)
    requires Initial(s) && Exec(s, events).Some?
    requires t in Exec(s, events).value.threads && Exec(s, events).value.threads[t] != Finished
    ensures Step(Exec(s, events).value, Run(u, c)).Some?
  {
    hide Exec, Step, Inv;
    u := t;
    c := NeverStuck(s, events, t);
    var now := Exec(s, events).value;
    if Step(now, Run(t, c)).None? {
      EveryRunKeepsInv(s, events);
      u := now.holder.value;
      InvFacts(now, u);
      c := NeverStuck(s, events, u);
    }
  }
}
