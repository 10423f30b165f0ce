/**
 The pool of blocks whose parents have not arrived yet.

 The consensus is a map from known hashes to block statuses.  Inserting a block may accept it,
 reject it by a rule (and then possibly record it as invalid), or fail; a block that is already
 available is never accepted again.
 */
module Orphans {
  import opened Basics

  type Hash = nat

  datatype Block = Block(hash: Hash, parents: seq<Hash>)

  datatype Status = HeaderOnly | Invalid | Valid

  type Statuses = map<Hash, Status>

  datatype Outcome = Accepted | Rejected(recorded: bool) | Failed

  const MAX_ORPHANS := 600

  type Pool = map<Hash, Block>

  /** Known to the consensus with more than its header. */
  predicate Available(statuses: Statuses, h: Hash) {
    h in statuses && statuses[h] != HeaderOnly
  }

  predicate AllAvailable(statuses: Statuses, hashes: seq<Hash>) {
    forall i :: 0 <= i < |hashes| ==> Available(statuses, hashes[i])
  }

  /** Every block is filed under its own hash. */
  predicate ValidPool(pool: Pool) {
    forall h :: h in pool ==> pool[h].hash == h
  }

  predicate Distinct<T(==)>(s: seq<T>) {
    forall i, j :: 0 <= i < j < |s| ==> s[i] != s[j]
  }

  predicate HasUnreadableParent(unreadable: set<Hash>, block: Block) {
    exists i :: 0 <= i < |block.parents| && block.parents[i] in unreadable
  }

  /** Orphans with the given parent. */
  predicate IsChild(pool: Pool, parent: Hash, h: Hash) {
    h in pool && parent in pool[h].parents
  }

  /** A block that was offered to the consensus, and what became of it. */
  datatype Offer = Offer(block: Block, outcome: Outcome)

  /** The blocks accepted, in the order in which they were offered. */
  function AcceptedOf(offers: seq<Offer>): seq<Block> {
    if |offers| == 0 then []
    else
      var last := offers[|offers| - 1];
      AcceptedOf(offers[..|offers| - 1]) + if last.outcome == Accepted then [last.block] else []
  }

  function RejectedOf(offers: seq<Offer>): set<Hash> {
    set i | 0 <= i < |offers| && offers[i].outcome.Rejected? :: offers[i].block.hash
  }

  function RecordedOf(offers: seq<Offer>): set<Hash> {
    set i | 0 <= i < |offers| && offers[i].outcome == Rejected(true) :: offers[i].block.hash
  }

  /**
   Orphans of the first pool were offered, each once and as it was stored there, and exactly these
   have left the pool.
   */
  ghost predicate OffersWhatLeft(offers: seq<Offer>, before: Pool, after: Pool) {
    && (forall i :: 0 <= i < |offers| ==> var b := offers[i].block; b.hash in before && before[b.hash] == b && b.hash !in after)
    && (forall i, j :: 0 <= i < j < |offers| ==> offers[i].block.hash != offers[j].block.hash)
    && (forall h :: h in before && h !in after ==> exists i :: 0 <= i < |offers| && offers[i].block.hash == h)
  }

  lemma OffersSnoc(offers: seq<Offer>, offer: Offer)
    ensures var more := offers + [offer];
            && AcceptedOf(more) == AcceptedOf(offers) + (if offer.outcome == Accepted then [offer.block] else [])
            && RejectedOf(more) == RejectedOf(offers) + (if offer.outcome.Rejected? then {offer.block.hash} else {})
            && RecordedOf(more) == RecordedOf(offers) + (if offer.outcome == Rejected(true) then {offer.block.hash} else {})
  {
    var more := offers + [offer];
    assert more[..|more| - 1] == offers && more[|offers|] == offer;
    assert forall i :: 0 <= i < |offers| ==> more[i] == offers[i];
  }

  lemma OneMoreLeaves(offers: seq<Offer>, before: Pool, pool: Pool, h: Hash, outcome: Outcome)
    requires OffersWhatLeft(offers, before, pool) && h in pool && h in before && before[h] == pool[h] && pool[h].hash == h
    ensures OffersWhatLeft(offers + [Offer(pool[h], outcome)], before, pool - {h})
  {
    var more := offers + [Offer(pool[h], outcome)];
    forall x | x in before && x !in pool - {h}
      ensures exists i :: 0 <= i < |more| && more[i].block.hash == x
    {
      if x == h {
        assert more[|offers|].block.hash == h;
      } else {
        var i :| 0 <= i < |offers| && offers[i].block.hash == x;
        assert more[i].block.hash == x;
      }
    }
  }

  /**
   `unreadable` are the hashes whose lookup fails; `failures` counts failed insertions, and `log`
   holds every block that was ever offered, with the verdict on it.
   */
  class Consensus {
    var statuses: Statuses
    const unreadable: set<Hash>
    ghost var failures: nat
    ghost var log: seq<Offer>

    constructor (statuses: Statuses, unreadable: set<Hash>)
      ensures this.statuses == statuses && this.unreadable == unreadable && failures == 0 && log == []
    {
      this.statuses, this.unreadable, failures, log := statuses, unreadable, 0, [];
    }

    /** Whether the block is missing or header-only; `None` on an error. */
    method IsUnavailable(h: Hash) returns (r: Option<bool>)
      ensures r == if h in unreadable then None else Some(!Available(statuses, h))
    {
      if h in unreadable {
        return None;
      }
      r := Some(h !in statuses || statuses[h] == HeaderOnly);
    }

    method ValidateAndInsertBlock(block: Block) returns (outcome: Outcome)
      modifies this
      ensures outcome == Accepted ==> !Available(old(statuses), block.hash) && statuses == old(statuses)[block.hash := Valid]
      ensures outcome == Rejected(true) ==> !Available(old(statuses), block.hash) && statuses == old(statuses)[block.hash := Invalid]
      ensures outcome == Rejected(false) ==> statuses == old(statuses)
      ensures failures == old(failures) + if outcome == Failed then 1 else 0
      ensures log == old(log) + [Offer(block, outcome)]
    {
      var choice: int := *;
      if choice == 0 && !Available(statuses, block.hash) {
        statuses := statuses[block.hash := Valid];
        outcome := Accepted;
      } else if choice == 1 && !Available(statuses, block.hash) {
        statuses := statuses[block.hash := Invalid];
        outcome := Rejected(true);
      } else if choice <= 2 {
        outcome := Rejected(false);
      } else {
        var left: Statuses := *;
        statuses := left;
        failures := failures + 1;
        outcome := Failed;
      }
      log := log + [Offer(block, outcome)];
    }
  }

  // ---------------------------------------------------------------------------------------
  // What unorphaning keeps
  // ---------------------------------------------------------------------------------------

  predicate Ready(pool: Pool, statuses: Statuses, h: Hash) {
    h in pool && AllAvailable(statuses, pool[h].parents)
  }

  /** Every orphan that is ready, except the root itself, is a child of the root. */
  ghost predicate OnlyChildrenAreReady(start: Start) {
    forall h :: h != start.root && Ready(start.pool, start.statuses, h) ==> IsChild(start.pool, start.root, h)
  }

  function HashesOf(blocks: seq<Block>): set<Hash> {
    set i | 0 <= i < |blocks| :: blocks[i].hash
  }

  /** Some parent of the orphan has been rejected and recorded as invalid. */
  predicate HasParentIn(pool: Pool, h: Hash, hashes: set<Hash>) {
    h in pool && exists i :: 0 <= i < |pool[h].parents| && pool[h].parents[i] in hashes
  }

  /** Blocks of the pool, each once, and each after all of those that are its parents. */
  ghost predicate InOrder(pool: Pool, blocks: seq<Block>) {
    && (forall i :: 0 <= i < |blocks| ==> blocks[i].hash in pool && pool[blocks[i].hash] == blocks[i])
    && (forall i, j :: 0 <= i < j < |blocks| ==> blocks[i].hash != blocks[j].hash && blocks[j].hash !in blocks[i].parents)
  }

  /** Where the search started. */
  datatype Start = Start(pool: Pool, statuses: Statuses, root: Hash)

  /**
   Where the search stands: the pool, what the consensus knows, the queue, what has been
   processed, and the orphans that a recorded rejection has made ready behind the search's back.
   */
  datatype Search = Search(
    pool: Pool,
    statuses: Statuses,
    queue: seq<Hash>,
    accepted: seq<Block>,
    rejected: set<Hash>,
    recorded: set<Hash>,
    stranded: set<Hash>)

  /** What becomes of the first of the queue; an accepted orphan appends its children. */
  datatype Move = Skip | Accept(queue: seq<Hash>) | Reject(recorded: bool)

  /** The search begins with the children of the root in the queue. */
  ghost predicate Begins(start: Start, s: Search) {
    && s == Search(start.pool, start.statuses, s.queue, [], {}, {}, {})
    && Distinct(s.queue) && forall h :: h in s.queue <==> IsChild(start.pool, start.root, h)
  }

  ghost predicate CanMove(s: Search, m: Move) {
    && |s.queue| > 0
    && var first := s.queue[0];
       match m
       case Skip => !Ready(s.pool, s.statuses, first)
       case Accept(queue) =>
         && Ready(s.pool, s.statuses, first) && !Available(s.statuses, first)
         && s.queue[1..] <= queue && Distinct(queue)
         && forall h :: h in queue <==> h in s.queue[1..] || IsChild(s.pool - {first}, first, h)
       case Reject(recorded) => Ready(s.pool, s.statuses, first) && (recorded ==> !Available(s.statuses, first))
  }

  /** Orphans outside the queue that become ready when the first of the queue is recorded as invalid. */
  ghost function NewlyStranded(s: Search): set<Hash>
    requires |s.queue| > 0
  {
    var first := s.queue[0];
    set x | x in s.pool && x != first && x !in s.queue && !Ready(s.pool, s.statuses, x) &&
            Ready(s.pool - {first}, s.statuses[first := Invalid], x)
  }

  ghost function Moved(s: Search, m: Move): Search
    requires CanMove(s, m)
  {
    var first := s.queue[0];
    match m
    case Skip => s.(queue := s.queue[1..])
    case Accept(queue) =>
      s.(pool := s.pool - {first}, statuses := s.statuses[first := Valid], queue := queue,
         accepted := s.accepted + [s.pool[first]])
    case Reject(false) => s.(pool := s.pool - {first}, queue := s.queue[1..], rejected := s.rejected + {first})
    case Reject(true) =>
      s.(pool := s.pool - {first}, statuses := s.statuses[first := Invalid], queue := s.queue[1..],
         rejected := s.rejected + {first}, recorded := s.recorded + {first}, stranded := s.stranded + NewlyStranded(s))
  }

  /** The moves made one after the other; `None` when one of them cannot happen. */
  ghost function Exec(s: Search, moves: seq<Move>): Option<Search> {
    if |moves| == 0 then Some(s)
    else
      var before := Exec(s, moves[..|moves| - 1]);
      if before.Some? && CanMove(before.value, moves[|moves| - 1]) then Some(Moved(before.value, moves[|moves| - 1])) else None
  }

  /** Exactly the accepted and the rejected orphans have left the pool, and availability follows. */
  ghost predicate Accounts(start: Start, s: Search) {
    && InOrder(start.pool, s.accepted)
    && s.recorded <= s.rejected <= start.pool.Keys && HashesOf(s.accepted) !! s.rejected
    && s.pool == start.pool - (HashesOf(s.accepted) + s.rejected)
    && (forall h :: Available(s.statuses, h) <==>
          Available(start.statuses, h) || h in HashesOf(s.accepted) || h in s.recorded)
  }

  /** Stranded, or ready from the start without being a child of the root. */
  predicate IsPassedOver(start: Start, s: Search, h: Hash) {
    h in s.stranded || (Ready(start.pool, start.statuses, h) && !IsChild(start.pool, start.root, h))
  }

  predicate IsUnattended(s: Search, h: Hash) {
    Ready(s.pool, s.statuses, h) && h !in s.queue
  }

  /** The ready orphans outside the queue are exactly those that are passed over. */
  ghost predicate PassesOverExactly(start: Start, s: Search) {
    forall h :: IsUnattended(s, h) <==> IsPassedOver(start, s, h)
  }

  /** Stranded orphans were not ready at first, and hang below a recorded rejection. */
  ghost predicate StrandedBelowRecorded(start: Start, s: Search) {
    forall h :: h in s.stranded ==> HasParentIn(s.pool, h, s.recorded) && !Ready(start.pool, start.statuses, h)
  }

  /** The orphan is a child of the root or of an accepted block. */
  ghost predicate IsReached(start: Start, accepted: seq<Block>, h: Hash) {
    IsChild(start.pool, start.root, h) || exists i :: 0 <= i < |accepted| && IsChild(start.pool, accepted[i].hash, h)
  }

  ghost predicate QueueIsReached(start: Start, s: Search) {
    forall h :: h in s.queue ==> IsReached(start, s.accepted, h)
  }

  lemma ReachedGrows(start: Start, s: Search, queue: seq<Hash>)
    requires QueueIsReached(start, s) && CanMove(s, Accept(queue)) && ValidPool(start.pool)
    requires forall h :: h in s.pool ==> h in start.pool && start.pool[h] == s.pool[h]
    ensures QueueIsReached(start, Moved(s, Accept(queue)))
  {
    var t := Moved(s, Accept(queue));
    var n := |s.accepted|;
    assert t.accepted[n].hash == s.queue[0];
    forall h | h in queue
      ensures IsReached(start, t.accepted, h)
    {
      if h in s.queue[1..] {
        assert h in s.queue && IsReached(start, s.accepted, h);
        if !IsChild(start.pool, start.root, h) {
          var i :| 0 <= i < n && IsChild(start.pool, s.accepted[i].hash, h);
          assert t.accepted[i] == s.accepted[i];
        }
      } else {
        assert IsChild(start.pool, t.accepted[n].hash, h);
      }
    }
  }

  /** What every search keeps. */
  ghost predicate Inv(start: Start, s: Search) {
    Core(start, s) && QueueIsReached(start, s)
  }

  ghost predicate Core(start: Start, s: Search) {
    && ValidPool(start.pool)
    && Accounts(start, s)
    && Distinct(s.queue) && (forall h :: h in s.queue ==> h in s.pool)
    && (forall i :: 0 <= i < |s.accepted| ==> AllAvailable(s.statuses, s.accepted[i].parents))
    && PassesOverExactly(start, s)
    && StrandedBelowRecorded(start, s)
  }

  lemma BeginKeeps(start: Start, s: Search)
    requires ValidPool(start.pool) && Begins(start, s)
    ensures Inv(start, s)
  {
  }

  lemma SkipKeeps(start: Start, s: Search)
    requires Core(start, s) && CanMove(s, Skip)
    ensures Core(start, Moved(s, Skip))
  {
    assert s.queue == [s.queue[0]] + s.queue[1..];
    forall h
      ensures IsUnattended(Moved(s, Skip), h) <==> IsUnattended(s, h)
    {
    }
  }

  lemma HashesOfSnoc(blocks: seq<Block>, b: Block)
    ensures HashesOf(blocks + [b]) == HashesOf(blocks) + {b.hash}
  {
    var more := blocks + [b];
    assert more[|blocks|] == b;
    forall h | h in HashesOf(blocks)
      ensures h in HashesOf(more)
    {
      var i :| 0 <= i < |blocks| && blocks[i].hash == h;
      assert more[i].hash == h;
    }
  }

  /** Accepting the first of the queue and queueing its children. */
  lemma AcceptKeeps(start: Start, s: Search, queue: seq<Hash>)
    requires Core(start, s) && CanMove(s, Accept(queue))
    ensures Core(start, Moved(s, Accept(queue)))
  {
    hide IsPassedOver;
    var first, t := s.queue[0], Moved(s, Accept(queue));
    assert s.queue == [first] + s.queue[1..];
    HashesOfSnoc(s.accepted, s.pool[first]);
    AcceptsInOrder(start, s);
    assert t.pool == start.pool - (HashesOf(t.accepted) + t.rejected);
    assert forall x :: Available(t.statuses, x) <==> Available(s.statuses, x) || x == first;
    assert Accounts(start, t);
    forall x
      ensures IsUnattended(t, x) <==> IsUnattended(s, x)
      ensures IsPassedOver(start, t, x) <==> IsPassedOver(start, s, x)
    {
      SamePassedOver(start, s, t, x);
      if IsUnattended(t, x) {
        BecomesReady(s.pool, s.statuses, first, Valid, x);
      }
      if IsUnattended(s, x) {
        StaysReady(s.pool, s.statuses, first, Valid, x);
      }
    }
    StrandedIsUnattended(start, s);
    KeepsParents(start, s, t);
  }

  lemma SamePassedOver(start: Start, s: Search, t: Search, h: Hash)
    requires s.stranded == t.stranded
    ensures IsPassedOver(start, t, h) <==> IsPassedOver(start, s, h)
  {
  }

  lemma StrandedIsUnattended(start: Start, s: Search)
    requires PassesOverExactly(start, s)
    ensures forall h :: h in s.stranded ==> IsUnattended(s, h)
  {
    forall h | h in s.stranded
      ensures IsUnattended(s, h)
    {
      assert IsPassedOver(start, s, h);
    }
  }

  /** While nothing new is stranded, the stranded orphans keep their recorded parents. */
  lemma KeepsParents(start: Start, s: Search, t: Search)
    requires StrandedBelowRecorded(start, s) && s.stranded == t.stranded && s.recorded <= t.recorded
    requires forall h :: h in s.stranded ==> h in t.pool && h in s.pool && t.pool[h] == s.pool[h]
    ensures StrandedBelowRecorded(start, t)
  {
    forall h | h in t.stranded
      ensures HasParentIn(t.pool, h, t.recorded)
    {
      var i :| 0 <= i < |s.pool[h].parents| && s.pool[h].parents[i] in s.recorded;
      assert t.pool[h].parents[i] in t.recorded;
    }
  }

  lemma AcceptsInOrder(start: Start, s: Search)
    requires ValidPool(start.pool) && Accounts(start, s)
    requires |s.queue| > 0 && Ready(s.pool, s.statuses, s.queue[0]) && !Available(s.statuses, s.queue[0])
    requires forall i :: 0 <= i < |s.accepted| ==> AllAvailable(s.statuses, s.accepted[i].parents)
    ensures InOrder(start.pool, s.accepted + [s.pool[s.queue[0]]])
    ensures s.queue[0] !in HashesOf(s.accepted) && s.queue[0] !in s.rejected
  {
    var blocks := s.accepted + [s.pool[s.queue[0]]];
    forall i, j | 0 <= i < j < |blocks|
      ensures blocks[i].hash != blocks[j].hash && blocks[j].hash !in blocks[i].parents
    {
      if j == |s.accepted| {
        assert blocks[i] == s.accepted[i];
        assert s.accepted[i].hash in HashesOf(s.accepted);
      }
    }
  }

  /** An orphan that the new availability makes ready is a child of the newly available block. */
  lemma BecomesReady(pool: Pool, statuses: Statuses, h: Hash, status: Status, x: Hash)
    requires Ready(pool - {h}, statuses[h := status], x)
    ensures Ready(pool, statuses, x) || IsChild(pool - {h}, h, x)
  {
    if h !in pool[x].parents {
      forall i | 0 <= i < |pool[x].parents|
        ensures Available(statuses, pool[x].parents[i])
      {
        assert Available(statuses[h := status], pool[x].parents[i]);
      }
    }
  }

  /** A ready orphan stays ready when another one becomes available, and is no child of it. */
  lemma StaysReady(pool: Pool, statuses: Statuses, h: Hash, status: Status, x: Hash)
    requires Ready(pool, statuses, x) && x != h && !Available(statuses, h) && status != HeaderOnly
    ensures Ready(pool - {h}, statuses[h := status], x) && !IsChild(pool, h, x)
  {
  }

  /** Rejecting the first of the queue without recording it. */
  lemma PlainRejectKeeps(start: Start, s: Search)
    requires Core(start, s) && CanMove(s, Reject(false))
    ensures Core(start, Moved(s, Reject(false)))
  {
    hide IsPassedOver;
    var first, t := s.queue[0], Moved(s, Reject(false));
    assert s.queue == [first] + s.queue[1..];
    assert t.pool == start.pool - (HashesOf(t.accepted) + t.rejected);
    assert Accounts(start, t);
    forall x
      ensures IsUnattended(t, x) <==> IsUnattended(s, x)
      ensures IsPassedOver(start, t, x) <==> IsPassedOver(start, s, x)
    {
      SamePassedOver(start, s, t, x);
    }
    StrandedIsUnattended(start, s);
    KeepsParents(start, s, t);
  }

  /** Rejecting the first of the queue and recording it as invalid. */
  lemma RecordedRejectKeeps(start: Start, s: Search)
    requires Core(start, s) && CanMove(s, Reject(true))
    ensures Core(start, Moved(s, Reject(true)))
  {
    hide IsPassedOver;
    var first, t := s.queue[0], Moved(s, Reject(true));
    assert s.queue == [first] + s.queue[1..];
    assert t.pool == start.pool - (HashesOf(t.accepted) + t.rejected);
    assert forall x :: Available(t.statuses, x) <==> Available(s.statuses, x) || x == first;
    assert Accounts(start, t);
    forall x
      ensures IsUnattended(t, x) <==> IsUnattended(s, x) || x in NewlyStranded(s)
      ensures IsPassedOver(start, t, x) <==> IsPassedOver(start, s, x) || x in NewlyStranded(s)
    {
      PassedOverGrows(start, s, t, x);
      if IsUnattended(s, x) {
        StaysReady(s.pool, s.statuses, first, Invalid, x);
      }
    }
    var without := t.(stranded := s.stranded);
    StrandedIsUnattended(start, s);
    KeepsParents(start, s, without);
    forall h | h in NewlyStranded(s)
      ensures HasParentIn(t.pool, h, t.recorded) && !Ready(start.pool, start.statuses, h)
    {
      BecomesReady(s.pool, s.statuses, first, Invalid, h);
      var i :| 0 <= i < |t.pool[h].parents| && t.pool[h].parents[i] == first;
      assert t.pool[h].parents[i] in t.recorded;
      ReadyFromTheStart(start, s, h);
    }
  }

  lemma PassedOverGrows(start: Start, s: Search, t: Search, h: Hash)
    requires |s.queue| > 0 && t.stranded == s.stranded + NewlyStranded(s)
    ensures IsPassedOver(start, t, h) <==> IsPassedOver(start, s, h) || h in NewlyStranded(s)
  {
  }

  /** What was ready at the start and is still there is ready now. */
  lemma ReadyFromTheStart(start: Start, s: Search, h: Hash)
    requires Accounts(start, s) && h in s.pool
    ensures Ready(start.pool, start.statuses, h) ==> Ready(s.pool, s.statuses, h)
  {
  }

  lemma ReachedMoves(start: Start, s: Search, m: Move)
    requires Core(start, s) && QueueIsReached(start, s) && CanMove(s, m)
    ensures QueueIsReached(start, Moved(s, m))
  {
    hide IsReached;
    if m.Accept? {
      ReachedGrows(start, s, m.queue);
    } else {
      assert s.queue == [s.queue[0]] + s.queue[1..];
    }
  }

  lemma MoveKeeps(start: Start, s: Search, m: Move)
    requires Inv(start, s) && CanMove(s, m)
    ensures Inv(start, Moved(s, m))
  {
    hide Core, CanMove, Moved, QueueIsReached;
    ReachedMoves(start, s, m);
    match m {
      case Skip => SkipKeeps(start, s);
      case Accept(queue) => AcceptKeeps(start, s, queue);
      case Reject(false) => PlainRejectKeeps(start, s);
      case Reject(true) => RecordedRejectKeeps(start, s);
    }
  }

  /** Every search keeps the invariant, whatever the consensus makes of the orphans. */
  lemma {:induction false} EverySearchKeeps(start: Start, s: Search, moves: seq<Move>)
    requires ValidPool(start.pool) && Begins(start, s) && Exec(s, moves).Some?
    ensures Inv(start, Exec(s, moves).value)
    decreases |moves|
  {
    hide Inv, CanMove, Moved;
    if |moves| == 0 {
      BeginKeeps(start, s);
    } else {
      var init := moves[..|moves| - 1];
      EverySearchKeeps(start, s, init);
      MoveKeeps(start, Exec(s, init).value, moves[|moves| - 1]);
    }
  }

  /**
   What a finished search leaves ready, without any assumption on where it started: exactly the
   stranded orphans, and those that were ready at first without being children of the root.
   */
  lemma LeavesReadyExactly(start: Start, s: Search, moves: seq<Move>, h: Hash)
    requires ValidPool(start.pool) && Begins(start, s) && Exec(s, moves).Some? && Exec(s, moves).value.queue == []
    ensures var end := Exec(s, moves).value;
            Ready(end.pool, end.statuses, h) <==>
            h in end.stranded || (Ready(start.pool, start.statuses, h) && !IsChild(start.pool, start.root, h))
  {
    hide Exec, Begins;
    EverySearchKeeps(start, s, moves);
    var end := Exec(s, moves).value;
    assert IsUnattended(end, h) <==> IsPassedOver(start, end, h);
  }

  /**
   The fixpoint: no orphan but the root is left ready if and only if none but the root has been
   stranded, and none but the root and its children was ready at first.  Nothing is stranded
   unless a rejection is recorded.
   */
  lemma FixpointExactlyWhenNothingIsStranded(start: Start, s: Search, moves: seq<Move>)
    requires ValidPool(start.pool) && Begins(start, s) && Exec(s, moves).Some? && Exec(s, moves).value.queue == []
    ensures var end := Exec(s, moves).value;
            && ((forall h :: h != start.root ==> !Ready(end.pool, end.statuses, h)) <==>
                end.stranded <= {start.root} && OnlyChildrenAreReady(start))
            && (end.recorded == {} ==> end.stranded == {})
  {
    hide Exec, Begins, Ready, IsChild;
    EverySearchKeeps(start, s, moves);
    var end := Exec(s, moves).value;
    forall h
      ensures Ready(end.pool, end.statuses, h) <==>
              h in end.stranded || (Ready(start.pool, start.statuses, h) && !IsChild(start.pool, start.root, h))
    {
      LeavesReadyExactly(start, s, moves, h);
    }
  }

  // ---------------------------------------------------------------------------------------
  // The pool
  // ---------------------------------------------------------------------------------------

  class FlowContext {
    const consensus: Consensus
    var orphans: Pool

    constructor (consensus: Consensus)
      ensures this.consensus == consensus && orphans == map[]
    {
      this.consensus := consensus;
      orphans := map[];
    }

    /** The new orphan enters; beyond the limit one arbitrary orphan, perhaps the new one, leaves. */
    method AddOrphan(block: Block)
      requires ValidPool(orphans) && |orphans| <= 600
      modifies this
      ensures ValidPool(orphans) && |orphans| <= 600
      ensures var added := old(orphans)[block.hash := block];
              if |added| <= 600 then orphans == added
              else exists evicted :: evicted in added && orphans == added - {evicted}
    {
      orphans := orphans[block.hash := block];
      if |orphans| > MAX_ORPHANS {
        EvictRandomOrphan();
      }
    }

    method EvictRandomOrphan()
      requires |orphans| > 0
      modifies this
      ensures exists evicted :: evicted in old(orphans) && orphans == old(orphans) - {evicted} && |orphans| == |old(orphans)| - 1
    {
      var toEvict :| toEvict in orphans;
      assert (orphans - {toEvict}).Keys == orphans.Keys - {toEvict};
      orphans := orphans - {toEvict};
    }

    method FindChildOrphansOfBlock(blockHash: Hash) returns (childOrphans: seq<Hash>)
      ensures Distinct(childOrphans)
      ensures forall h :: h in childOrphans <==> IsChild(orphans, blockHash, h)
    {
      childOrphans := [];
      var remaining := orphans.Keys;
      while remaining != {}
        invariant remaining <= orphans.Keys && Distinct(childOrphans)
        invariant forall h :: h in childOrphans <==> IsChild(orphans, blockHash, h) && h !in remaining
        decreases remaining
      {
        var orphanHash :| orphanHash in remaining;
        var parents := orphans[orphanHash].parents;
        var i := 0;
        while i < |parents| && parents[i] != blockHash
          invariant 0 <= i <= |parents|
          invariant forall j :: 0 <= j < i ==> parents[j] != blockHash
        {
          i := i + 1;
        }
        if i < |parents| {
          childOrphans := childOrphans + [orphanHash];
        }
        remaining := remaining - {orphanHash};
      }
    }

    method AddChildOrphansToProcessQueue(blockHash: Hash, queue: seq<Hash>) returns (processQueue: seq<Hash>)
      requires Distinct(queue)
      ensures Distinct(processQueue) && queue <= processQueue
      ensures forall h :: h in processQueue <==> h in queue || IsChild(orphans, blockHash, h)
    {
      var blockChildren := FindChildOrphansOfBlock(blockHash);
      processQueue := queue;
      for i := 0 to |blockChildren|
        invariant Distinct(processQueue) && queue <= processQueue
        invariant forall h :: h in processQueue <==> h in queue || h in blockChildren[..i]
      {
        var isQueued := false;
        for j := 0 to |processQueue|
          invariant isQueued <==> blockChildren[i] in processQueue[..j]
        {
          if processQueue[j] == blockChildren[i] {
            isQueued := true;
            break;
          }
        }
        if !isQueued {
          processQueue := processQueue + [blockChildren[i]];
        }
      }
    }

    /** The orphan leaves the pool and is offered to the consensus. */
    method UnorphanBlock(orphanHash: Hash) returns (outcome: Outcome)
      requires ValidPool(orphans) && orphanHash in orphans
      modifies this, consensus
      ensures orphans == old(orphans) - {orphanHash}
      ensures outcome == Accepted ==>
        !Available(old(consensus.statuses), orphanHash) && consensus.statuses == old(consensus.statuses)[orphanHash := Valid]
      ensures outcome == Rejected(true) ==>
        !Available(old(consensus.statuses), orphanHash) && consensus.statuses == old(consensus.statuses)[orphanHash := Invalid]
      ensures outcome == Rejected(false) ==> consensus.statuses == old(consensus.statuses)
      ensures consensus.failures == old(consensus.failures) + if outcome == Failed then 1 else 0
      ensures consensus.log == old(consensus.log) + [Offer(old(orphans)[orphanHash], outcome)]
    {
      var orphanBlock := orphans[orphanHash];
      orphans := orphans - {orphanHash};
      outcome := consensus.ValidateAndInsertBlock(orphanBlock);
    }

    /** Whether all parents of a block are available; `None` when a lookup fails. */
    method CanBeUnorphaned(block: Block) returns (r: Option<bool>)
      ensures r.Some? ==> r.value == AllAvailable(consensus.statuses, block.parents)
      ensures r.None? ==> HasUnreadableParent(consensus.unreadable, block)
      ensures r == Some(true) ==> !HasUnreadableParent(consensus.unreadable, block)
    {
      for i := 0 to |block.parents|
        invariant AllAvailable(consensus.statuses, block.parents[..i])
        invariant forall j :: 0 <= j < i ==> block.parents[j] !in consensus.unreadable
      {
        var missing := consensus.IsUnavailable(block.parents[i]);
        if missing.None? {
          return None;
        }
        if missing.value {
          return Some(false);
        }
        assert block.parents[..i + 1] == block.parents[..i] + [block.parents[i]];
      }
      assert block.parents[..|block.parents|] == block.parents;
      r := Some(true);
    }

    /**
     Unorphaning after a new block.  Exactly the orphans that leave the pool are offered to the
     consensus, each once.  On a normal return the accepted and the rejected ones are those the
     consensus has accepted and rejected, the returned blocks are the accepted ones in an order in which
     no block comes before one of its parents, and the orphans that are ready now are exactly
     those stranded by recorded rejections and those that were ready before and are no children
     of the root.
     */
    method UnorphanBlocks(rootBlock: Block)
      returns (unorphaned: Option<seq<Block>>, ghost begin: Search, ghost moves: seq<Move>, ghost end: Search)
      requires ValidPool(orphans)
      modifies this, consensus
      ensures ValidPool(orphans) && orphans.Keys <= old(orphans).Keys
      ensures Begins(Start(old(orphans), old(consensus.statuses), rootBlock.hash), begin)
      ensures old(consensus.log) <= consensus.log
      ensures unorphaned.None? ==>
        || consensus.failures > old(consensus.failures)
        || exists h :: h in orphans && HasUnreadableParent(consensus.unreadable, orphans[h]) &&
             IsReached(Start(old(orphans), old(consensus.statuses), rootBlock.hash), AcceptedOf(consensus.log[|old(consensus.log)|..]), h)
      ensures OffersWhatLeft(consensus.log[|old(consensus.log)|..], old(orphans), orphans)
      ensures unorphaned.Some? ==>
        var offers := consensus.log[|old(consensus.log)|..];
        unorphaned.value == AcceptedOf(offers) && end.rejected == RejectedOf(offers) && end.recorded == RecordedOf(offers)
      ensures unorphaned.Some? ==>
        && consensus.failures == old(consensus.failures)
        && Exec(begin, moves) == Some(end) && end.queue == []
        && orphans == end.pool && consensus.statuses == end.statuses && unorphaned.value == end.accepted
        && Accounts(Start(old(orphans), old(consensus.statuses), rootBlock.hash), end)
        && forall h :: Ready(orphans, consensus.statuses, h) <==>
             h in end.stranded ||
             (Ready(old(orphans), old(consensus.statuses), h) && !IsChild(old(orphans), rootBlock.hash, h))
    {
      hide Inv, Accounts, Exec, Begins, CanMove, Moved, OffersWhatLeft, Tracks, Ready, IsReached;
      ghost var offers: seq<Offer> := [];
      NothingOffered(orphans);
      ghost var start := Start(orphans, consensus.statuses, rootBlock.hash);
      var processQueue := AddChildOrphansToProcessQueue(rootBlock.hash, []);
      var unorphanedBlocks := [];
      begin := Search(orphans, consensus.statuses, processQueue, [], {}, {}, {});
      end, moves := begin, [];
      BeginsHere(start, begin);
      BeginKeeps(start, begin);
      BeginTracks(begin);
      while |processQueue| > 0
        invariant ValidPool(orphans) && orphans.Keys <= old(orphans).Keys
        invariant consensus.failures == old(consensus.failures)
        invariant Begins(start, begin) && Exec(begin, moves) == Some(end) && Inv(start, end)
        invariant StandsAt(end, processQueue, unorphanedBlocks) && Tracks(end, offers)
        invariant consensus.log == old(consensus.log) + offers && OffersWhatLeft(offers, old(orphans), orphans)
        decreases |orphans|, |processQueue|
      {
        ghost var move, offered := Skip, offers;
        var ok;
        ok, processQueue, unorphanedBlocks, move, offers := ProcessNext(processQueue, unorphanedBlocks, start, end, offers);
        if !ok {
          assert consensus.log[|old(consensus.log)|..] == offers;
          if consensus.failures <= old(consensus.failures) {
            TracksAll(end, offered);
            var h :| h in orphans && HasUnreadableParent(consensus.unreadable, orphans[h]) && IsReached(start, end.accepted, h);
            assert IsReached(start, AcceptedOf(consensus.log[|old(consensus.log)|..]), h);
          }
          return None, begin, moves, end;
        }
        ExecExtends(begin, moves, end, move);
        moves, end := moves + [move], Moved(end, move);
      }
      forall h
        ensures Ready(orphans, consensus.statuses, h) <==>
                h in end.stranded || (Ready(start.pool, start.statuses, h) && !IsChild(start.pool, start.root, h))
      {
        LeavesReadyExactly(start, begin, moves, h);
      }
      InvAccounts(start, end);
      assert consensus.log[|old(consensus.log)|..] == offers;
      TracksAll(end, offers);
      unorphaned := Some(unorphanedBlocks);
    }

    /** Pool, consensus, queue and result are where the search stands. */
    ghost predicate StandsAt(s: Search, queue: seq<Hash>, blocks: seq<Block>)
      reads this, consensus
    {
      s.pool == orphans && s.statuses == consensus.statuses && s.queue == queue && s.accepted == blocks
    }

    /** One round of the loop: the first of the queue is skipped, or unorphaned, which makes one move. */
    method ProcessNext(queue: seq<Hash>, blocks: seq<Block>, ghost start: Start, ghost s: Search, ghost offers: seq<Offer>)
      returns (ok: bool, queue': seq<Hash>, blocks': seq<Block>, ghost move: Move, ghost offers': seq<Offer>)
      requires ValidPool(orphans) && |queue| > 0
      requires Inv(start, s) && StandsAt(s, queue, blocks) && Tracks(s, offers) && OffersWhatLeft(offers, start.pool, orphans)
      modifies this, consensus
      ensures ValidPool(orphans) && orphans.Keys <= old(orphans).Keys && OffersWhatLeft(offers', start.pool, orphans)
      ensures offers <= offers' && consensus.log == old(consensus.log) + offers'[|offers|..]
      ensures ok ==>
        && consensus.failures == old(consensus.failures)
        && CanMove(s, move) && Inv(start, Moved(s, move))
        && StandsAt(Moved(s, move), queue', blocks') && Tracks(Moved(s, move), offers')
        && (|orphans| < |old(orphans)| || (orphans == old(orphans) && |queue'| < |queue|))
      ensures !ok ==>
        || consensus.failures > old(consensus.failures)
        || (offers' == offers &&
            exists h :: h in orphans && HasUnreadableParent(consensus.unreadable, orphans[h]) && IsReached(start, s.accepted, h))
    {
      hide Inv, CanMove, Moved, OffersWhatLeft, Tracks, IsReached;
      InvQueue(start, s);
      queue', blocks', move, offers' := queue[1..], blocks, Skip, offers;
      var orphanHash := queue[0];
      var orphanBlock := orphans[orphanHash];
      var canBeUnorphaned := CanBeUnorphaned(orphanBlock);
      if canBeUnorphaned.None? {
        assert HasUnreadableParent(consensus.unreadable, orphans[orphanHash]) && IsReached(start, s.accepted, orphanHash);
        return false, queue', blocks', move, offers';
      }
      if !canBeUnorphaned.value {
        SkipHappens(s);
        SkipTracks(s, offers);
        MoveKeeps(start, s, Skip);
        return true, queue', blocks', move, offers';
      }
      Shrinks(orphans, orphanHash);
      var outcome := UnorphanBlock(orphanHash);
      OneMoreLeaves(offers, start.pool, s.pool, orphanHash, outcome);
      offers' := offers + [Offer(orphanBlock, outcome)];
      ok := outcome != Failed;
      if outcome == Accepted {
        blocks' := blocks + [orphanBlock];
        queue' := AddChildOrphansToProcessQueue(orphanHash, queue');
        move := Accept(queue');
        AcceptHappens(s, queue');
        AcceptTracks(s, offers, queue');
        MoveKeeps(start, s, move);
      } else if ok {
        move := Reject(outcome.recorded);
        RejectHappens(s, outcome.recorded);
        RejectTracks(s, offers, outcome.recorded);
        MoveKeeps(start, s, move);
      }
    }

    /** The parents of an orphan that have not been met yet join the queue. */
    method Enqueue(parents: seq<Hash>, queue: seq<Hash>, added: set<Hash>) returns (queue': seq<Hash>, added': set<Hash>)
      requires Distinct(queue) && forall h :: h in queue ==> h in added
      ensures queue <= queue' && Distinct(queue') && added' == added + set i | 0 <= i < |parents| :: parents[i]
      ensures forall h :: h in queue' <==> h in queue || (h in added' && h !in added)
      ensures added' == added ==> queue' == queue
    {
      queue', added' := queue, added;
      for i := 0 to |parents|
        invariant queue <= queue' && Distinct(queue') && added' == added + set j | 0 <= j < i :: parents[j]
        invariant forall h :: h in queue' <==> h in queue || (h in added' && h !in added)
        invariant queue' == queue || exists h :: h in added' && h !in added
      {
        if parents[i] !in added' {
          queue' := queue' + [parents[i]];
          added' := added' + {parents[i]};
        }
      }
    }

    /**
     The roots of the missing ancestors: without duplicates exactly the hashes that are reachable
     from the orphan along parent edges through orphans, are no orphans themselves and are not
     available; nothing for a block that is no orphan; and an error exactly when one of these
     lookups fails.
     */
    method GetOrphanRoots(orphan: Hash) returns (r: Option<seq<Hash>>, orphanExists: bool)
      ensures r.None? <==>
        (orphan in orphans && exists h :: Reachable(orphans, orphan, h) && h !in orphans && h in consensus.unreadable)
      ensures r.Some? ==> orphanExists == (orphan in orphans)
      ensures r.Some? && !orphanExists ==> r.value == []
      ensures r.Some? && orphanExists ==>
        && Distinct(r.value)
        && forall h :: h in r.value <==> Reachable(orphans, orphan, h) && h !in orphans && !Available(consensus.statuses, h)
    {
      hide Reachable;
      if orphan !in orphans {
        return Some([]), false;
      }
      var queue := [orphan];
      var addedToQueueSet := {orphan};
      var roots: seq<Hash> := [];
      ReachesItself(orphans, orphan);
      while |queue| > 0
        invariant orphan in addedToQueueSet && addedToQueueSet <= Universe(orphans, orphan)
        invariant Distinct(queue) && forall h :: h in queue ==> h in addedToQueueSet
        invariant forall h :: h in addedToQueueSet ==> Reachable(orphans, orphan, h)
        invariant forall h, p :: h in addedToQueueSet && h !in queue && IsChild(orphans, p, h) ==> p in addedToQueueSet
        invariant forall h :: h in addedToQueueSet && h !in queue && h !in orphans ==> h !in consensus.unreadable
        invariant Distinct(roots)
        invariant forall h :: h in roots <==> h in addedToQueueSet && h !in queue && h !in orphans && !Available(consensus.statuses, h)
        decreases Universe(orphans, orphan) - addedToQueueSet, |queue|
      {
        var current := queue[0];
        ghost var before := queue;
        assert forall h :: h in before <==> h == current || h in before[1..];
        queue := queue[1..];
        if current !in orphans {
          var missing := consensus.IsUnavailable(current);
          if missing.None? {
            return None, false;
          }
          if missing.value {
            roots := roots + [current];
          }
        } else {
          ghost var visited := addedToQueueSet;
          var parents := orphans[current].parents;
          queue, addedToQueueSet := Enqueue(parents, queue, addedToQueueSet);
          forall h | h in addedToQueueSet
            ensures Reachable(orphans, orphan, h) && h in Universe(orphans, orphan)
          {
            if h !in visited {
              var i :| 0 <= i < |parents| && parents[i] == h;
              ReachesParent(orphans, orphan, current, h);
            }
          }
          if addedToQueueSet != visited {
            var h :| h in addedToQueueSet && h !in visited;
            assert h in Universe(orphans, orphan) - visited && h !in Universe(orphans, orphan) - addedToQueueSet;
          }
        }
      }
      forall h | Reachable(orphans, orphan, h)
        ensures h in addedToQueueSet
      {
        ClosedHoldsReachable(orphans, addedToQueueSet, orphan, h);
      }
      r, orphanExists := Some(roots), true;
    }
  }

  /** If nothing but the root was ready before the root became available, only its children are ready now. */
  lemma RootMakesOnlyItsChildrenReady(pool: Pool, before: Statuses, root: Hash, status: Status)
    requires forall h :: h != root ==> !Ready(pool, before, h)
    ensures OnlyChildrenAreReady(Start(pool, before[root := status], root))
  {
    forall h | h != root && Ready(pool, before[root := status], h)
      ensures IsChild(pool, root, h)
    {
      if root !in pool[h].parents {
        forall i | 0 <= i < |pool[h].parents|
          ensures Available(before, pool[h].parents[i])
        {
          assert Available(before[root := status], pool[h].parents[i]);
        }
        assert Ready(pool, before, h);
      }
    }
  }

  /**
   A recorded rejection can strand its children: with orphan 1 on the root 0 and orphan 2 on 1,
   the search in which 1 is rejected and recorded as invalid ends with 2 stranded: still in the
   pool, with its only parent available.
   */
  lemma RecordedRejectionStrandsChildren()
    ensures var start := Start(map[1 := Block(1, [0]), 2 := Block(2, [1])], map[0 := Valid], 0);
            var begin := Search(start.pool, start.statuses, [1], [], {}, {}, {});
            var end := Search(map[2 := Block(2, [1])], map[0 := Valid, 1 := Invalid], [], [], {1}, {1}, {2});
            && ValidPool(start.pool) && OnlyChildrenAreReady(start) && Begins(start, begin)
            && Exec(begin, [Reject(true)]) == Some(end)
            && Ready(end.pool, end.statuses, 2)
  {
    var start := Start(map[1 := Block(1, [0]), 2 := Block(2, [1])], map[0 := Valid], 0);
    var begin := Search(start.pool, start.statuses, [1], [], {}, {}, {});
    assert Ready(start.pool, start.statuses, 1) && !Available(start.statuses, 1);
    assert start.pool[2].parents[0] == 1;
    assert start.pool - {1} == map[2 := Block(2, [1])] && start.statuses[1 := Invalid] == map[0 := Valid, 1 := Invalid];
    assert Ready(start.pool - {1}, start.statuses[1 := Invalid], 2);
    assert NewlyStranded(begin) == {2};
    assert CanMove(begin, Reject(true)) && [1][1..] == [] && {} + {1} == {1} && {} + {2} == {2};
    assert [Reject(true)][..0] == [];
  }

  // ---------------------------------------------------------------------------------------
  // Roots of the missing ancestors
  // ---------------------------------------------------------------------------------------

  /** A path along parent edges; every block but the last is an orphan. */
  ghost predicate IsPath(pool: Pool, path: seq<Hash>) {
    |path| > 0 && forall i :: 0 <= i < |path| - 1 ==> IsChild(pool, path[i + 1], path[i])
  }

  ghost predicate Reachable(pool: Pool, from: Hash, to: Hash) {
    exists path :: IsPath(pool, path) && path[0] == from && path[|path| - 1] == to
  }

  lemma ReachesItself(pool: Pool, h: Hash)
    ensures Reachable(pool, h, h)
  {
    assert IsPath(pool, [h]) && [h][0] == h && [h][|[h]| - 1] == h;
  }

  lemma ReachesParent(pool: Pool, from: Hash, h: Hash, parent: Hash)
    requires Reachable(pool, from, h) && IsChild(pool, parent, h)
    ensures Reachable(pool, from, parent)
  {
    var path :| IsPath(pool, path) && path[0] == from && path[|path| - 1] == h;
    var longer := path + [parent];
    forall i | 0 <= i < |longer| - 1
      ensures IsChild(pool, longer[i + 1], longer[i])
    {
      if i < |path| - 1 {
        assert longer[i] == path[i] && longer[i + 1] == path[i + 1];
      }
    }
    assert IsPath(pool, longer) && longer[0] == from && longer[|longer| - 1] == parent;
  }

  /** A set that holds the start and the parents of its orphans holds everything reachable. */
  lemma {:induction false} ClosedHoldsPath(pool: Pool, closed: set<Hash>, path: seq<Hash>, n: nat)
    requires IsPath(pool, path) && path[0] in closed && n < |path|
    requires forall h, p :: h in closed && IsChild(pool, p, h) ==> p in closed
    ensures path[n] in closed
  {
    if n > 0 {
      ClosedHoldsPath(pool, closed, path, n - 1);
      assert IsChild(pool, path[n - 1 + 1], path[n - 1]);
    }
  }

  lemma ClosedHoldsReachable(pool: Pool, closed: set<Hash>, from: Hash, to: Hash)
    requires from in closed && Reachable(pool, from, to)
    requires forall h, p :: h in closed && IsChild(pool, p, h) ==> p in closed
    ensures to in closed
  {
    var path :| IsPath(pool, path) && path[0] == from && path[|path| - 1] == to;
    ClosedHoldsPath(pool, closed, path, |path| - 1);
  }

  /** Everything a search can meet. */
  function Universe(pool: Pool, from: Hash): set<Hash> {
    {from} + set h, i | h in pool && 0 <= i < |pool[h].parents| :: pool[h].parents[i]
  }

  lemma BeginsHere(start: Start, s: Search)
    requires s == Search(start.pool, start.statuses, s.queue, [], {}, {}, {}) && Distinct(s.queue)
    requires forall h :: h in s.queue <==> IsChild(start.pool, start.root, h)
    ensures Begins(start, s) && Exec(s, []) == Some(s)
  {
  }

  lemma SkipHappens(s: Search)
    requires |s.queue| > 0 && !Ready(s.pool, s.statuses, s.queue[0])
    ensures CanMove(s, Skip) && Moved(s, Skip) == s.(queue := s.queue[1..])
  {
  }

  lemma AcceptHappens(s: Search, queue: seq<Hash>)
    requires |s.queue| > 0 && Ready(s.pool, s.statuses, s.queue[0]) && !Available(s.statuses, s.queue[0])
    requires s.queue[1..] <= queue && Distinct(queue)
    requires forall h :: h in queue <==> h in s.queue[1..] || IsChild(s.pool - {s.queue[0]}, s.queue[0], h)
    ensures CanMove(s, Accept(queue))
    ensures var t, first := Moved(s, Accept(queue)), s.queue[0];
            && t.pool == s.pool - {first} && t.statuses == s.statuses[first := Valid]
            && t.queue == queue && t.accepted == s.accepted + [s.pool[first]]
            && t.rejected == s.rejected && t.recorded == s.recorded
  {
  }

  lemma RejectHappens(s: Search, recorded: bool)
    requires |s.queue| > 0 && Ready(s.pool, s.statuses, s.queue[0]) && (recorded ==> !Available(s.statuses, s.queue[0]))
    ensures CanMove(s, Reject(recorded))
    ensures var t, first := Moved(s, Reject(recorded)), s.queue[0];
            && t.pool == s.pool - {first} && t.statuses == (if recorded then s.statuses[first := Invalid] else s.statuses)
            && t.queue == s.queue[1..] && t.accepted == s.accepted && t.rejected == s.rejected + {first}
            && t.recorded == s.recorded + (if recorded then {first} else {})
  {
  }

  /** The search has accepted, rejected and recorded what the consensus has. */
  ghost predicate Tracks(s: Search, offers: seq<Offer>) {
    s.accepted == AcceptedOf(offers) && s.rejected == RejectedOf(offers) && s.recorded == RecordedOf(offers)
  }

  lemma TracksAll(s: Search, offers: seq<Offer>)
    requires Tracks(s, offers)
    ensures s.accepted == AcceptedOf(offers) && s.rejected == RejectedOf(offers) && s.recorded == RecordedOf(offers)
  {
  }

  lemma BeginTracks(s: Search)
    requires s.accepted == [] && s.rejected == {} && s.recorded == {}
    ensures Tracks(s, [])
  {
  }

  lemma SkipTracks(s: Search, offers: seq<Offer>)
    requires Tracks(s, offers) && CanMove(s, Skip)
    ensures Tracks(Moved(s, Skip), offers)
  {
  }

  lemma AcceptTracks(s: Search, offers: seq<Offer>, queue: seq<Hash>)
    requires Tracks(s, offers) && CanMove(s, Accept(queue))
    ensures Tracks(Moved(s, Accept(queue)), offers + [Offer(s.pool[s.queue[0]], Accepted)])
  {
    OffersSnoc(offers, Offer(s.pool[s.queue[0]], Accepted));
  }

  lemma RejectTracks(s: Search, offers: seq<Offer>, recorded: bool)
    requires Tracks(s, offers) && CanMove(s, Reject(recorded)) && s.pool[s.queue[0]].hash == s.queue[0]
    ensures Tracks(Moved(s, Reject(recorded)), offers + [Offer(s.pool[s.queue[0]], Rejected(recorded))])
  {
    OffersSnoc(offers, Offer(s.pool[s.queue[0]], Rejected(recorded)));
  }

  lemma NothingOffered(pool: Pool)
    ensures OffersWhatLeft([], pool, pool)
  {
  }

  lemma InvQueue(start: Start, s: Search)
    requires Inv(start, s)
    ensures Distinct(s.queue) && (forall h :: h in s.queue ==> h in s.pool)
    ensures |s.queue| > 0 ==> Distinct(s.queue[1..])
    ensures forall h :: h in s.pool ==> h in start.pool && start.pool[h] == s.pool[h]
    ensures forall h :: h in s.queue ==> IsReached(start, s.accepted, h)
  {
  }

  lemma InvAccounts(start: Start, s: Search)
    requires Inv(start, s)
    ensures Accounts(start, s)
  {
  }

  lemma ExecExtends(s: Search, moves: seq<Move>, t: Search, m: Move)
    requires Exec(s, moves) == Some(t) && CanMove(t, m)
    ensures Exec(s, moves + [m]) == Some(Moved(t, m))
  {
    hide CanMove, Moved;
    assert (moves + [m])[..|moves|] == moves;
  }

  lemma Shrinks(pool: Pool, h: Hash)
    requires h in pool
    ensures |pool - {h}| < |pool|
  {
    assert (pool - {h}).Keys == pool.Keys - {h};
  }
}
