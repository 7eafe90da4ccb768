/**
 The worker's loops (`Worker._loop`, `_execute`, `_heartbeat`) as steps of many slots, interleaved
 with each other at every statement. A slot may die at any step. The steps refine the lawful
 actions of IngestSystem, so what holds of those holds of every fleet.
 */
module Fleet {
  import opened Seqs
  import opened Corpus
  import Ingest
  import opened IngestRuns
  import opened Planning
  import opened Queue
  import opened QueueRuns
  import QueueSafety
  import opened IngestSystem

  /**
   Where a slot is: between polls, between reap and claim, in the handler, past its commit, past
   its failure, past its ack or nack with the heartbeat task not yet cancelled, or done.
   */
  datatype Slot =
    | Idle(polls: nat)
    | Swept(polls: nat)
    | Working(token: Token)
    | Finished(token: Token)
    | Broken(token: Token)
    | Leaving(token: Token)
    | Halted
  {
    /** The heartbeat task lives: from the claim until it is cancelled. */
    predicate Beating() {
      Working? || Finished? || Broken? || Leaving?
    }

    predicate Holds(t: Token) {
      Beating() && token == t
    }
  }

  datatype Crew = Crew(system: System, slots: map<string, Slot>, processed: nat, failed: nat)

  datatype Move =
    | Sweep(slot: string)
    | Take(slot: string, locked: set<int>, lease: int, drain: bool)
    | Beat(slot: string, lease: int)
    | RunHandler(slot: string)
    | Raise(slot: string)
    | Finish(slot: string)
    | GiveUp(slot: string, delay: int, error: string)
    | Rest(slot: string)
    | Die(slot: string)
    | Stop(slot: string)
    | Outside(e: Event)

  function SlotOf(c: Crew, slot: string): Slot {
    if slot in c.slots then c.slots[slot] else Halted
  }

  /** What a claim of one job brings. */
  function Claimed(c: Crew, e: Event): Option<Token>
    requires e.Claim?
  {
    var chosen := Chosen(c.system.world, e);
    var jobs := Step(c.system.world, e).jobs;
    if chosen == [] || chosen[0] !in jobs then None else Some(Token(chosen[0], jobs[chosen[0]].leaseEpoch, e.claimant))
  }

  /** The database action of a move, if it makes one. */
  function ActionOf(c: Crew, m: Move): Option<Action> {
    match m
    case Sweep(s) => if SlotOf(c, s).Idle? then Some(OnQueue(Reap(QUEUE_NAME))) else None
    case Take(s, locked, lease, _) =>
      if SlotOf(c, s).Swept? then Some(OnQueue(Claim(QUEUE_NAME, s, 1, locked, lease))) else None
    case Beat(s, lease) =>
      if SlotOf(c, s).Beating()
      then Some(OnQueue(Heartbeat(SlotOf(c, s).token.job, SlotOf(c, s).token.epoch, lease))) else None
    case RunHandler(s) => if SlotOf(c, s).Working? then Some(Commit(SlotOf(c, s).token)) else None
    case Finish(s) => if SlotOf(c, s).Finished? then Some(OnQueue(Ack(SlotOf(c, s).token))) else None
    case GiveUp(s, delay, error) =>
      if SlotOf(c, s).Broken?
      then Some(OnQueue(Nack(SlotOf(c, s).token.job, SlotOf(c, s).token.epoch, delay, Clip(error)))) else None
    case Outside(e) => Some(OnQueue(e))
    case _ => None
  }

  /** Two consecutive empty polls end a draining slot. */
  function NextSlot(c: Crew, m: Move, next: System): Slot
    requires !m.Outside?
  {
    var slot := SlotOf(c, m.slot);
    match m
    case Sweep(_) => if slot.Idle? then Swept(slot.polls) else slot
    case Take(s, locked, lease, drain) =>
      if !slot.Swept? then slot
      else
        var got := Claimed(c, Claim(QUEUE_NAME, s, 1, locked, lease));
        if got.Some? then Working(got.value)
        else if drain && slot.polls + 1 >= 2 then Halted
        else Idle(slot.polls + 1)
    case Beat(_, _) => slot
    case RunHandler(_) =>
      if !slot.Working? then slot else if slot.token in next.committed then Finished(slot.token) else Broken(slot.token)
    case Raise(_) => if slot.Working? then Broken(slot.token) else slot
    case Finish(_) => if slot.Finished? then Leaving(slot.token) else slot
    case GiveUp(_, _, _) => if slot.Broken? then Leaving(slot.token) else slot
    case Rest(_) => if slot.Leaving? then Idle(0) else slot
    case Die(_) => Idle(0)
    case Stop(_) => if slot.Idle? then Halted else slot
  }

  function NextSystem(c: Crew, plan: Plan, m: Move): System {
    var a := ActionOf(c, m);
    if a.None? then c.system else Act(c.system, plan, a.value)
  }

  function MakeMove(c: Crew, plan: Plan, m: Move): Crew {
    var next := NextSystem(c, plan, m);
    if m.Outside? then c.(system := next)
    else
      var slot := SlotOf(c, m.slot);
      Crew(next, c.slots[m.slot := NextSlot(c, m, next)],
           if m.Finish? && slot.Finished? then c.processed + 1 else c.processed,
           if m.GiveUp? && slot.Broken? then c.failed + 1 else c.failed)
  }

  function Moves(c: Crew, plan: Plan, moves: seq<Move>): Crew
    decreases |moves|
  {
    if moves == [] then c else Moves(MakeMove(c, plan, moves[0]), plan, moves[1..])
  }

  /** Others tick the clock, plan, and requeue; acks come from slots. */
  predicate Fair(plan: Plan, iso: int -> string, m: Move) {
    match m
    case Outside(Tick(_)) => true
    case Outside(Requeue(_, _)) => true
    case Outside(Enqueue(spec)) =>
      spec.queue == QUEUE_NAME ==> spec.payload in plan && spec == SpecFor(iso, spec.payload)
    case Outside(_) => false
    case _ => true
  }

  // ------------------------------------------------------------- what slots know

  /** A held token was issued for one of our jobs, and a finished slot's has committed. */
  ghost predicate Knows(s: System, slot: Slot) {
    && (slot.Beating() ==> slot.token in s.world.issued && Ours(s.world.jobs, slot.token.job))
    && (slot.Finished? ==> slot.token in s.committed)
  }

  ghost predicate Distinct(slots: map<string, Slot>) {
    forall a, b, t: Token {:trigger slots[a].Holds(t), slots[b].Holds(t)} ::
      a in slots && b in slots && a != b && slots[a].Holds(t) ==> !slots[b].Holds(t)
  }

  ghost predicate CrewInv(c: Crew) {
    && Inv(c.system.world)
    && (forall s :: s in c.slots ==> Knows(c.system, c.slots[s]))
    && Distinct(c.slots)
    && |c.system.world.acked| <= c.processed
  }

  lemma KnowsStill(s: System, plan: Plan, a: Action, slot: Slot)
    requires Inv(s.world) && Knows(s, slot)
    ensures Knows(Act(s, plan, a), slot)
  {
    if a.OnQueue? && slot.Beating() {
      StepRow(s.world, a.e, slot.token.job);
      assert slot.token in Step(s.world, a.e).issued;
    }
  }

  /** A claim of one job issues one token nobody held. */
  lemma ClaimIsNew(c: Crew, e: Event)
    requires Inv(c.system.world) && e.Claim? && e.limit == 1 && Claimed(c, e).Some? && e.queue == QUEUE_NAME
    ensures var t, w' := Claimed(c, e).value, Step(c.system.world, e);
            t in w'.issued && t !in c.system.world.issued && Ours(w'.jobs, t.job)
  {
    var w, chosen := c.system.world, Chosen(c.system.world, e);
    var w', t := Step(w, e), Claimed(c, e).value;
    ChosenFront(w, e);
    assert chosen[0] in chosen;
    var tokens := TokensFor(w'.jobs, chosen, e.claimant);
    assert tokens[0] == t && w'.issued == w.issued + tokens;
    assert t in tokens;
    if t in w.issued {
      OldEpochs(w, t);
    }
  }

  lemma OldEpochs(w: World, t: Token)
    requires Inv(w) && t in w.issued && t.job in w.jobs
    ensures t.epoch <= w.jobs[t.job].leaseEpoch
  {
    var i :| 0 <= i < |w.issued| && w.issued[i] == t;
    QueueSafety.EpochAt(w.issued, i);
    assert LogInv(w, t.job);
    assert t.epoch in Counted(w.jobs[t.job].leaseEpoch);
  }

  lemma MoveLawful(c: Crew, plan: Plan, iso: int -> string, m: Move)
    requires CrewInv(c) && Fair(plan, iso, m) && ActionOf(c, m).Some?
    ensures Lawful(c.system, plan, iso, ActionOf(c, m).value)
  {
    if !m.Outside? && m.slot in c.slots {
      assert Knows(c.system, c.slots[m.slot]);
    }
  }

  /** Only a finishing slot makes the ack log grow, and then `processed` grows with it. */
  lemma AcksCounted(c: Crew, plan: Plan, iso: int -> string, m: Move)
    requires CrewInv(c) && Fair(plan, iso, m)
    ensures |MakeMove(c, plan, m).system.world.acked| <= MakeMove(c, plan, m).processed
  {
    var a := ActionOf(c, m);
    if a.Some? && a.value.OnQueue? {
      var w := Step(c.system.world, a.value.e);
      assert |w.acked| <= |c.system.world.acked| + if a.value.e.Ack? then 1 else 0;
    }
  }

  lemma WorldKeeps(c: Crew, plan: Plan, m: Move)
    requires Inv(c.system.world)
    ensures Inv(NextSystem(c, plan, m).world)
  {
    var a := ActionOf(c, m);
    if a.Some? && a.value.OnQueue? {
      StepKeeps(c.system.world, a.value.e);
    }
  }

  /** A slot that now holds what it held, or what nobody did, shares it with nobody. */
  lemma DistinctStill(slots: map<string, Slot>, s: System, moved: string, slot: Slot, slot': Slot)
    requires Distinct(slots) && forall a :: a in slots ==> Knows(s, slots[a])
    requires moved in slots ==> slot == slots[moved]
    requires forall t :: slot'.Holds(t) ==> (moved in slots && slot.Holds(t)) || t !in s.world.issued
    ensures Distinct(slots[moved := slot'])
  {
    var next := slots[moved := slot'];
    forall a, b, t: Token | a in next && b in next && a != b && next[a].Holds(t) ensures !next[b].Holds(t) {
      if a == moved {
        assert b in slots && Knows(s, slots[b]);
      } else {
        assert a in slots && Knows(s, slots[a]);
      }
    }
  }

  lemma MoveKeeps(c: Crew, plan: Plan, iso: int -> string, m: Move)
    requires CrewInv(c) && Fair(plan, iso, m)
    ensures CrewInv(MakeMove(c, plan, m))
  {
    AcksCounted(c, plan, iso, m);
    WorldKeeps(c, plan, m);
    OthersKnow(c, plan, m);
    if !m.Outside? {
      NewSlotKnows(c, plan, m);
      DistinctStill(c.slots, c.system, m.slot, SlotOf(c, m.slot), NextSlot(c, m, NextSystem(c, plan, m)));
    }
  }

  /** A slot that stays where it is knows what it knew. */
  lemma OthersKnow(c: Crew, plan: Plan, m: Move)
    requires Inv(c.system.world) && forall s :: s in c.slots ==> Knows(c.system, c.slots[s])
    ensures forall s :: s in c.slots ==> Knows(NextSystem(c, plan, m), c.slots[s])
  {
    forall s | s in c.slots && ActionOf(c, m).Some? ensures Knows(NextSystem(c, plan, m), c.slots[s]) {
      KnowsStill(c.system, plan, ActionOf(c, m).value, c.slots[s]);
    }
  }

  /** The slot that moved: it holds nothing, what it held, or a token nobody had. */
  lemma NewSlotKnows(c: Crew, plan: Plan, m: Move)
    requires CrewInv(c) && !m.Outside?
    ensures var slot, slot' := SlotOf(c, m.slot), NextSlot(c, m, NextSystem(c, plan, m));
            && Knows(NextSystem(c, plan, m), slot')
            && forall t :: slot'.Holds(t) ==> slot.Holds(t) || t !in c.system.world.issued
  {
    var slot, next := SlotOf(c, m.slot), NextSystem(c, plan, m);
    var a := ActionOf(c, m);
    assert Knows(c.system, slot);
    if a.Some? {
      KnowsStill(c.system, plan, a.value, slot);
    }
    if m.Take? && slot.Swept? {
      var e := Claim(QUEUE_NAME, m.slot, 1, m.locked, m.lease);
      if Claimed(c, e).Some? {
        ClaimIsNew(c, e);
      }
    }
  }

  // ------------------------------------------------------------- one slot's cycle

  ghost predicate Quiet(jobs: Jobs) {
    forall id :: id in jobs && jobs[id].queue == "ingest" ==> jobs[id].state != Pending && jobs[id].state != Running
  }

  /** A poll of a quiet queue changes no row. The second one in a row ends a draining slot, and only a draining one. */
  lemma EmptyPoll(c: Crew, plan: Plan, slot: string, locked: set<int>, lease: int, drain: bool)
    requires Quiet(c.system.world.jobs) && SlotOf(c, slot).Idle?
    ensures var c' := MakeMove(MakeMove(c, plan, Sweep(slot)), plan, Take(slot, locked, lease, drain));
            && c'.system.world.jobs == c.system.world.jobs
            && SlotOf(c', slot) ==
                 (if drain && SlotOf(c, slot).polls >= 1 then Halted else Idle(SlotOf(c, slot).polls + 1))
  {
    var jobs, swept := c.system.world.jobs, MakeMove(c, plan, Sweep(slot));
    assert swept.system.world.jobs.Keys == jobs.Keys;
    forall id | id in jobs ensures swept.system.world.jobs[id] == jobs[id] {
    }
    SameMap(swept.system.world.jobs, jobs);
    var w, e := swept.system.world, Claim("ingest", slot, 1, locked, lease);
    ChosenFront(w, e);
    var first := if Chosen(w, e) == [] then 0 else Chosen(w, e)[0];
    assert Chosen(w, e) != [] ==> first in Chosen(w, e) && Claimable(jobs[first], "ingest", w.now);
    SameMap(ClaimRows(w.jobs, [], slot, w.now + lease), jobs);
  }

  /** A slot that finds the queue quiet polls once more, and then halts if it drains. */
  lemma TwoEmptyPolls(c: Crew, plan: Plan, slot: string, locked: set<int>, locked': set<int>, lease: int, drain: bool)
    requires Quiet(c.system.world.jobs) && SlotOf(c, slot) == Idle(0)
    ensures var once := MakeMove(MakeMove(c, plan, Sweep(slot)), plan, Take(slot, locked, lease, drain));
            var twice := MakeMove(MakeMove(once, plan, Sweep(slot)), plan, Take(slot, locked', lease, drain));
            && SlotOf(once, slot) == Idle(1)
            && SlotOf(twice, slot) == (if drain then Halted else Idle(2))
  {
    EmptyPoll(c, plan, slot, locked, lease, drain);
    var once := MakeMove(MakeMove(c, plan, Sweep(slot)), plan, Take(slot, locked, lease, drain));
    EmptyPoll(once, plan, slot, locked', lease, drain);
  }

  /** While a row is free, a claim of one takes the first of the line. */
  lemma ClaimsFirst(w: World, e: Event, free: int) returns (id: int)
    requires Inv(w) && e.Claim? && e.limit == 1 && Free(w.jobs, e.queue, w.now, e.locked, free)
    ensures Chosen(w, e) == [id] && Free(w.jobs, e.queue, w.now, e.locked, id)
    ensures id == free || ClaimedBefore(w.jobs, id, free)
  {
    var line := Line(w.jobs, e.queue, w.now, e.locked, w.nextId);
    LineIsOrdered(w.jobs, e.queue, w.now, e.locked, w.nextId);
    assert free in line;
    id := line[0];
    assert id in line;
    var k :| 0 <= k < |line| && line[k] == free;
  }

  /**
   A poll that finds a free row takes exactly one: it is leased to the slot with one more attempt and
   epoch, the slot holds just that token, and no other row changes.
   */
  lemma TakesOne(c: Crew, plan: Plan, slot: string, locked: set<int>, lease: int, drain: bool, free: int)
    returns (token: Token)
    requires Inv(c.system.world) && SlotOf(c, slot).Swept?
    requires free in c.system.world.jobs && free !in locked
    requires var j := c.system.world.jobs[free];
             && j.queue == "ingest" && (j.state == Pending || j.state == Running)
             && j.availableAt <= c.system.world.now && j.attempts < j.maxAttempts
    ensures var w, c' := c.system.world, MakeMove(c, plan, Take(slot, locked, lease, drain));
            && SlotOf(c', slot) == Working(token)
            && c'.system.world.jobs.Keys == w.jobs.Keys && token.job in w.jobs && token.job !in locked
            && IsLeased(w.jobs[token.job], c'.system.world.jobs[token.job], slot, w.now + lease)
            && token == Token(token.job, w.jobs[token.job].leaseEpoch + 1, slot)
            && w.jobs[token.job].priority >= w.jobs[free].priority
            && forall id :: id in w.jobs && id != token.job ==> c'.system.world.jobs[id] == w.jobs[id]
  {
    var w, e := c.system.world, Claim("ingest", slot, 1, locked, lease);
    var id := ClaimsFirst(w, e, free);
    token := Claimed(c, e).value;
    ClaimedRow(w, e, id);
  }

  /**
   The handler commits and the slot is ready to ack, or it raises, which leaves the database alone, and
   the slot is ready to nack.
   */
  lemma HandlerEnds(c: Crew, plan: Plan, slot: string, t: Token)
    requires SlotOf(c, slot) == Working(t) && t !in c.system.committed
    requires var jobs := c.system.world.jobs;
             t.job in jobs && jobs[t.job].queue == "ingest" && jobs[t.job].payload in plan
    ensures var after := Ingest.Committed(c.system.tables, plan[c.system.world.jobs[t.job].payload]);
            var c' := MakeMove(c, plan, RunHandler(slot));
            && c'.system.world == c.system.world
            && (after.Some? ==> c'.system.tables == after.value && SlotOf(c', slot) == Finished(t))
            && (after.None? ==> c'.system == c.system && SlotOf(c', slot) == Broken(t))
    ensures var c' := MakeMove(c, plan, Raise(slot));
            c'.system == c.system && SlotOf(c', slot) == Broken(t)
  {
  }

  /** While a slot holds a token its heartbeat extends the lease, if the fence is still open; else it does nothing. */
  lemma BeatsWhileHeld(c: Crew, plan: Plan, slot: string, lease: int, t: Token)
    requires SlotOf(c, slot) in {Working(t), Finished(t), Broken(t), Leaving(t)} && t.job in c.system.world.jobs
    ensures var w, c' := c.system.world, MakeMove(c, plan, Beat(slot, lease));
            var j := w.jobs[t.job];
            && SlotOf(c', slot) == SlotOf(c, slot)
            && c'.system.world.jobs == w.jobs[t.job := if j.state == Running && j.leaseEpoch == t.epoch
                                                      then j.(availableAt := w.now + lease) else j]
  {
  }

  /** A slot that dies leaves the database as it is and starts again; one that stops finishes its job first. */
  lemma DiesOrStops(c: Crew, plan: Plan, slot: string)
    ensures var c' := MakeMove(c, plan, Die(slot));
            && c'.system == c.system && c'.processed == c.processed && c'.failed == c.failed
            && SlotOf(c', slot) == Idle(0)
    ensures var c' := MakeMove(c, plan, Stop(slot));
            && c'.system == c.system
            && SlotOf(c', slot) == match SlotOf(c, slot) { case Idle(_) => Halted case other => other }
  {
  }

  /** The ack of a slot whose lease still stands ends its row and is counted once; then the slot polls again. */
  lemma FinishCounts(c: Crew, plan: Plan, slot: string)
    requires SlotOf(c, slot).Finished?
    requires var t := SlotOf(c, slot).token; t.job in c.system.world.jobs
    ensures var t, c' := SlotOf(c, slot).token, MakeMove(c, plan, Finish(slot));
            var j, j' := c.system.world.jobs[t.job], c'.system.world.jobs[t.job];
            && j' == (if j.state == Running && j.leaseEpoch == t.epoch
                      then j.(state := Succeeded, claimedBy := None, lastError := None,
                              finishedAt := Some(c.system.world.now))
                      else j)
            && c'.processed == c.processed + 1 && c'.failed == c.failed
            && SlotOf(MakeMove(c', plan, Rest(slot)), slot) == Idle(0)
            && MakeMove(c', plan, Finish(slot)).processed == c'.processed
  {
  }

  /** A failed handler puts its row back for later while attempts are left, and is counted as a failure once. */
  lemma GiveUpCounts(c: Crew, plan: Plan, slot: string, delay: int, error: string)
    requires SlotOf(c, slot).Broken?
    requires var t := SlotOf(c, slot).token; t.job in c.system.world.jobs
    ensures var t, c' := SlotOf(c, slot).token, MakeMove(c, plan, GiveUp(slot, delay, error));
            var now, j, j' := c.system.world.now, c.system.world.jobs[t.job], c'.system.world.jobs[t.job];
            && (j.state != Running || j.leaseEpoch != t.epoch ==> j' == j)
            && (j.state == Running && j.leaseEpoch == t.epoch && j.attempts < j.maxAttempts ==>
                  Postponed(j, j', now + delay))
            && (j.state == Running && j.leaseEpoch == t.epoch && j.attempts >= j.maxAttempts ==>
                  Queue.Finished(j, j', Dead, now))
            && c'.failed == c.failed + 1 && c'.processed == c.processed
            && SlotOf(MakeMove(c', plan, Rest(slot)), slot) == Idle(0)
            && MakeMove(c', plan, GiveUp(slot, delay, error)).failed == c'.failed
  {
  }

  // ------------------------------------------------------------- refinement

  /** Every run of a crew is a run of lawful actions with the same database. */
  lemma {:induction false} CrewRefines(c: Crew, plan: Plan, iso: int -> string, moves: seq<Move>)
    returns (actions: seq<Action>)
    requires CrewInv(c) && forall m :: m in moves ==> Fair(plan, iso, m)
    ensures AllLawful(c.system, plan, iso, actions)
    ensures Acts(c.system, plan, actions) == Moves(c, plan, moves).system
    ensures CrewInv(Moves(c, plan, moves))
    ensures forall e :: Outside(e) in moves ==> OnQueue(e) in actions
    decreases |moves|
  {
    actions := [];
    if moves != [] {
      var m, a := moves[0], ActionOf(c, moves[0]);
      assert m in moves;
      MoveKeeps(c, plan, iso, m);
      var rest := CrewRefines(MakeMove(c, plan, m), plan, iso, moves[1..]);
      actions := rest;
      if a.Some? {
        MoveLawful(c, plan, iso, m);
        actions := [a.value] + rest;
        assert actions[1..] == rest;
      }
    }
  }

  /** No job yet, no slot holding anything. */
  ghost predicate Fresh(c: Crew, now: int, t0: Tables) {
    && c.system == From(now, t0) && c.processed == 0
    && forall s :: s in c.slots ==> c.slots[s].Idle? || c.slots[s].Halted?
  }

  /**
   However many slots run, die and start again: no two ever hold the same token, `processed`
   counts every success, and once each date is enqueued and every job has succeeded the corpus is
   the sequential one.
   */
  lemma CrewEndsAsSequential(c: Crew, now: int, t0: Tables, plan: Plan, iso: int -> string, moves: seq<Move>,
                             order: seq<int>)
    requires Fresh(c, now, t0) && SanePlan(plan) && SnapshotsAgree(plan) && Consistent(t0) && Compatible(t0, plan)
    requires forall a, b :: a in plan && b in plan && iso(a) == iso(b) ==> a == b
    requires forall m :: m in moves ==> Fair(plan, iso, m)
    requires (forall d :: d in order ==> d in plan) && Elems(order) == plan.Keys
    ensures Distinct(Moves(c, plan, moves).slots)
    ensures |Moves(c, plan, moves).system.world.acked| <= Moves(c, plan, moves).processed
    ensures (forall d :: d in plan ==> Outside(Enqueue(SpecFor(iso, d))) in moves) &&
            AllSucceeded(Moves(c, plan, moves).system.world.jobs) ==>
              SameCorpus(Moves(c, plan, moves).system.tables, Commits(t0, plan, order))
  {
    StartInv(now);
    var actions := CrewRefines(c, plan, iso, moves);
    if (forall d :: d in plan ==> Outside(Enqueue(SpecFor(iso, d))) in moves) &&
       AllSucceeded(Moves(c, plan, moves).system.world.jobs) {
      EndsAsSequential(now, t0, plan, iso, actions, order);
    }
  }
}
