/**
 Ingestion from the records to the corpus: `plan_ingest` plans and enqueues, a fleet works the queue
 off, and what is left is what the plan's dates would leave one after the other.
 */
module PlannedRuns {
  import opened Seqs
  import opened Timeline
  import opened Corpus
  import opened Ingest
  import opened IngestRuns
  import opened Planning
  import opened Queue
  import opened QueueRuns
  import opened IngestSystem
  import opened Fleet

  // ------------------------------------------------------------- what the planner leaves

  /** The specs of the targets, in order. */
  function SpecsFor(iso: int -> string, targets: seq<int>): (specs: seq<JobSpec>)
    ensures |specs| == |targets| && forall i :: 0 <= i < |specs| ==> specs[i] == SpecFor(iso, targets[i])
    ensures forall s :: s in specs ==> s.maxAttempts >= 1
  {
    seq(|targets|, i requires 0 <= i < |targets| => SpecFor(iso, targets[i]))
  }

  /** Every target has its work: the intervals in force on it, and the sections of its snapshot. */
  ghost predicate WorksFor(plan: Plan, ts: Timelines, targets: seq<int>, document: int,
                           snapshot: int -> seq<ParsedSection>) {
    && plan.Keys == Elems(targets) && PlanOf(plan, ts)
    && forall d :: d in plan ==> plan[d].document == document && plan[d].sections == snapshot(d)
  }

  /** The plan is one the theorems speak of: its intervals come from timelines. */
  lemma WorksAreSane(plan: Plan, ts: Timelines, records: seq<VersionRecord>, targets: seq<int>, document: int,
                     snapshot: int -> seq<ParsedSection>)
    requires TimelinesOf(ts, records) && WorksFor(plan, ts, targets, document, snapshot)
    ensures SanePlan(plan)
  {
    PlannedIsSane(plan, ts, records);
  }

  /** `plan_ingest`: plan and enqueue; `plan` is what the payloads hold, by date. */
  method PlanAndEnqueue(records: seq<VersionRecord>, dates: seq<int>, iso: int -> string, document: int,
                        snapshot: int -> seq<ParsedSection>, queue: JobQueue)
    returns (created: nat, plan: Plan, targets: seq<int>, ghost ts: Timelines)
    requires queue.Valid() && queue.name == QUEUE_NAME
    modifies queue
    ensures queue.Valid() && TimelinesOf(ts, records) && TargetsOf(targets, records, dates)
    ensures WorksFor(plan, ts, targets, document, snapshot)
    ensures queue.now == old(queue.now)
    ensures (queue.jobs, queue.nextId, created) ==
            EnqueuedAll(old(queue.jobs), old(queue.nextId), queue.now, SpecsFor(iso, targets))
  {
    var lists, specs, timelines;
    timelines, targets, lists, specs := PlanIngest(records, dates, iso);
    ts := timelines;
    assert specs == SpecsFor(iso, targets);
    assert AddressedAll(specs, queue.name) == specs;
    plan := Payloads(timelines, targets, lists, document, snapshot);
    created := queue.EnqueueMany(specs);
  }

  /** The works by date; a date asked for twice keeps its first list, as its key keeps the first job. */
  method Payloads(ts: Timelines, targets: seq<int>, lists: seq<seq<SectionInterval>>, document: int,
                  snapshot: int -> seq<ParsedSection>) returns (plan: Plan)
    requires |lists| == |targets| && forall i :: 0 <= i < |targets| ==> PlannedFor(lists[i], ts, targets[i])
    ensures WorksFor(plan, ts, targets, document, snapshot)
  {
    plan := map[];
    for i := 0 to |targets|
      invariant plan.Keys == Elems(targets[..i]) && PlanOf(plan, ts)
      invariant forall d :: d in plan ==> plan[d].document == document && plan[d].sections == snapshot(d)
    {
      assert targets[..i + 1] == targets[..i] + [targets[i]];
      if targets[i] !in plan {
        plan := plan[targets[i] := Work(document, lists[i], snapshot(targets[i]))];
      }
    }
    assert targets[..|targets|] == targets;
  }

  // ------------------------------------------------------------- enqueueing as moves

  function EnqueueMoves(specs: seq<JobSpec>): (moves: seq<Move>)
    ensures |moves| == |specs| && forall i :: 0 <= i < |moves| ==> moves[i] == Outside(Enqueue(specs[i]))
  {
    seq(|specs|, i requires 0 <= i < |specs| => Outside(Enqueue(specs[i])))
  }

  lemma {:induction false} MovesSplit(c: Crew, plan: Plan, a: seq<Move>, b: seq<Move>)
    ensures Moves(c, plan, a + b) == Moves(Moves(c, plan, a), plan, b)
    decreases |a|
  {
    if a == [] {
      assert a + b == b;
    } else {
      assert (a + b)[1..] == a[1..] + b;
      MovesSplit(MakeMove(c, plan, a[0]), plan, a[1..], b);
    }
  }

  /** A crew beside the queue as the planner's transaction leaves it. */
  function Beside(c: Crew, jobs: Jobs, nextId: nat): Crew {
    c.(system := c.system.(world := c.system.world.(jobs := jobs, nextId := nextId)))
  }

  /** Enqueueing the specs one by one is what the transaction does. */
  lemma {:induction false} EnqueueMovesMake(c: Crew, plan: Plan, specs: seq<JobSpec>)
    requires forall s :: s in specs ==> s.maxAttempts >= 1
    ensures var w := c.system.world;
            var (jobs, nextId, _) := EnqueuedAll(w.jobs, w.nextId, w.now, specs);
            Moves(c, plan, EnqueueMoves(specs)) == Beside(c, jobs, nextId)
    decreases |specs|
  {
    if specs != [] {
      var rest, last := specs[..|specs| - 1], specs[|specs| - 1];
      assert EnqueueMoves(specs) == EnqueueMoves(rest) + [Outside(Enqueue(last))];
      EnqueueMovesMake(c, plan, rest);
      MovesSplit(c, plan, EnqueueMoves(rest), [Outside(Enqueue(last))]);
      OneMove(Moves(c, plan, EnqueueMoves(rest)), plan, Outside(Enqueue(last)));
      assert last in specs;
    }
  }

  lemma OneMove(c: Crew, plan: Plan, m: Move)
    ensures Moves(c, plan, [m]) == MakeMove(c, plan, m)
  {
    assert [m][1..] == [];
    assert Moves(MakeMove(c, plan, m), plan, []) == MakeMove(c, plan, m);
  }

  // ------------------------------------------------------------- from the plan to the corpus

  /** The crew over the jobs the planner made in an empty table. */
  function Planned(c: Crew, iso: int -> string, targets: seq<int>): Crew {
    var w := c.system.world;
    var (jobs, nextId, _) := EnqueuedAll(w.jobs, w.nextId, w.now, SpecsFor(iso, targets));
    Beside(c, jobs, nextId)
  }

  /** Planning into an empty table: the rows a crew that starts there finds. */
  method PlanForCrew(records: seq<VersionRecord>, dates: seq<int>, iso: int -> string, document: int,
                     snapshot: int -> seq<ParsedSection>, now: int, visibilityTimeout: int, ghost c: Crew,
                     ghost t0: Tables)
    returns (queue: JobQueue, created: nat, plan: Plan, targets: seq<int>, ghost ts: Timelines)
    requires Fresh(c, now, t0)
    ensures fresh(queue) && TimelinesOf(ts, records) && TargetsOf(targets, records, dates)
    ensures WorksFor(plan, ts, targets, document, snapshot)
    ensures queue.jobs == Planned(c, iso, targets).system.world.jobs
  {
    queue := new JobQueue(QUEUE_NAME, visibilityTimeout, now);
    created, plan, targets, ts := PlanAndEnqueue(records, dates, iso, document, snapshot, queue);
  }

  /**
   However the fleet works the planned jobs off: once all have succeeded, the corpus is the one the
   targets leave one after the other. What it takes of the tables, and of the snapshots, is named.
   */
  lemma PlannedEndsAsSequential(c: Crew, now: int, t0: Tables, plan: Plan, iso: int -> string, moves: seq<Move>,
                                records: seq<VersionRecord>, ts: Timelines, targets: seq<int>, document: int,
                                snapshot: int -> seq<ParsedSection>)
    requires TimelinesOf(ts, records) && WorksFor(plan, ts, targets, document, snapshot)
    requires Fresh(c, now, t0) && Consistent(t0) && Compatible(t0, plan) && SnapshotsAgree(plan)
    requires forall a, b :: a in plan && b in plan && iso(a) == iso(b) ==> a == b
    requires forall m :: m in moves ==> Fair(plan, iso, m)
    requires AllSucceeded(Moves(Planned(c, iso, targets), plan, moves).system.world.jobs)
    ensures forall d :: d in targets ==> d in plan
    ensures SameCorpus(Moves(Planned(c, iso, targets), plan, moves).system.tables, Commits(t0, plan, targets))
  {
    var specs := SpecsFor(iso, targets);
    var all := EnqueueMoves(specs) + moves;
    assert forall d :: d in targets ==> d in Elems(targets);
    WorksAreSane(plan, ts, records, targets, document, snapshot);
    EnqueueMovesMake(c, plan, specs);
    MovesSplit(c, plan, EnqueueMoves(specs), moves);
    forall m | m in all ensures Fair(plan, iso, m) {
      EnqueuesAreFair(plan, iso, targets, m, moves);
    }
    forall d | d in plan ensures Outside(Enqueue(SpecFor(iso, d))) in all {
      TargetMove(plan, iso, targets, d, moves);
    }
    CrewEndsAsSequential(c, now, t0, plan, iso, all, targets);
  }

  lemma EnqueuesAreFair(plan: Plan, iso: int -> string, targets: seq<int>, m: Move, moves: seq<Move>)
    requires plan.Keys == Elems(targets) && m in EnqueueMoves(SpecsFor(iso, targets)) + moves
    requires m in moves ==> Fair(plan, iso, m)
    ensures Fair(plan, iso, m)
  {
    if m !in moves {
      var i :| 0 <= i < |targets| && EnqueueMoves(SpecsFor(iso, targets))[i] == m;
      assert targets[i] in Elems(targets);
    }
  }

  lemma TargetMove(plan: Plan, iso: int -> string, targets: seq<int>, d: int, moves: seq<Move>)
    requires plan.Keys == Elems(targets) && d in plan
    ensures Outside(Enqueue(SpecFor(iso, d))) in EnqueueMoves(SpecsFor(iso, targets)) + moves
  {
    var i :| 0 <= i < |targets| && targets[i] == d;
    var own := EnqueueMoves(SpecsFor(iso, targets));
    assert own[i] == Outside(Enqueue(SpecFor(iso, d))) && (own + moves)[i] == own[i];
  }
}
