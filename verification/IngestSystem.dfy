/**
 The queue and the corpus together. Workers claim jobs of one plan, run the handler in a
 transaction, and only then ack. Any worker may stop at any point, or run its handler with a
 token that is no longer the latest; neither can make the corpus differ from a sequential run.
 */
module IngestSystem {
  import opened Seqs
  import opened Corpus
  import opened Ingest
  import opened IngestRuns
  import opened Planning
  import opened Queue
  import opened QueueRuns

  /** The database: jobs and corpus, with the tokens whose handler has committed, and the dates they committed. */
  datatype System = System(world: World, tables: Tables, committed: seq<Token>, done: set<int>)

  datatype Action = OnQueue(e: Event) | Commit(token: Token)

  predicate Ours(jobs: Jobs, id: int) {
    id in jobs && jobs[id].queue == QUEUE_NAME
  }

  function Act(s: System, plan: Plan, a: Action): System {
    match a
    case OnQueue(e) => s.(world := Step(s.world, e))
    case Commit(token) =>
      if Ours(s.world.jobs, token.job) && s.world.jobs[token.job].payload in plan then
        var on := s.world.jobs[token.job].payload;
        var after := Committed(s.tables, plan[on]);
        if after.None? then s
        else s.(tables := after.value, committed := s.committed + [token], done := s.done + {on})
      else s
  }

  function Acts(s: System, plan: Plan, actions: seq<Action>): System
    decreases |actions|
  {
    if actions == [] then s else Acts(Act(s, plan, actions[0]), plan, actions[1..])
  }

  /**
   What the clients of the ingest queue hold to: only this plan's jobs, handlers only under an issued
   token, acks only after a commit.
   */
  predicate Lawful(s: System, plan: Plan, iso: int -> string, a: Action) {
    match a
    case OnQueue(Enqueue(spec)) =>
      spec.queue == QUEUE_NAME ==> spec.payload in plan && spec == SpecFor(iso, spec.payload)
    case OnQueue(Ack(token)) => Ours(s.world.jobs, token.job) ==> token in s.committed
    case OnQueue(_) => true
    case Commit(token) => token in s.world.issued
  }

  predicate AllLawful(s: System, plan: Plan, iso: int -> string, actions: seq<Action>)
    decreases |actions|
  {
    actions == [] || (Lawful(s, plan, iso, actions[0]) && AllLawful(Act(s, plan, actions[0]), plan, iso, actions[1..]))
  }

  // ------------------------------------------------------------- the invariant

  /** Our jobs are the plan's, and one that has succeeded has committed. */
  ghost predicate JobsOfPlan(s: System, plan: Plan, iso: int -> string) {
    forall id {:trigger s.world.jobs[id]} :: Ours(s.world.jobs, id) ==>
      && s.world.jobs[id].payload in plan && s.world.jobs[id].key == KeyFor(iso, s.world.jobs[id].payload)
      && (s.world.jobs[id].state == Succeeded ==> s.world.jobs[id].payload in s.done)
  }

  ghost predicate TokensDone(s: System) {
    forall t {:trigger t in s.committed} :: t in s.committed ==>
      t.job in s.world.jobs && s.world.jobs[t.job].payload in s.done
  }

  ghost predicate SystemInv(s: System, t0: Tables, plan: Plan, iso: int -> string) {
    Inv(s.world) && Settled(t0, plan, s.done, s.tables) && JobsOfPlan(s, plan, iso) && TokensDone(s)
  }

  /** What a queue step can do to a row: its name, key and payload stay, and only an ack makes it succeed. */
  lemma StepRow(w: World, e: Event, id: int)
    requires Inv(w) && id in w.jobs
    ensures var w' := Step(w, e);
            && id in w'.jobs && w'.jobs[id].queue == w.jobs[id].queue && w'.jobs[id].key == w.jobs[id].key
            && w'.jobs[id].payload == w.jobs[id].payload
            && (w'.jobs[id].state == Succeeded ==> w.jobs[id].state == Succeeded || (e.Ack? && e.token.job == id))
  {
  }

  /** New rows come from enqueueing alone. */
  lemma StepNew(w: World, e: Event, id: int)
    requires Inv(w) && id !in w.jobs && id in Step(w, e).jobs
    ensures e.Enqueue? && e.spec.maxAttempts >= 1 && Step(w, e).jobs[id] == NewJob(e.spec, w.now)
  {
  }

  lemma QueueActKeeps(s: System, t0: Tables, plan: Plan, iso: int -> string, e: Event)
    requires SystemInv(s, t0, plan, iso) && Lawful(s, plan, iso, OnQueue(e))
    ensures SystemInv(Act(s, plan, OnQueue(e)), t0, plan, iso)
  {
    var s' := Act(s, plan, OnQueue(e));
    StepKeeps(s.world, e);
    forall id | Ours(s'.world.jobs, id)
      ensures var j := s'.world.jobs[id];
              j.payload in plan && j.key == KeyFor(iso, j.payload) && (j.state == Succeeded ==> j.payload in s.done)
    {
      if id in s.world.jobs {
        StepRow(s.world, e, id);
      } else {
        StepNew(s.world, e, id);
      }
    }
    forall t | t in s'.committed ensures t.job in s'.world.jobs && s'.world.jobs[t.job].payload in s'.done {
      assert t in s.committed;
      StepRow(s.world, e, t.job);
    }
  }

  lemma CommitActKeeps(s: System, t0: Tables, plan: Plan, iso: int -> string, token: Token)
    requires SystemInv(s, t0, plan, iso) && SanePlan(plan) && SnapshotsAgree(plan)
    ensures SystemInv(Act(s, plan, Commit(token)), t0, plan, iso)
    ensures Ours(s.world.jobs, token.job) ==> token in Act(s, plan, Commit(token)).committed
  {
    if Ours(s.world.jobs, token.job) {
      var s' := Act(s, plan, Commit(token));
      var on := s.world.jobs[token.job].payload;
      CommitSettles(t0, plan, s.done, s.tables, on);
      assert s'.committed == s.committed + [token] && token in s'.committed;
    }
  }

  lemma ActKeeps(s: System, t0: Tables, plan: Plan, iso: int -> string, a: Action)
    requires SystemInv(s, t0, plan, iso) && SanePlan(plan) && SnapshotsAgree(plan) && Lawful(s, plan, iso, a)
    ensures SystemInv(Act(s, plan, a), t0, plan, iso)
  {
    match a
    case OnQueue(e) => QueueActKeeps(s, t0, plan, iso, e);
    case Commit(token) => CommitActKeeps(s, t0, plan, iso, token);
  }

  lemma {:induction false} ActsKeep(s: System, t0: Tables, plan: Plan, iso: int -> string, actions: seq<Action>)
    requires SystemInv(s, t0, plan, iso) && SanePlan(plan) && SnapshotsAgree(plan) && AllLawful(s, plan, iso, actions)
    ensures SystemInv(Acts(s, plan, actions), t0, plan, iso)
    decreases |actions|
  {
    if actions != [] {
      ActKeeps(s, t0, plan, iso, actions[0]);
      ActsKeep(Act(s, plan, actions[0]), t0, plan, iso, actions[1..]);
    }
  }

  // ------------------------------------------------------------- every date has its job

  lemma {:induction false} StaysTaken(s: System, plan: Plan, actions: seq<Action>, key: Option<string>)
    requires Inv(s.world) && Taken(s.world.jobs, QUEUE_NAME, key)
    ensures Taken(Acts(s, plan, actions).world.jobs, QUEUE_NAME, key)
    decreases |actions|
  {
    if actions != [] {
      var id :| id in s.world.jobs && s.world.jobs[id].queue == QUEUE_NAME && s.world.jobs[id].key == key;
      if actions[0].OnQueue? {
        StepKeeps(s.world, actions[0].e);
        StepRow(s.world, actions[0].e, id);
      }
      StaysTaken(Act(s, plan, actions[0]), plan, actions[1..], key);
    }
  }

  lemma {:induction false} PlannedIsTaken(s: System, plan: Plan, iso: int -> string, actions: seq<Action>, d: int)
    requires Inv(s.world) && OnQueue(Enqueue(SpecFor(iso, d))) in actions
    ensures Taken(Acts(s, plan, actions).world.jobs, QUEUE_NAME, KeyFor(iso, d))
    decreases |actions|
  {
    var next := Act(s, plan, actions[0]);
    if actions[0].OnQueue? {
      StepKeeps(s.world, actions[0].e);
    }
    if actions[0] == OnQueue(Enqueue(SpecFor(iso, d))) {
      EnqueueTakes(s.world, SpecFor(iso, d));
      StaysTaken(next, plan, actions[1..], KeyFor(iso, d));
    } else {
      PlannedIsTaken(next, plan, iso, actions[1..], d);
    }
  }

  lemma EnqueueTakes(w: World, spec: JobSpec)
    requires spec.maxAttempts >= 1 && spec.key.Some?
    ensures Taken(Step(w, Enqueue(spec)).jobs, spec.queue, spec.key)
  {
    var jobs := Step(w, Enqueue(spec)).jobs;
    if !Taken(w.jobs, spec.queue, spec.key) {
      assert w.nextId in jobs && jobs[w.nextId].queue == spec.queue && jobs[w.nextId].key == spec.key;
    }
  }

  // ------------------------------------------------------------- the theorems

  /** No job yet, and any tables. */
  function From(now: int, t0: Tables): System {
    System(Start(now), t0, [], {})
  }

  ghost predicate AllSucceeded(jobs: Jobs) {
    forall id {:trigger Ours(jobs, id)} :: Ours(jobs, id) ==> jobs[id].state == Succeeded
  }

  /**
   A date that lists a section whose interval starts inside an older version never commits, in any
   run: what an earlier plan wrote for a section before an amendment keeps the amended text out.
   */
  lemma {:induction false} ShadowedNeverCommits(s: System, plan: Plan, actions: seq<Action>, d: int, section: string)
    requires Consistent(s.tables) && d in plan && d !in s.done && FirstOf(plan[d].sections, section).Some?
    requires var iv := BySection(plan[d].intervals, section); iv.Some? && Shadowed(s.tables, OwnKey(plan[d], iv.value))
    ensures d !in Acts(s, plan, actions).done
    decreases |actions|
  {
    if actions != [] {
      var a := actions[0];
      if a.Commit? && Ours(s.world.jobs, a.token.job) && s.world.jobs[a.token.job].payload in plan {
        ShadowedForGood(s.tables, plan[d], section, plan[s.world.jobs[a.token.job].payload]);
      }
      ShadowedNeverCommits(Act(s, plan, a), plan, actions[1..], d, section);
    }
  }

  /** At every point of every run each row is an old one or complete: text and chunks of one snapshot. */
  lemma NeverPartial(now: int, t0: Tables, plan: Plan, iso: int -> string, actions: seq<Action>, key: Key)
    requires SanePlan(plan) && SnapshotsAgree(plan) && Consistent(t0) && Compatible(t0, plan)
    requires AllLawful(From(now, t0), plan, iso, actions)
    ensures var t := Acts(From(now, t0), plan, actions).tables;
            && Consistent(t)
            && (RowFor(t0, key).Some? ==> RowFor(t, key) == RowFor(t0, key))
            && (RowFor(t0, key).None? && RowFor(t, key).Some? ==>
                  exists d :: d in plan && RowFor(t, key) == Offer(plan[d], plan[d].sections, key))
  {
    Begins(now, t0, plan, iso);
    ActsKeep(From(now, t0), t0, plan, iso, actions);
    var s := Acts(From(now, t0), plan, actions);
    assert SettledAt(t0, plan, s.done, s.tables, key);
  }

  lemma Begins(now: int, t0: Tables, plan: Plan, iso: int -> string)
    requires Consistent(t0) && Compatible(t0, plan)
    ensures SystemInv(From(now, t0), t0, plan, iso)
  {
    StartInv(now);
    SettledAtStart(t0, plan);
  }

  /**
   However the workers interleave, crash, repeat and requeue: once every date of the plan has been
   enqueued and every job has succeeded, the corpus is the one a sequential run leaves.
   */
  lemma EndsAsSequential(now: int, t0: Tables, plan: Plan, iso: int -> string, actions: seq<Action>, order: seq<int>)
    requires SanePlan(plan) && SnapshotsAgree(plan) && Consistent(t0) && Compatible(t0, plan)
    requires forall a, b :: a in plan && b in plan && iso(a) == iso(b) ==> a == b
    requires AllLawful(From(now, t0), plan, iso, actions)
    requires forall d :: d in plan ==> OnQueue(Enqueue(SpecFor(iso, d))) in actions
    requires AllSucceeded(Acts(From(now, t0), plan, actions).world.jobs)
    requires (forall d :: d in order ==> d in plan) && Elems(order) == plan.Keys
    ensures SameCorpus(Acts(From(now, t0), plan, actions).tables, Commits(t0, plan, order))
  {
    var s0 := From(now, t0);
    var s := Acts(s0, plan, actions);
    Begins(now, t0, plan, iso);
    ActsKeep(s0, t0, plan, iso, actions);
    forall d | d in plan ensures d in s.done {
      PlannedIsTaken(s0, plan, iso, actions, d);
      var id :| id in s.world.jobs && s.world.jobs[id].queue == QUEUE_NAME && s.world.jobs[id].key == KeyFor(iso, d);
      var on := s.world.jobs[id].payload;
      assert Ours(s.world.jobs, id) && s.world.jobs[id].state == Succeeded && on in plan;
      assert on in s.done;
      KeysDiffer(iso, on, d);
      assert on == d;
    }
    AllDone(plan.Keys, s.done);
    CommitsSettle(t0, plan, order);
    SettledUnique(t0, plan, plan.Keys, s.tables, Commits(t0, plan, order));
  }

  lemma AllDone(dates: set<int>, done: set<int>)
    requires done <= dates && forall d :: d in dates ==> d in done
    ensures dates == done
  {
    if |dates| > |done| {
      var d := Spare(dates, done);
    } else {
      SubsetSize(done, dates);
    }
  }
}
