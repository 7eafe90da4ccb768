/**
 Every interleaving of the queue's clients. A world is the jobs table with the clock and three
 logs an observer keeps: the tokens issued by claims, the acks that succeeded, and how often
 each job was requeued. A crashed worker is one whose token no later event presents.
 */
module QueueRuns {
  import opened Seqs
  import opened Queue

  /** Proof of ownership: (job, lease epoch), and who was given it. */
  datatype Token = Token(job: int, epoch: nat, worker: string)

  datatype World = World(jobs: Jobs, nextId: nat, now: int, issued: seq<Token>, acked: seq<Token>,
                         requeues: map<int, nat>)

  datatype Event =
    | Tick(elapsed: nat)
    | Enqueue(spec: JobSpec)
    | Reap(queue: string)
    | Claim(queue: string, claimant: string, limit: nat, locked: set<int>, lease: int)
    | Heartbeat(job: int, epoch: nat, lease: int)
    | Ack(token: Token)
    | Nack(job: int, epoch: nat, delay: int, error: string)
    | Requeue(queue: string, ids: set<int>)

  function Start(now: int): World {
    World(map[], 1, now, [], [], map[])
  }

  // ------------------------------------------------------------- steps

  function Chosen(w: World, e: Event): seq<int>
    requires e.Claim?
  {
    var line := Line(w.jobs, e.queue, w.now, e.locked, w.nextId);
    line[..Min(e.limit, |line|)]
  }

  /** The token of one job, as it was claimed. */
  function TokenOf(jobs: Jobs, id: int, worker: string): Token {
    Token(id, if id in jobs then jobs[id].leaseEpoch else 0, worker)
  }

  /** The tokens a claim hands out. */
  function TokensFor(jobs: Jobs, chosen: seq<int>, worker: string): (ts: seq<Token>)
    ensures |ts| == |chosen|
  {
    seq(|chosen|, i requires 0 <= i < |chosen| => TokenOf(jobs, chosen[i], worker))
  }

  function Revived(w: World, e: Event): set<int>
    requires e.Requeue?
  {
    set id | id in e.ids && id in w.jobs && IsDead(w.jobs[id], e.queue)
  }

  function Requeues(w: World, id: int): nat {
    if id in w.requeues then w.requeues[id] else 0
  }

  function Step(w: World, e: Event): World {
    match e
    case Tick(elapsed) => w.(now := w.now + elapsed)
    case Enqueue(spec) =>
      if spec.maxAttempts < 1 then w
      else
        var (jobs, nextId, _) := Enqueued(w.jobs, w.nextId, w.now, spec);
        w.(jobs := jobs, nextId := nextId)
    case Reap(queue) => w.(jobs := ReapRows(w.jobs, queue, w.now))
    case Claim(queue, worker, limit, locked, lease) =>
      var chosen := Chosen(w, e);
      var jobs := ClaimRows(w.jobs, chosen, worker, w.now + lease);
      w.(jobs := jobs, issued := w.issued + TokensFor(jobs, chosen, worker))
    case Heartbeat(job, epoch, lease) => w.(jobs := HeartbeatRow(w.jobs, job, epoch, w.now + lease))
    case Ack(token) =>
      var jobs := AckRow(w.jobs, token.job, token.epoch, w.now);
      if Fenced(w.jobs, token.job, token.epoch) then w.(jobs := jobs, acked := w.acked + [token]) else w.(jobs := jobs)
    case Nack(job, epoch, delay, error) => w.(jobs := NackRow(w.jobs, job, epoch, w.now, delay, error))
    case Requeue(queue, ids) =>
      var revived := Revived(w, e);
      w.(jobs := RequeueRows(w.jobs, revived, w.now),
         requeues := map id | id in w.jobs :: if id in revived then Requeues(w, id) + 1 else Requeues(w, id))
  }

  function Run(w: World, es: seq<Event>): World
    decreases |es|
  {
    if es == [] then w else Run(Step(w, es[0]), es[1..])
  }

  // ------------------------------------------------------------- the invariant

  /** The epochs logged for one job, in log order. */
  function EpochsOf(log: seq<Token>, id: int): seq<nat> {
    if log == [] then []
    else
      var t := log[|log| - 1];
      EpochsOf(log[..|log| - 1], id) + (if t.job == id then [t.epoch] else [])
  }

  /** 1, 2, ..., n */
  function Counted(n: nat): (s: seq<nat>)
    ensures |s| == n && forall i :: 0 <= i < n ==> s[i] == i + 1
  {
    seq(n, i requires 0 <= i < n => i + 1)
  }

  lemma CountedNext(n: nat)
    ensures Counted(n + 1) == Counted(n) + [n + 1]
  {
  }

  /** Attempts never exceed the allowance, and every claim ever made is accounted for. */
  ghost predicate RowInv(j: Job, requeues: nat) {
    && 1 <= j.maxAttempts && j.attempts <= j.maxAttempts
    && j.leaseEpoch == requeues * j.maxAttempts + j.attempts
    && (j.state == Pending ==> j.attempts < j.maxAttempts)
    && (j.state == Running ==> 1 <= j.attempts)
    && (j.state == Dead ==> j.attempts == j.maxAttempts)
    && j.state != Failed
  }

  /** A job's tokens are the epochs 1 .. lease_epoch in order; its acks are its last token, once it succeeded. */
  ghost predicate LogInv(w: World, id: int)
    requires id in w.jobs
  {
    && EpochsOf(w.issued, id) == Counted(w.jobs[id].leaseEpoch)
    && EpochsOf(w.acked, id) == if w.jobs[id].state == Succeeded then [w.jobs[id].leaseEpoch] else []
  }

  ghost predicate UniqueKeys(jobs: Jobs) {
    forall a, b :: a in jobs && b in jobs && a != b && jobs[a].queue == jobs[b].queue && jobs[a].key.Some? ==>
      jobs[a].key != jobs[b].key
  }

  /** Nothing is logged for a row that does not exist. */
  ghost predicate LogsKnown(w: World) {
    && (forall id :: id !in w.jobs ==> EpochsOf(w.issued, id) == [] && EpochsOf(w.acked, id) == [])
    && w.requeues.Keys <= w.jobs.Keys
  }

  ghost predicate Inv(w: World) {
    && UniqueKeys(w.jobs) && LogsKnown(w)
    && (forall id :: id in w.jobs ==> 0 <= id < w.nextId)
    && forall id {:trigger RowInv(w.jobs[id], Requeues(w, id))} {:trigger LogInv(w, id)} :: id in w.jobs ==>
         RowInv(w.jobs[id], Requeues(w, id)) && LogInv(w, id)
  }

  lemma {:induction false} EpochsAppend(a: seq<Token>, b: seq<Token>, id: int)
    ensures EpochsOf(a + b, id) == EpochsOf(a, id) + EpochsOf(b, id)
  {
    if b == [] {
      assert a + b == a;
    } else {
      var rest, last := b[..|b| - 1], b[|b| - 1];
      assert (a + b)[..|a + b| - 1] == a + rest;
      EpochsAppend(a, rest, id);
    }
  }

  /** One claim hands out at most one token for a job. */
  lemma TokensNext(jobs: Jobs, chosen: seq<int>, last: int, worker: string)
    ensures TokensFor(jobs, chosen + [last], worker) == TokensFor(jobs, chosen, worker) + [TokenOf(jobs, last, worker)]
  {
  }

  lemma {:induction false} EpochsOfClaim(jobs: Jobs, chosen: seq<int>, worker: string, id: int)
    requires NoDup(chosen)
    ensures EpochsOf(TokensFor(jobs, chosen, worker), id) ==
            if id in chosen then [TokenOf(jobs, id, worker).epoch] else []
    decreases |chosen|
  {
    if chosen != [] {
      var rest, last := chosen[..|chosen| - 1], chosen[|chosen| - 1];
      assert chosen == rest + [last];
      EpochsOfClaim(jobs, rest, worker, id);
      TokensNext(jobs, rest, last, worker);
      EpochsNext(TokensFor(jobs, rest, worker), TokenOf(jobs, last, worker), id);
      assert id in chosen <==> id in rest || id == last;
      assert last !in rest;
    }
  }

  lemma EpochsNext(log: seq<Token>, t: Token, id: int)
    ensures EpochsOf(log + [t], id) == EpochsOf(log, id) + (if t.job == id then [t.epoch] else [])
  {
    assert (log + [t])[..|log|] == log;
  }

  // ------------------------------------------------------------- every step keeps it

  lemma EnqueueKeeps(w: World, spec: JobSpec)
    requires Inv(w)
    ensures Inv(Step(w, Enqueue(spec)))
  {
    var w' := Step(w, Enqueue(spec));
    if spec.maxAttempts >= 1 && !Taken(w.jobs, spec.queue, spec.key) {
      forall id | id in w'.jobs
        ensures RowInv(w'.jobs[id], Requeues(w', id)) && LogInv(w', id)
      {
        if id != w.nextId {
          assert RowInv(w.jobs[id], Requeues(w, id)) && LogInv(w, id);
        }
      }
    } else {
      assert w' == w;
    }
  }

  lemma ReapKeeps(w: World, queue: string)
    requires Inv(w)
    ensures Inv(Step(w, Reap(queue)))
  {
    var w' := Step(w, Reap(queue));
    forall id | id in w'.jobs
      ensures RowInv(w'.jobs[id], Requeues(w', id)) && LogInv(w', id)
    {
      assert RowInv(w.jobs[id], Requeues(w, id)) && LogInv(w, id);
    }
  }

  /** What a claim chooses: the front of the line. */
  lemma ChosenFront(w: World, e: Event)
    requires e.Claim?
    ensures var chosen := Chosen(w, e);
            && NoDup(chosen) && InLine(w.jobs, chosen)
            && (forall id :: id in chosen ==> id in w.jobs && id !in e.locked && Claimable(w.jobs[id], e.queue, w.now))
  {
    LineIsOrdered(w.jobs, e.queue, w.now, e.locked, w.nextId);
    var line := Line(w.jobs, e.queue, w.now, e.locked, w.nextId);
    forall id | id in Chosen(w, e) ensures id in line {
    }
  }

  lemma ClaimLogs(w: World, e: Event, id: int)
    requires e.Claim?
    ensures var w', chosen := Step(w, e), Chosen(w, e);
            EpochsOf(w'.issued, id) == EpochsOf(w.issued, id) +
              (if id in chosen then [if id in w'.jobs then w'.jobs[id].leaseEpoch else 0] else [])
  {
    var w', chosen := Step(w, e), Chosen(w, e);
    ChosenFront(w, e);
    EpochsAppend(w.issued, TokensFor(w'.jobs, chosen, e.claimant), id);
    EpochsOfClaim(w'.jobs, chosen, e.claimant, id);
  }

  lemma LeasedKeeps(j: Job, requeues: nat, worker: string, until: int)
    requires RowInv(j, requeues) && j.attempts < j.maxAttempts
    ensures RowInv(Leased(j, worker, until), requeues)
  {
  }

  lemma ClaimedRow(w: World, e: Event, id: int)
    requires e.Claim? && id in w.jobs
    ensures var w', j := Step(w, e), w.jobs[id];
            && id in w'.jobs && Requeues(w', id) == Requeues(w, id) && w'.acked == w.acked
            && w'.jobs[id] == (if id in Chosen(w, e) then Leased(j, e.claimant, w.now + e.lease) else j)
  {
  }

  /** A claimed row: one attempt and one epoch more, and the one new token in its log. */
  lemma ClaimLogKeeps(w: World, e: Event, id: int)
    requires e.Claim? && id in w.jobs && LogInv(w, id)
    ensures id in Step(w, e).jobs && LogInv(Step(w, e), id)
  {
    ClaimLogs(w, e, id);
    ClaimedRow(w, e, id);
    if id in Chosen(w, e) {
      ChosenFront(w, e);
      CountedNext(w.jobs[id].leaseEpoch);
    }
  }

  lemma ClaimRowKeeps(w: World, e: Event, id: int)
    requires e.Claim? && id in w.jobs && RowInv(w.jobs[id], Requeues(w, id))
    ensures var w' := Step(w, e); id in w'.jobs && RowInv(w'.jobs[id], Requeues(w', id))
  {
    ClaimedRow(w, e, id);
    if id in Chosen(w, e) {
      ChosenFront(w, e);
      LeasedKeeps(w.jobs[id], Requeues(w, id), e.claimant, w.now + e.lease);
    }
  }

  lemma ClaimKeeps(w: World, e: Event)
    requires Inv(w) && e.Claim?
    ensures Inv(Step(w, e))
  {
    var w' := Step(w, e);
    forall id | id in w'.jobs ensures RowInv(w'.jobs[id], Requeues(w', id)) && LogInv(w', id) {
      assert RowInv(w.jobs[id], Requeues(w, id)) && LogInv(w, id);
      ClaimRowKeeps(w, e, id);
      ClaimLogKeeps(w, e, id);
    }
    forall id | id !in w'.jobs ensures EpochsOf(w'.issued, id) == [] {
      ClaimLogs(w, e, id);
      ChosenFront(w, e);
    }
    SameKeys(w.jobs, w'.jobs);
  }

  lemma SameKeys(jobs: Jobs, jobs': Jobs)
    requires UniqueKeys(jobs) && jobs'.Keys == jobs.Keys
    requires forall id :: id in jobs ==> jobs'[id].queue == jobs[id].queue && jobs'[id].key == jobs[id].key
    ensures UniqueKeys(jobs')
  {
  }

  lemma HeartbeatKeeps(w: World, e: Event)
    requires Inv(w) && e.Heartbeat?
    ensures Inv(Step(w, e))
  {
    var w' := Step(w, e);
    forall id | id in w'.jobs ensures RowInv(w'.jobs[id], Requeues(w', id)) && LogInv(w', id) {
      assert RowInv(w.jobs[id], Requeues(w, id)) && LogInv(w, id);
    }
  }

  lemma AckLogs(w: World, e: Event, id: int)
    requires e.Ack?
    ensures EpochsOf(Step(w, e).acked, id) == EpochsOf(w.acked, id) +
              (if id == e.token.job && Fenced(w.jobs, e.token.job, e.token.epoch) then [e.token.epoch] else [])
  {
    EpochsAppend(w.acked, [e.token], id);
    assert EpochsOf([e.token], id) == EpochsOf([], id) + (if e.token.job == id then [e.token.epoch] else []);
  }

  lemma AckedRow(w: World, e: Event, id: int)
    requires e.Ack? && id in w.jobs
    ensures var w', j := Step(w, e), w.jobs[id];
            && id in w'.jobs && w'.nextId == w.nextId && w'.issued == w.issued && Requeues(w', id) == Requeues(w, id)
            && w'.jobs[id].attempts == j.attempts && w'.jobs[id].maxAttempts == j.maxAttempts
            && w'.jobs[id].leaseEpoch == j.leaseEpoch
            && w'.jobs[id].state ==
               if id == e.token.job && Fenced(w.jobs, id, e.token.epoch) then Succeeded else j.state
  {
  }

  lemma AckRowKeeps(w: World, e: Event, id: int)
    requires e.Ack? && id in w.jobs && RowInv(w.jobs[id], Requeues(w, id)) && LogInv(w, id)
    ensures var w' := Step(w, e); id in w'.jobs && RowInv(w'.jobs[id], Requeues(w', id)) && LogInv(w', id)
  {
    AckedRow(w, e, id);
    AckLogs(w, e, id);
  }

  lemma AckKeeps(w: World, e: Event)
    requires Inv(w) && e.Ack?
    ensures Inv(Step(w, e))
  {
    var w' := Step(w, e);
    AckNames(w, e);
    forall id ensures id !in w'.jobs ==> EpochsOf(w'.acked, id) == [] {
      AckLogs(w, e, id);
    }
    forall id | id in w'.jobs ensures RowInv(w'.jobs[id], Requeues(w', id)) && LogInv(w', id) {
      assert RowInv(w.jobs[id], Requeues(w, id)) && LogInv(w, id);
      AckRowKeeps(w, e, id);
    }
  }

  /** An ack leaves every row its name. */
  lemma AckNames(w: World, e: Event)
    requires e.Ack? && UniqueKeys(w.jobs)
    ensures Step(w, e).jobs.Keys == w.jobs.Keys && UniqueKeys(Step(w, e).jobs)
  {
    SameKeys(w.jobs, Step(w, e).jobs);
  }

  lemma NackKeeps(w: World, e: Event)
    requires Inv(w) && e.Nack?
    ensures Inv(Step(w, e))
  {
    var w' := Step(w, e);
    forall id | id in w'.jobs ensures RowInv(w'.jobs[id], Requeues(w', id)) && LogInv(w', id) {
      assert RowInv(w.jobs[id], Requeues(w, id)) && LogInv(w, id);
    }
  }

  /** A dead row has used its whole allowance, so a requeue keeps the epoch equation. */
  lemma RequeueRowInv(j: Job, requeues: nat, now: int)
    requires RowInv(j, requeues) && j.state == Dead
    ensures RowInv(j.(state := Pending, attempts := 0, availableAt := now, finishedAt := None, lastError := None),
                   requeues + 1)
  {
    assert (requeues + 1) * j.maxAttempts == requeues * j.maxAttempts + j.maxAttempts;
  }

  lemma RequeueKeeps(w: World, e: Event)
    requires Inv(w) && e.Requeue?
    ensures Inv(Step(w, e))
  {
    var w' := Step(w, e);
    forall id | id in w'.jobs ensures RowInv(w'.jobs[id], Requeues(w', id)) && LogInv(w', id) {
      assert RowInv(w.jobs[id], Requeues(w, id)) && LogInv(w, id);
      if id in Revived(w, e) {
        RequeueRowInv(w.jobs[id], Requeues(w, id), w.now);
      }
    }
  }

  lemma StepKeeps(w: World, e: Event)
    requires Inv(w)
    ensures Inv(Step(w, e))
  {
    match e
    case Tick(_) =>
      var w' := Step(w, e);
      forall id | id in w'.jobs ensures RowInv(w'.jobs[id], Requeues(w', id)) && LogInv(w', id) {
        assert RowInv(w.jobs[id], Requeues(w, id)) && LogInv(w, id);
      }
    case Enqueue(spec) => EnqueueKeeps(w, spec);
    case Reap(queue) => ReapKeeps(w, queue);
    case Claim(_, _, _, _, _) => ClaimKeeps(w, e);
    case Heartbeat(_, _, _) => HeartbeatKeeps(w, e);
    case Ack(_) => AckKeeps(w, e);
    case Nack(_, _, _, _) => NackKeeps(w, e);
    case Requeue(_, _) => RequeueKeeps(w, e);
  }

  /** The invariant holds in every state any interleaving reaches. */
  lemma {:induction false} RunKeeps(w: World, es: seq<Event>)
    requires Inv(w)
    ensures Inv(Run(w, es))
    decreases |es|
  {
    if es != [] {
      StepKeeps(w, es[0]);
      RunKeeps(Step(w, es[0]), es[1..]);
    }
  }

  lemma StartInv(now: int)
    ensures Inv(Start(now))
  {
  }
}
