/** What holds in every state the queue's clients can reach, and what no client can break. */
module QueueSafety {
  import opened Seqs
  import opened Queue
  import opened QueueRuns

  // ------------------------------------------------------------- tokens

  ghost predicate Increasing(s: seq<nat>) {
    forall i, j :: 0 <= i < j < |s| ==> s[i] < s[j]
  }

  lemma {:induction false} EpochAt(log: seq<Token>, i: nat)
    requires i < |log|
    ensures log[i].epoch in EpochsOf(log, log[i].job)
  {
    var rest := log[..|log| - 1];
    if i < |log| - 1 {
      EpochAt(rest, i);
      assert log[i] == rest[i];
    }
  }

  /** Where a job's epochs increase along the log, a later token carries a higher epoch. */
  lemma {:induction false} LaterIsHigher(log: seq<Token>, i: nat, k: nat)
    requires i < k < |log| && log[i].job == log[k].job && Increasing(EpochsOf(log, log[i].job))
    ensures log[i].epoch < log[k].epoch
  {
    var id, rest := log[i].job, log[..|log| - 1];
    var before, all := EpochsOf(rest, id), EpochsOf(log, id);
    assert forall p :: 0 <= p < |before| ==> before[p] == all[p];
    if k == |log| - 1 {
      EpochAt(rest, i);
      assert log[i] == rest[i];
      var p :| 0 <= p < |before| && before[p] == log[i].epoch;
      assert all == before + [log[k].epoch] && all[p] < all[|before|];
    } else {
      assert rest[i] == log[i] && rest[k] == log[k];
      LaterIsHigher(rest, i, k);
    }
  }

  /** Each (job, epoch) token is issued once: later claims of a job always carry higher epochs. */
  lemma TokensUnique(now: int, es: seq<Event>, i: nat, k: nat)
    requires i < k < |Run(Start(now), es).issued|
    ensures var issued := Run(Start(now), es).issued;
            issued[i].job == issued[k].job ==> issued[i].epoch < issued[k].epoch
  {
    StartInv(now);
    RunKeeps(Start(now), es);
    var w := Run(Start(now), es);
    var id := w.issued[i].job;
    if id == w.issued[k].job {
      EpochAt(w.issued, i);
      LogOf(w, id);
      LaterIsHigher(w.issued, i, k);
    }
  }

  /** The logs of any job, known or not. */
  lemma LogOf(w: World, id: int)
    requires Inv(w)
    ensures Increasing(EpochsOf(w.issued, id)) && |EpochsOf(w.acked, id)| <= 1
    ensures id in w.jobs ==> EpochsOf(w.issued, id) == Counted(w.jobs[id].leaseEpoch)
    ensures EpochsOf(w.issued, id) != [] ==> id in w.jobs
    ensures EpochsOf(w.acked, id) != [] ==>
              id in w.jobs && w.jobs[id].state == Succeeded && EpochsOf(w.acked, id) == [w.jobs[id].leaseEpoch]
  {
    if id in w.jobs {
      assert LogInv(w, id);
    }
  }

  /** No job is successfully acked twice, and an acked job has succeeded under its latest token. */
  lemma AckedOnce(now: int, es: seq<Event>, i: nat)
    requires i < |Run(Start(now), es).acked|
    ensures var w := Run(Start(now), es);
            var a := w.acked[i];
            && a.job in w.jobs && w.jobs[a.job].state == Succeeded && a.epoch == w.jobs[a.job].leaseEpoch
            && forall k :: 0 <= k < |w.acked| && k != i ==> w.acked[k].job != a.job
  {
    StartInv(now);
    RunKeeps(Start(now), es);
    var w := Run(Start(now), es);
    EpochAt(w.acked, i);
    LogOf(w, w.acked[i].job);
    forall k | 0 <= k < |w.acked| && k != i ensures w.acked[k].job != w.acked[i].job {
      if w.acked[k].job == w.acked[i].job {
        EpochAt(w.acked, k);
        LaterIsHigher(w.acked, if i < k then i else k, if i < k then k else i);
      }
    }
  }

  // ------------------------------------------------------------- counting

  /**
   In every reachable state the epoch equation holds, and a job was claimed at most
   max_attempts * (1 + requeues) times.
   */
  lemma ClaimsBounded(now: int, es: seq<Event>, id: int)
    requires id in Run(Start(now), es).jobs
    ensures var w := Run(Start(now), es);
            var j, r := w.jobs[id], Requeues(w, id);
            && j.leaseEpoch == r * j.maxAttempts + j.attempts
            && |EpochsOf(w.issued, id)| == j.leaseEpoch <= j.maxAttempts * (1 + r)
            && (j.state == Pending ==> j.attempts < j.maxAttempts)
            && (j.state == Dead ==> j.attempts == j.maxAttempts)
  {
    StartInv(now);
    RunKeeps(Start(now), es);
    var w := Run(Start(now), es);
    assert RowInv(w.jobs[id], Requeues(w, id)) && LogInv(w, id);
    OneMore(w.jobs[id].maxAttempts, Requeues(w, id));
  }

  lemma OneMore(m: nat, r: nat)
    ensures m * (1 + r) == r * m + m
  {
  }

  /** For every expired job that has not finished, exactly one of the claim and the reaper may take it. */
  lemma ExactlyOneGuard(w: World, id: int)
    requires Inv(w) && id in w.jobs
    requires (w.jobs[id].state == Pending || w.jobs[id].state == Running) && w.jobs[id].availableAt <= w.now
    ensures Claimable(w.jobs[id], w.jobs[id].queue, w.now) <==> !Reapable(w.jobs[id], w.jobs[id].queue, w.now)
  {
    assert RowInv(w.jobs[id], Requeues(w, id));
  }

  /** After a reap and an unobstructed claim, no unfinished job of the queue is left expired. */
  lemma NothingLost(w: World, queue: string, worker: string, limit: nat, lease: int, id: int)
    requires Inv(w) && lease > 0
    requires limit >= |Line(Step(w, Reap(queue)).jobs, queue, w.now, {}, w.nextId)|
    ensures var w' := Step(Step(w, Reap(queue)), Claim(queue, worker, limit, {}, lease));
            id in w'.jobs && w'.jobs[id].queue == queue && w'.jobs[id].availableAt <= w'.now ==>
              w'.jobs[id].state == Succeeded || w'.jobs[id].state == Dead
  {
    var v := Step(w, Reap(queue));
    var e := Claim(queue, worker, limit, {}, lease);
    ReapKeeps(w, queue);
    LineIsOrdered(v.jobs, queue, v.now, {}, v.nextId);
    var line := Line(v.jobs, queue, v.now, {}, v.nextId);
    assert Chosen(v, e) == line;
    if id in v.jobs {
      assert RowInv(v.jobs[id], Requeues(v, id)) && RowInv(w.jobs[id], Requeues(w, id));
      if v.jobs[id].queue == queue && v.jobs[id].availableAt <= v.now && v.jobs[id].state != Succeeded
         && v.jobs[id].state != Dead {
        ExactlyOneGuard(v, id);
        ExactlyOneGuard(w, id);
        assert id in line;
      }
    }
  }

  // ------------------------------------------------------------- fencing

  /** Epochs never go back. */
  lemma EpochGrows(w: World, e: Event, id: int)
    requires Inv(w) && id in w.jobs
    ensures id in Step(w, e).jobs && w.jobs[id].leaseEpoch <= Step(w, e).jobs[id].leaseEpoch
    ensures w.jobs[id].state == Succeeded ==> Step(w, e).jobs[id] == w.jobs[id]
  {
    if e.Claim? {
      ChosenFront(w, e);
    }
  }

  lemma {:induction false} EpochGrowsRun(w: World, es: seq<Event>, id: int)
    requires Inv(w) && id in w.jobs
    ensures id in Run(w, es).jobs && w.jobs[id].leaseEpoch <= Run(w, es).jobs[id].leaseEpoch
    ensures w.jobs[id].state == Succeeded ==> Run(w, es).jobs[id] == w.jobs[id]
    decreases |es|
  {
    if es != [] {
      StepKeeps(w, es[0]);
      EpochGrows(w, es[0], id);
      EpochGrowsRun(Step(w, es[0]), es[1..], id);
    }
  }

  /** A token a claim has already issued that no longer opens the fence: not the latest, or its job is not running. */
  predicate Stale(w: World, id: int, epoch: nat) {
    id in w.jobs && (epoch < w.jobs[id].leaseEpoch || (epoch == w.jobs[id].leaseEpoch && w.jobs[id].state != Running))
  }

  /** A row that is not running runs again only by being claimed, and that moves the epoch on. */
  lemma StaysStale(w: World, e: Event, id: int, epoch: nat)
    requires Inv(w) && Stale(w, id, epoch)
    ensures Stale(Step(w, e), id, epoch)
  {
    EpochGrows(w, e, id);
    if e.Claim? {
      ChosenFront(w, e);
    }
  }

  lemma {:induction false} StaysStaleRun(w: World, es: seq<Event>, id: int, epoch: nat)
    requires Inv(w) && Stale(w, id, epoch)
    ensures Stale(Run(w, es), id, epoch)
    decreases |es|
  {
    if es != [] {
      StepKeeps(w, es[0]);
      StaysStale(w, es[0], id, epoch);
      StaysStaleRun(Step(w, es[0]), es[1..], id, epoch);
    }
  }

  /**
   A token that is not the latest, or whose job is not running, changes nothing ever again, whatever
   happens in between: not even when the job is revived, claimed anew and running.
   */
  lemma StaleForever(w: World, es: seq<Event>, id: int, epoch: nat, worker: string, lease: int, delay: int,
                     error: string)
    requires Inv(w) && id in w.jobs
    requires epoch < w.jobs[id].leaseEpoch || (epoch == w.jobs[id].leaseEpoch && w.jobs[id].state != Running)
    ensures var v := Run(w, es);
            && Step(v, Ack(Token(id, epoch, worker))) == v
            && Step(v, Heartbeat(id, epoch, lease)) == v
            && Step(v, Nack(id, epoch, delay, error)) == v
  {
    StaysStaleRun(w, es, id, epoch);
  }

  /** The fence lets through only tokens that a claim issued. */
  lemma FencedWasIssued(w: World, token: Token)
    requires Inv(w) && Fenced(w.jobs, token.job, token.epoch)
    ensures exists t :: t in w.issued && t.job == token.job && t.epoch == token.epoch
  {
    var id := token.job;
    assert RowInv(w.jobs[id], Requeues(w, id)) && LogInv(w, id);
    assert EpochsOf(w.issued, id)[token.epoch - 1] == token.epoch by {
      assert w.jobs[id].leaseEpoch >= 1;
    }
    EpochIssued(w.issued, id, token.epoch);
  }

  lemma {:induction false} EpochIssued(log: seq<Token>, id: int, epoch: nat)
    requires epoch in EpochsOf(log, id)
    ensures exists t :: t in log && t.job == id && t.epoch == epoch
  {
    var rest, last := log[..|log| - 1], log[|log| - 1];
    if last.job == id && last.epoch == epoch {
      assert last in log;
    } else {
      EpochIssued(rest, id, epoch);
      var t :| t in rest && t.job == id && t.epoch == epoch;
      assert t in log;
    }
  }

  /** Clients that present only tokens they were given. */
  ghost predicate Honest(w: World, es: seq<Event>)
    decreases |es|
  {
    es == [] || ((es[0].Ack? ==> es[0].token in w.issued) && Honest(Step(w, es[0]), es[1..]))
  }

  lemma {:induction false} HonestAcks(w: World, es: seq<Event>)
    requires Honest(w, es) && forall a :: a in w.acked ==> a in w.issued
    ensures forall a :: a in Run(w, es).acked ==> a in Run(w, es).issued
    decreases |es|
  {
    if es != [] {
      HonestAcks(Step(w, es[0]), es[1..]);
    }
  }

  /** Among honest clients, the one that acked a job is the one that claimed it last. */
  lemma LatestClaimantAcks(now: int, es: seq<Event>, i: nat, k: nat)
    requires Honest(Start(now), es) && i < |Run(Start(now), es).acked| && k < |Run(Start(now), es).issued|
    ensures var w := Run(Start(now), es);
            w.acked[i] in w.issued &&
            (w.issued[k].job == w.acked[i].job ==> w.issued[k] == w.acked[i] || w.issued[k].epoch < w.acked[i].epoch)
  {
    var w := Run(Start(now), es);
    HonestAcks(Start(now), es);
    AckedOnce(now, es, i);
    var a := w.acked[i];
    assert a in w.issued;
    var p :| 0 <= p < |w.issued| && w.issued[p] == a;
    if w.issued[k].job == a.job {
      if p < k {
        TokensUnique(now, es, p, k);
        StartInv(now);
        RunKeeps(Start(now), es);
        EpochAt(w.issued, k);
        LogOf(w, a.job);
      } else if k < p {
        TokensUnique(now, es, k, p);
      }
    }
  }

  // ------------------------------------------------------------- leases

  /** The event does not present the token (id, epoch). */
  predicate Abstains(e: Event, id: int, epoch: nat) {
    match e
    case Heartbeat(job, p, _) => !(job == id && p == epoch)
    case Ack(t) => !(t.job == id && t.epoch == epoch)
    case Nack(job, p, _, _) => !(job == id && p == epoch)
    case _ => true
  }

  lemma LeaseHoldsStep(w: World, e: Event, id: int)
    requires Inv(w) && id in w.jobs && w.jobs[id].state == Running && w.now < w.jobs[id].availableAt
    requires Abstains(e, id, w.jobs[id].leaseEpoch)
    ensures id in Step(w, e).jobs && Step(w, e).jobs[id] == w.jobs[id]
  {
    if e.Claim? {
      ChosenFront(w, e);
    }
  }

  lemma {:induction false} ClockGrows(w: World, es: seq<Event>)
    ensures w.now <= Run(w, es).now
    decreases |es|
  {
    if es != [] {
      ClockGrows(Step(w, es[0]), es[1..]);
    }
  }

  // ------------------------------------------------------------- when a job is due, and before whom

  /** No claim touches a row whose time has not come, whatever its state. */
  lemma NotDueUntouched(w: World, e: Event, id: int)
    requires e.Claim? && id in w.jobs && w.jobs[id].availableAt > w.now
    ensures id in Step(w, e).jobs && Step(w, e).jobs[id] == w.jobs[id]
    ensures EpochsOf(Step(w, e).issued, id) == EpochsOf(w.issued, id)
  {
    ChosenFront(w, e);
    ClaimLogs(w, e, id);
  }

  lemma WaitsStep(w: World, e: Event, id: int)
    requires id in w.jobs && w.jobs[id].state == Pending && w.jobs[id].availableAt > w.now && id < w.nextId
    ensures id in Step(w, e).jobs && Step(w, e).jobs[id] == w.jobs[id] && id < Step(w, e).nextId
    ensures EpochsOf(Step(w, e).issued, id) == EpochsOf(w.issued, id)
  {
    if e.Claim? {
      NotDueUntouched(w, e, id);
    }
  }

  /** A pending job that is not yet due stays as it is in every run, and no token of it is issued before its time. */
  lemma {:induction false} NoTokenEarly(w: World, es: seq<Event>, id: int)
    requires id in w.jobs && id < w.nextId && w.jobs[id].state == Pending && w.jobs[id].availableAt > Run(w, es).now
    ensures id in Run(w, es).jobs && Run(w, es).jobs[id] == w.jobs[id]
    ensures EpochsOf(Run(w, es).issued, id) == EpochsOf(w.issued, id)
    decreases |es|
  {
    if es != [] {
      ClockGrows(w, es);
      WaitsStep(w, es[0], id);
      NoTokenEarly(Step(w, es[0]), es[1..], id);
    }
  }

  /** So a nacked job with attempts left is claimed by nobody until its delay is over. */
  lemma NackedWaits(w: World, es: seq<Event>, id: int, epoch: nat, delay: int, error: string)
    requires Inv(w) && id in w.jobs && w.jobs[id].state == Running && w.jobs[id].leaseEpoch == epoch
    requires w.jobs[id].attempts < w.jobs[id].maxAttempts
    requires Run(Step(w, Nack(id, epoch, delay, error)), es).now < w.now + delay
    ensures var end := Run(Step(w, Nack(id, epoch, delay, error)), es);
            && id in end.jobs && end.jobs[id].state == Pending && end.jobs[id].availableAt == w.now + delay
            && EpochsOf(end.issued, id) == EpochsOf(w.issued, id)
  {
    NoTokenEarly(Step(w, Nack(id, epoch, delay, error)), es, id);
  }

  /**
   Of two rows a claim may take, the one of higher priority comes first, then the one due earlier,
   then the one of the smaller id: the other is not taken without it, nor before it.
   */
  lemma ClaimsInOrder(w: World, e: Event, a: int, b: int, q: nat) returns (p: nat)
    requires e.Claim? && a in w.jobs && b in w.jobs && a !in e.locked
    requires forall id :: id in w.jobs ==> 0 <= id < w.nextId
    requires var j := w.jobs[a];
             && j.queue == e.queue && (j.state == Pending || j.state == Running)
             && j.availableAt <= w.now && j.attempts < j.maxAttempts
    requires var j, j' := w.jobs[a], w.jobs[b];
             || j.priority > j'.priority
             || (j.priority == j'.priority && j.availableAt < j'.availableAt)
             || (j.priority == j'.priority && j.availableAt == j'.availableAt && a < b)
    requires q < |Chosen(w, e)| && Chosen(w, e)[q] == b
    ensures p < q && Chosen(w, e)[p] == a
  {
    var line := Line(w.jobs, e.queue, w.now, e.locked, w.nextId);
    LineIsOrdered(w.jobs, e.queue, w.now, e.locked, w.nextId);
    assert a in line;
    p :| 0 <= p < |line| && line[p] == a;
    assert line[q] == b && (p > q ==> ClaimedBefore(w.jobs, line[q], line[p]));
  }

  /**
   Until its lease lapses a running job is its holder's alone: whatever everybody else does,
   the row does not change, so the holder's own ack, nack or heartbeat still counts.
   */
  lemma {:induction false} LeaseHolds(w: World, es: seq<Event>, id: int)
    requires Inv(w) && id in w.jobs && w.jobs[id].state == Running
    requires Run(w, es).now < w.jobs[id].availableAt
    requires forall i :: 0 <= i < |es| ==> Abstains(es[i], id, w.jobs[id].leaseEpoch)
    ensures id in Run(w, es).jobs && Run(w, es).jobs[id] == w.jobs[id]
    ensures Fenced(Run(w, es).jobs, id, w.jobs[id].leaseEpoch)
    decreases |es|
  {
    if es != [] {
      ClockGrows(w, es);
      LeaseHoldsStep(w, es[0], id);
      StepKeeps(w, es[0]);
      forall i | 0 <= i < |es[1..]| ensures Abstains(es[1..][i], id, w.jobs[id].leaseEpoch) {
        assert es[1..][i] == es[i + 1];
      }
      LeaseHolds(Step(w, es[0]), es[1..], id);
    }
  }

  // ------------------------------------------------------------- SKIP LOCKED

  lemma {:induction false} PlaceSame(jobs: Jobs, jobs': Jobs, ids: seq<int>, id: int)
    requires id in jobs && id in jobs' && jobs[id] == jobs'[id]
    requires forall i :: 0 <= i < |ids| ==> ids[i] in jobs && ids[i] in jobs' && jobs[ids[i]] == jobs'[ids[i]]
    ensures PlaceId(jobs, ids, id) == PlaceId(jobs', ids, id)
  {
    if ids != [] && !ClaimedBefore(jobs, id, ids[0]) {
      PlaceSame(jobs, jobs', ids[1..], id);
    }
  }

  lemma Untouched(jobs: Jobs, chosen: seq<int>, worker: string, until: int, rest: seq<int>)
    requires forall x :: x in rest ==> x in jobs && x !in Elems(chosen)
    ensures var after := ClaimRows(jobs, chosen, worker, until);
            forall i :: 0 <= i < |rest| ==> rest[i] in jobs && rest[i] in after && jobs[rest[i]] == after[rest[i]]
  {
    forall i | 0 <= i < |rest| ensures rest[i] in jobs && rest[i] !in chosen {
      var x := rest[i];
      assert x in rest && x !in Elems(chosen);
    }
  }

  /** Leased rows leave the line just as locked rows do. */
  lemma {:induction false} LockedLikeLeased(jobs: Jobs, chosen: seq<int>, worker: string, queue: string, now: int,
                                            lease: int, upto: nat)
    requires lease > 0
    ensures Line(jobs, queue, now, Elems(chosen), upto) ==
            Line(ClaimRows(jobs, chosen, worker, now + lease), queue, now, {}, upto)
  {
    if upto > 0 {
      var id, after := upto - 1, ClaimRows(jobs, chosen, worker, now + lease);
      LockedLikeLeased(jobs, chosen, worker, queue, now, lease, upto - 1);
      LineIsOrdered(jobs, queue, now, Elems(chosen), upto - 1);
      var rest := Line(jobs, queue, now, Elems(chosen), upto - 1);
      if id in jobs && id !in chosen && Claimable(jobs[id], queue, now) {
        Untouched(jobs, chosen, worker, now + lease, rest);
        PlaceSame(jobs, after, rest, id);
      }
    }
  }

  /**
   Two claims at once, the second stepping past the rows the first holds locked, choose what they
   would have chosen one after the other; they share no job.
   */
  lemma SkipLockedSerializes(w: World, queue: string, first: string, second: string, limit1: nat, limit2: nat,
                             lease: int)
    requires lease > 0
    ensures var e1 := Claim(queue, first, limit1, {}, lease);
            var chosen := Chosen(w, e1);
            var e2 := Claim(queue, second, limit2, Elems(chosen), lease);
            && Chosen(w, e2) == Chosen(Step(w, e1), Claim(queue, second, limit2, {}, lease))
            && forall id :: id in Chosen(w, e2) ==> id !in chosen
  {
    var e1 := Claim(queue, first, limit1, {}, lease);
    var chosen := Chosen(w, e1);
    LockedLikeLeased(w.jobs, chosen, first, queue, w.now, lease, w.nextId);
    var e2 := Claim(queue, second, limit2, Elems(chosen), lease);
    ChosenFront(w, e2);
    forall id | id in Chosen(w, e2) ensures id !in chosen {
      assert id !in Elems(chosen);
    }
  }

  // ------------------------------------------------------------- idempotent planning

  lemma {:induction false} AllTaken(jobs: Jobs, nextId: int, now: int, specs: seq<JobSpec>)
    requires (forall s :: s in specs ==> s.maxAttempts >= 1) && forall s :: s in specs ==> Taken(jobs, s.queue, s.key)
    ensures EnqueuedAll(jobs, nextId, now, specs) == (jobs, nextId, 0)
    decreases |specs|
  {
    if specs != [] {
      var last := specs[|specs| - 1];
      assert last in specs;
      AllTaken(jobs, nextId, now, specs[..|specs| - 1]);
    }
  }

  lemma {:induction false} EnqueuedTaken(jobs: Jobs, nextId: int, now: int, specs: seq<JobSpec>)
    requires forall s :: s in specs ==> s.maxAttempts >= 1 && s.key.Some?
    requires forall id :: id in jobs ==> id < nextId
    ensures var (jobs', nextId', n) := EnqueuedAll(jobs, nextId, now, specs);
            && (forall s :: s in specs ==> Taken(jobs', s.queue, s.key))
            && (forall id :: id in jobs ==> id in jobs' && jobs'[id] == jobs[id])
            && (forall id :: id in jobs' ==> id < nextId')
    decreases |specs|
  {
    if specs != [] {
      var rest, last := specs[..|specs| - 1], specs[|specs| - 1];
      assert last in specs;
      EnqueuedTaken(jobs, nextId, now, rest);
      var (jobs1, next1, n) := EnqueuedAll(jobs, nextId, now, rest);
      var (jobs2, next2, id) := Enqueued(jobs1, next1, now, last);
      assert id.Some? ==> next1 in jobs2 && jobs2[next1].queue == last.queue && jobs2[next1].key == last.key;
      forall s | s in specs ensures Taken(jobs2, s.queue, s.key) {
        if s in rest {
          StillTaken(jobs1, jobs2, s.queue, s.key);
        } else {
          assert s == last;
        }
      }
    }
  }

  lemma StillTaken(jobs: Jobs, jobs': Jobs, queue: string, key: Option<string>)
    requires Taken(jobs, queue, key)
    requires forall id :: id in jobs ==>
               id in jobs' && jobs'[id].queue == jobs[id].queue && jobs'[id].key == jobs[id].key
    ensures Taken(jobs', queue, key)
  {
    var id :| id in jobs && jobs[id].queue == queue && jobs[id].key == key;
    assert id in jobs';
  }

  lemma StepKeepsKeys(w: World, e: Event, id: int)
    requires Inv(w) && id in w.jobs
    ensures id in Step(w, e).jobs
    ensures Step(w, e).jobs[id].queue == w.jobs[id].queue && Step(w, e).jobs[id].key == w.jobs[id].key
  {
  }

  lemma {:induction false} RunKeepsKeys(w: World, es: seq<Event>, id: int)
    requires Inv(w) && id in w.jobs
    ensures id in Run(w, es).jobs
    ensures Run(w, es).jobs[id].queue == w.jobs[id].queue && Run(w, es).jobs[id].key == w.jobs[id].key
    decreases |es|
  {
    if es != [] {
      StepKeeps(w, es[0]);
      StepKeepsKeys(w, es[0], id);
      RunKeepsKeys(Step(w, es[0]), es[1..], id);
    }
  }

  /** Enqueueing the same keyed plan again, however late, adds no job. */
  lemma ReplanAddsNothing(w: World, specs: seq<JobSpec>, es: seq<Event>)
    requires Inv(w) && forall s :: s in specs ==> s.maxAttempts >= 1 && s.key.Some? && Taken(w.jobs, s.queue, s.key)
    ensures var v := Run(w, es); EnqueuedAll(v.jobs, v.nextId, v.now, specs) == (v.jobs, v.nextId, 0)
  {
    var v := Run(w, es);
    forall id | id in w.jobs
      ensures id in v.jobs && v.jobs[id].queue == w.jobs[id].queue && v.jobs[id].key == w.jobs[id].key
    {
      RunKeepsKeys(w, es, id);
    }
    forall s | s in specs ensures Taken(v.jobs, s.queue, s.key) {
      StillTaken(w.jobs, v.jobs, s.queue, s.key);
    }
    AllTaken(v.jobs, v.nextId, v.now, specs);
  }
}
