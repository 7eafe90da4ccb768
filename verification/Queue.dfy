/**
 The durable job queue (`JobQueue`): every SQL statement is one atomic step on the jobs table,
 and the guards are those of the statements' WHERE clauses. Times are instants of one database
 clock.
 */
module Queue {
  import opened Seqs

  datatype JobState = Pending | Running | Succeeded | Failed | Dead

  datatype Job = Job(queue: string, kind: string, payload: int, key: Option<string>, state: JobState, priority: int,
                     attempts: nat, maxAttempts: nat, availableAt: int, leaseEpoch: nat, claimedBy: Option<string>,
                     lastError: Option<string>, finishedAt: Option<int>)

  datatype JobSpec = JobSpec(queue: string, kind: string, payload: int, key: Option<string>, priority: int,
                             maxAttempts: int, availableAt: Option<int>)

  datatype ClaimedJob = ClaimedJob(id: int, kind: string, payload: int, attempts: nat, maxAttempts: nat,
                                   leaseEpoch: nat)

  type Jobs = map<int, Job>

  const REAPED := "lease expired with no attempts remaining"

  // ------------------------------------------------------------- enqueue

  /** The unique index on (queue, idempotency_key), which ignores missing keys. */
  predicate Taken(jobs: Jobs, queue: string, key: Option<string>) {
    key.Some? && exists id :: id in jobs && jobs[id].queue == queue && jobs[id].key == key
  }

  function NewJob(spec: JobSpec, now: int): Job
    requires spec.maxAttempts >= 1
  {
    Job(spec.queue, spec.kind, spec.payload, spec.key, Pending, spec.priority, 0, spec.maxAttempts,
        if spec.availableAt.Some? then spec.availableAt.value else now, 0, None, None, None)
  }

  /** INSERT ... ON CONFLICT DO NOTHING: the table, the next identity, and the id if a row was made. */
  function Enqueued(jobs: Jobs, nextId: int, now: int, spec: JobSpec): (r: (Jobs, int, Option<int>))
    requires spec.maxAttempts >= 1
  {
    if Taken(jobs, spec.queue, spec.key) then (jobs, nextId, None)
    else (jobs[nextId := NewJob(spec, now)], nextId + 1, Some(nextId))
  }

  /** All specs in one transaction, in order; the count of rows made. */
  function EnqueuedAll(jobs: Jobs, nextId: int, now: int, specs: seq<JobSpec>): (r: (Jobs, int, nat))
    requires forall s :: s in specs ==> s.maxAttempts >= 1
    ensures r.1 == nextId + r.2
    decreases |specs|
  {
    if specs == [] then (jobs, nextId, 0)
    else
      var (jobs1, next1, n) := EnqueuedAll(jobs, nextId, now, specs[..|specs| - 1]);
      var (jobs2, next2, id) := Enqueued(jobs1, next1, now, specs[|specs| - 1]);
      (jobs2, next2, if id.Some? then n + 1 else n)
  }

  lemma EnqueuedNext(jobs: Jobs, nextId: int, now: int, specs: seq<JobSpec>, i: nat)
    requires i < |specs| && specs[i].maxAttempts >= 1 && forall s :: s in specs[..i] ==> s.maxAttempts >= 1
    ensures forall s :: s in specs[..i + 1] ==> s.maxAttempts >= 1
    ensures var (jobs1, next1, n) := EnqueuedAll(jobs, nextId, now, specs[..i]);
            var (jobs2, next2, id) := Enqueued(jobs1, next1, now, specs[i]);
            EnqueuedAll(jobs, nextId, now, specs[..i + 1]) == (jobs2, next2, if id.Some? then n + 1 else n)
  {
    assert specs[..i + 1][..i] == specs[..i] && specs[..i + 1] == specs[..i] + [specs[i]];
  }

  // ------------------------------------------------------------- claim

  /** The WHERE clause of the claim. */
  predicate Claimable(j: Job, queue: string, now: int) {
    j.queue == queue && (j.state == Pending || j.state == Running) && j.availableAt <= now && j.attempts < j.maxAttempts
  }

  /** ORDER BY priority DESC, available_at, id */
  predicate ClaimedBefore(jobs: Jobs, a: int, b: int) {
    && a in jobs && b in jobs
    && (jobs[a].priority > jobs[b].priority
        || (jobs[a].priority == jobs[b].priority
            && (jobs[a].availableAt < jobs[b].availableAt || (jobs[a].availableAt == jobs[b].availableAt && a < b))))
  }

  function PlaceId(jobs: Jobs, ids: seq<int>, id: int): seq<int> {
    if ids == [] || ClaimedBefore(jobs, id, ids[0]) then [id] + ids
    else [ids[0]] + PlaceId(jobs, ids[1..], id)
  }

  /** The claimable, unlocked rows with ids below `upto`, in claim order. */
  function Line(jobs: Jobs, queue: string, now: int, locked: set<int>, upto: nat): seq<int> {
    if upto == 0 then []
    else
      var rest := Line(jobs, queue, now, locked, upto - 1);
      var id := upto - 1;
      if id in jobs && id !in locked && Claimable(jobs[id], queue, now) then PlaceId(jobs, rest, id) else rest
  }

  function Leased(j: Job, worker: string, until: int): Job {
    j.(state := Running, attempts := j.attempts + 1, leaseEpoch := j.leaseEpoch + 1, claimedBy := Some(worker),
       availableAt := until)
  }

  /** UPDATE ... FROM claimable: every chosen row is leased to the worker. */
  function ClaimRows(jobs: Jobs, chosen: seq<int>, worker: string, until: int): Jobs {
    map id | id in jobs :: if id in chosen then Leased(jobs[id], worker, until) else jobs[id]
  }

  // ------------------------------------------------------------- reap

  /** The WHERE clause of the reaper. */
  predicate Reapable(j: Job, queue: string, now: int) {
    j.queue == queue && j.state == Running && j.availableAt <= now && j.attempts >= j.maxAttempts
  }

  function ReapRows(jobs: Jobs, queue: string, now: int): Jobs {
    map id | id in jobs ::
      if Reapable(jobs[id], queue, now)
      then jobs[id].(state := Dead, claimedBy := None, finishedAt := Some(now),
                     lastError := if jobs[id].lastError.Some? then jobs[id].lastError else Some(REAPED))
      else jobs[id]
  }

  // ------------------------------------------------------------- what a token holder may do

  /** The fence: WHERE id = $1 AND lease_epoch = $2 AND state = 'running' */
  predicate Fenced(jobs: Jobs, id: int, epoch: int) {
    id in jobs && jobs[id].leaseEpoch == epoch && jobs[id].state == Running
  }

  function HeartbeatRow(jobs: Jobs, id: int, epoch: int, until: int): Jobs {
    if Fenced(jobs, id, epoch) then jobs[id := jobs[id].(availableAt := until)] else jobs
  }

  function AckRow(jobs: Jobs, id: int, epoch: int, now: int): Jobs {
    if Fenced(jobs, id, epoch)
    then jobs[id := jobs[id].(state := Succeeded, claimedBy := None, lastError := None, finishedAt := Some(now))]
    else jobs
  }

  /** Out of attempts means dead, otherwise pending again after the delay. */
  function Nacked(j: Job, now: int, delay: int, error: string): Job {
    if j.attempts >= j.maxAttempts
    then j.(state := Dead, finishedAt := Some(now), lastError := Some(error), claimedBy := None)
    else j.(state := Pending, availableAt := now + delay, finishedAt := None, lastError := Some(error),
            claimedBy := None)
  }

  function NackRow(jobs: Jobs, id: int, epoch: int, now: int, delay: int, error: string): Jobs {
    if Fenced(jobs, id, epoch) then jobs[id := Nacked(jobs[id], now, delay, error)] else jobs
  }

  /** `error[:4000]` */
  function Clip(error: string): string {
    error[..Min(4000, |error|)]
  }

  // ------------------------------------------------------------- dead letters

  predicate IsDead(j: Job, queue: string) {
    j.queue == queue && j.state == Dead
  }

  /** Some dead rows of the queue, as many as allowed, none finished later than one left behind. */
  ghost predicate OldestDead(jobs: Jobs, queue: string, limit: nat, chosen: set<int>) {
    && (forall id :: id in chosen ==> id in jobs && IsDead(jobs[id], queue))
    && |chosen| == Min(limit, |DeadIn(jobs, queue)|)
    && (forall a, b :: a in chosen && b in jobs && IsDead(jobs[b], queue) && b !in chosen ==>
          FinishedLe(jobs[a].finishedAt, jobs[b].finishedAt))
  }

  ghost function DeadIn(jobs: Jobs, queue: string): set<int> {
    set id | id in jobs && IsDead(jobs[id], queue)
  }

  /** ORDER BY finished_at, nulls last */
  predicate FinishedLe(a: Option<int>, b: Option<int>) {
    b.None? || (a.Some? && a.value <= b.value)
  }

  function RequeueRows(jobs: Jobs, chosen: set<int>, now: int): Jobs {
    map id | id in jobs ::
      if id in chosen
      then jobs[id].(state := Pending, attempts := 0, availableAt := now, finishedAt := None, lastError := None)
      else jobs[id]
  }

  // ------------------------------------------------------------- the claim order

  ghost predicate InLine(jobs: Jobs, ids: seq<int>) {
    forall i, j :: 0 <= i < j < |ids| ==> ClaimedBefore(jobs, ids[i], ids[j])
  }

  lemma {:induction false} PlaceIdKeeps(jobs: Jobs, ids: seq<int>, id: int)
    requires InLine(jobs, ids) && id in jobs && id !in ids && forall x :: x in ids ==> x in jobs
    ensures InLine(jobs, PlaceId(jobs, ids, id))
    ensures forall x :: x in PlaceId(jobs, ids, id) <==> x in ids || x == id
  {
    if ids == [] || ClaimedBefore(jobs, id, ids[0]) {
    } else {
      var rest := PlaceId(jobs, ids[1..], id);
      PlaceIdKeeps(jobs, ids[1..], id);
      assert ids == [ids[0]] + ids[1..];
      forall x | x in rest ensures ClaimedBefore(jobs, ids[0], x) {
      }
    }
  }

  /** The line holds exactly the claimable unlocked rows, each once, in claim order. */
  lemma {:induction false} LineIsOrdered(jobs: Jobs, queue: string, now: int, locked: set<int>, upto: nat)
    ensures var ids := Line(jobs, queue, now, locked, upto);
            && InLine(jobs, ids) && NoDup(ids)
            && (forall id :: id in ids <==>
                  0 <= id < upto && id in jobs && id !in locked && Claimable(jobs[id], queue, now))
  {
    if upto > 0 {
      LineIsOrdered(jobs, queue, now, locked, upto - 1);
      var id := upto - 1;
      if id in jobs && id !in locked && Claimable(jobs[id], queue, now) {
        PlaceIdKeeps(jobs, Line(jobs, queue, now, locked, upto - 1), id);
      }
    }
    var ids := Line(jobs, queue, now, locked, upto);
    assert forall i, j :: 0 <= i < j < |ids| ==> ClaimedBefore(jobs, ids[i], ids[j]) && ids[i] != ids[j];
  }

  // ------------------------------------------------------------- the queue object

  /** `spec.queue or self._queue` */
  function Addressed(spec: JobSpec, own: string): JobSpec {
    if spec.queue == "" then spec.(queue := own) else spec
  }

  function AddressedAll(specs: seq<JobSpec>, own: string): (r: seq<JobSpec>)
    ensures |r| == |specs| && forall i :: 0 <= i < |specs| ==> r[i] == Addressed(specs[i], own)
  {
    seq(|specs|, i requires 0 <= i < |specs| => Addressed(specs[i], own))
  }

  // ------------------------------------------------------------- what a statement does to its rows

  /** What a job is for, and how often it was tried, is not a completing statement's to change. */
  ghost predicate SameWork(j: Job, j': Job) {
    && j'.queue == j.queue && j'.kind == j.kind && j'.payload == j.payload && j'.key == j.key
    && j'.priority == j.priority && j'.maxAttempts == j.maxAttempts
  }

  ghost predicate SameTries(j: Job, j': Job) {
    SameWork(j, j') && j'.attempts == j.attempts && j'.leaseEpoch == j.leaseEpoch
  }

  ghost predicate Unclaimed(j: Job) {
    && j.state == Pending && j.attempts == 0 && j.leaseEpoch == 0
    && j.claimedBy == None && j.lastError == None && j.finishedAt == None
  }

  /** The row is over, now, held by nobody. */
  ghost predicate Finished(j: Job, j': Job, state: JobState, now: int) {
    && SameTries(j, j') && j'.availableAt == j.availableAt
    && j'.state == state && j'.claimedBy == None && j'.finishedAt == Some(now)
  }

  /** The row waits until then, held by nobody. */
  ghost predicate Postponed(j: Job, j': Job, until: int) {
    SameTries(j, j') && j'.state == Pending && j'.availableAt == until && j'.claimedBy == None && j'.finishedAt == None
  }

  ghost predicate SameButLease(j: Job, j': Job) {
    && SameTries(j, j') && j'.state == j.state
    && j'.claimedBy == j.claimedBy && j'.lastError == j.lastError && j'.finishedAt == j.finishedAt
  }

  /** One attempt and one epoch more, the worker's until then. */
  ghost predicate IsLeased(j: Job, j': Job, worker: string, until: int) {
    && SameWork(j, j') && j'.state == Running && j'.attempts == j.attempts + 1 && j'.leaseEpoch == j.leaseEpoch + 1
    && j'.claimedBy == Some(worker) && j'.availableAt == until
    && j'.lastError == j.lastError && j'.finishedAt == j.finishedAt
  }

  /** A row a claim may take: claimable, and not locked by another transaction. */
  ghost predicate Free(jobs: Jobs, queue: string, now: int, locked: set<int>, id: int) {
    id in jobs && id !in locked && Claimable(jobs[id], queue, now)
  }

  /** The row is pending again, due at once, with all its attempts back and its epoch kept. */
  ghost predicate SetBack(j: Job, j': Job, now: int) {
    && SameWork(j, j') && j'.state == Pending && j'.attempts == 0 && j'.leaseEpoch == j.leaseEpoch
    && j'.availableAt == now && j'.claimedBy == j.claimedBy && j'.lastError == None && j'.finishedAt == None
  }

  /** What RETURNING says of a row is what the row now holds. */
  ghost predicate Reports(report: ClaimedJob, jobs: Jobs) {
    && report.id in jobs && report.kind == jobs[report.id].kind && report.payload == jobs[report.id].payload
    && report.attempts == jobs[report.id].attempts && report.maxAttempts == jobs[report.id].maxAttempts
    && report.leaseEpoch == jobs[report.id].leaseEpoch
  }

  function JobIds(claimed: seq<ClaimedJob>): (ids: seq<int>)
    ensures |ids| == |claimed| && forall i :: 0 <= i < |claimed| ==> ids[i] == claimed[i].id
  {
    seq(|claimed|, i requires 0 <= i < |claimed| => claimed[i].id)
  }

  function ReportsOf(jobs: Jobs, ids: seq<int>): (r: seq<ClaimedJob>)
    requires forall i :: 0 <= i < |ids| ==> ids[i] in jobs
    ensures |r| == |ids| && forall i :: 0 <= i < |ids| ==> r[i].id == ids[i] && Reports(r[i], jobs)
  {
    seq(|ids|, i requires 0 <= i < |ids| =>
      ClaimedJob(ids[i], jobs[ids[i]].kind, jobs[ids[i]].payload, jobs[ids[i]].attempts, jobs[ids[i]].maxAttempts,
                 jobs[ids[i]].leaseEpoch))
  }

  /** The front of the line: free rows in claim order, and nothing free before or, with room left, beyond them. */
  lemma FrontOfLine(jobs: Jobs, queue: string, now: int, locked: set<int>, nextId: nat, limit: nat, chosen: seq<int>)
    requires forall id :: id in jobs ==> 0 <= id < nextId
    requires var line := Line(jobs, queue, now, locked, nextId); chosen == line[..Min(limit, |line|)]
    ensures |chosen| <= limit && forall i :: 0 <= i < |chosen| ==> Free(jobs, queue, now, locked, chosen[i])
    ensures InLine(jobs, chosen)
    ensures forall id :: Free(jobs, queue, now, locked, id) && id !in chosen ==>
              |chosen| == limit && forall i :: 0 <= i < |chosen| ==> ClaimedBefore(jobs, chosen[i], id)
  {
    var line := Line(jobs, queue, now, locked, nextId);
    LineIsOrdered(jobs, queue, now, locked, nextId);
    forall i | 0 <= i < |chosen| ensures Free(jobs, queue, now, locked, chosen[i]) {
      var id := line[i];
      assert id in line;
    }
    forall id | Free(jobs, queue, now, locked, id) && id !in chosen
      ensures |chosen| == limit && forall i :: 0 <= i < |chosen| ==> ClaimedBefore(jobs, chosen[i], id)
    {
      var p := PlaceIn(line, id);
      NotBefore(line, id, |chosen|);
      assert p >= |chosen|;
    }
  }

  /** What a claim reports, in the columns: the WHERE clause, the ORDER BY, and that nothing due is passed over. */
  lemma ClaimReports(jobs: Jobs, queue: string, now: int, locked: set<int>, nextId: nat, limit: nat,
                     claimed: seq<ClaimedJob>)
    requires forall id :: id in jobs ==> 0 <= id < nextId
    requires var line := Line(jobs, queue, now, locked, nextId); JobIds(claimed) == line[..Min(limit, |line|)]
    ensures |claimed| <= limit && forall i :: 0 <= i < |claimed| ==>
              claimed[i].id in jobs && claimed[i].id !in locked &&
              var j := jobs[claimed[i].id];
              && j.queue == queue && (j.state == Pending || j.state == Running)
              && j.availableAt <= now && j.attempts < j.maxAttempts
    ensures forall i, k :: 0 <= i < k < |claimed| ==>
              var a, b := claimed[i].id, claimed[k].id;
              var j, j' := jobs[a], jobs[b];
              || j.priority > j'.priority
              || (j.priority == j'.priority && j.availableAt < j'.availableAt)
              || (j.priority == j'.priority && j.availableAt == j'.availableAt && a < b)
    ensures forall b :: b in jobs && b !in locked && b !in JobIds(claimed) ==>
              var j' := jobs[b];
              (&& j'.queue == queue && (j'.state == Pending || j'.state == Running)
               && j'.availableAt <= now && j'.attempts < j'.maxAttempts) ==>
                |claimed| == limit && forall i :: 0 <= i < |claimed| ==>
                  var a := claimed[i].id;
                  var j := jobs[a];
                  || j.priority > j'.priority
                  || (j.priority == j'.priority && j.availableAt < j'.availableAt)
                  || (j.priority == j'.priority && j.availableAt == j'.availableAt && a < b)
  {
    var chosen := JobIds(claimed);
    FrontOfLine(jobs, queue, now, locked, nextId, limit, chosen);
    assert forall i :: 0 <= i < |claimed| ==> chosen[i] == claimed[i].id && Free(jobs, queue, now, locked, chosen[i]);
    forall i, k | 0 <= i < k < |claimed| ensures ClaimedBefore(jobs, claimed[i].id, claimed[k].id) {
      assert ClaimedBefore(jobs, chosen[i], chosen[k]);
    }
    forall b, i | Free(jobs, queue, now, locked, b) && b !in chosen && 0 <= i < |claimed|
      ensures ClaimedBefore(jobs, claimed[i].id, b)
    {
      assert ClaimedBefore(jobs, chosen[i], b);
    }
    forall b | b in jobs && b !in locked && b !in chosen && Claimable(jobs[b], queue, now)
      ensures Free(jobs, queue, now, locked, b)
    {
    }
  }

  /** The UPDATE and what it returns. */
  method TakeFront(jobs: Jobs, queue: string, now: int, locked: set<int>, nextId: nat, limit: nat, worker: string,
                   until: int)
    returns (jobs': Jobs, claimed: seq<ClaimedJob>)
    requires forall id :: id in jobs ==> 0 <= id < nextId
    ensures var line := Line(jobs, queue, now, locked, nextId); JobIds(claimed) == line[..Min(limit, |line|)]
    ensures jobs'.Keys == jobs.Keys
    ensures forall id :: id in jobs ==>
              if id in JobIds(claimed) then IsLeased(jobs[id], jobs'[id], worker, until) else jobs'[id] == jobs[id]
    ensures forall i :: 0 <= i < |claimed| ==> Reports(claimed[i], jobs')
  {
    var line := Line(jobs, queue, now, locked, nextId);
    LineIsOrdered(jobs, queue, now, locked, nextId);
    var chosen := line[..Min(limit, |line|)];
    FrontOfLine(jobs, queue, now, locked, nextId, limit, chosen);
    jobs' := map id | id in jobs ::
      if id in chosen
      then jobs[id].(state := Running, attempts := jobs[id].attempts + 1, leaseEpoch := jobs[id].leaseEpoch + 1,
                     claimedBy := Some(worker), availableAt := until)
      else jobs[id];
    claimed := ReportsOf(jobs', chosen);
    assert JobIds(claimed) == chosen;
  }

  lemma PlaceIn(line: seq<int>, id: int) returns (p: nat)
    requires id in line
    ensures p < |line| && line[p] == id
  {
    p :| 0 <= p < |line| && line[p] == id;
  }

  // ------------------------------------------------------------- a statement's rows determine the table

  /** What `Enqueue` promises leaves no choice but the enqueue step. */
  lemma EnqueueIsStep(jobs: Jobs, nextId: int, now: int, spec: JobSpec, jobs': Jobs, nextId': int, id: Option<int>)
    requires spec.maxAttempts >= 1
    requires id == None ==> jobs' == jobs && nextId' == nextId
    requires id == None <==> Taken(jobs, spec.queue, spec.key)
    requires id.Some? ==>
               && id.value == nextId && nextId !in jobs && nextId' == nextId + 1 && jobs'.Keys == jobs.Keys + {nextId}
               && OthersKept(jobs, jobs', nextId) && Unclaimed(jobs'[nextId]) && jobs'[nextId].queue == spec.queue
               && jobs'[nextId].kind == spec.kind && jobs'[nextId].payload == spec.payload
               && jobs'[nextId].key == spec.key
               && jobs'[nextId].priority == spec.priority && jobs'[nextId].maxAttempts == spec.maxAttempts
               && jobs'[nextId].availableAt == if spec.availableAt.Some? then spec.availableAt.value else now
    ensures (jobs', nextId', id) == Enqueued(jobs, nextId, now, spec)
  {
    if id.Some? {
      SameButOne(jobs, jobs', nextId);
    }
  }

  /** And so for the statements of a token holder: their rows leave no choice but the step. */
  lemma AckIsStep(jobs: Jobs, job: ClaimedJob, now: int, jobs': Jobs)
    requires jobs'.Keys == jobs.Keys && OthersKept(jobs, jobs', job.id)
    requires (!Fenced(jobs, job.id, job.leaseEpoch) ==> jobs' == jobs)
    requires Fenced(jobs, job.id, job.leaseEpoch) ==>
               Finished(jobs[job.id], jobs'[job.id], Succeeded, now) && jobs'[job.id].lastError == None
    ensures jobs' == AckRow(jobs, job.id, job.leaseEpoch, now)
  {
    if Fenced(jobs, job.id, job.leaseEpoch) {
      SameButOne(jobs, jobs', job.id);
    }
  }

  lemma HeartbeatIsStep(jobs: Jobs, job: ClaimedJob, until: int, jobs': Jobs)
    requires jobs'.Keys == jobs.Keys && OthersKept(jobs, jobs', job.id)
    requires (!Fenced(jobs, job.id, job.leaseEpoch) ==> jobs' == jobs)
    requires Fenced(jobs, job.id, job.leaseEpoch) ==>
               jobs'[job.id].availableAt == until && SameButLease(jobs[job.id], jobs'[job.id])
    ensures jobs' == HeartbeatRow(jobs, job.id, job.leaseEpoch, until)
  {
    if Fenced(jobs, job.id, job.leaseEpoch) {
      SameButOne(jobs, jobs', job.id);
    }
  }

  lemma NackIsStep(jobs: Jobs, job: ClaimedJob, now: int, delay: int, error: string, jobs': Jobs)
    requires jobs'.Keys == jobs.Keys && OthersKept(jobs, jobs', job.id)
    requires (!Fenced(jobs, job.id, job.leaseEpoch) ==> jobs' == jobs)
    requires Fenced(jobs, job.id, job.leaseEpoch) ==>
               && jobs'[job.id].lastError == Some(error)
               && if jobs[job.id].attempts >= jobs[job.id].maxAttempts
                  then Finished(jobs[job.id], jobs'[job.id], Dead, now)
                  else Postponed(jobs[job.id], jobs'[job.id], now + delay)
    ensures jobs' == NackRow(jobs, job.id, job.leaseEpoch, now, delay, error)
  {
    if Fenced(jobs, job.id, job.leaseEpoch) {
      SameButOne(jobs, jobs', job.id);
    }
  }

  lemma ReapIsStep(jobs: Jobs, queue: string, now: int, jobs': Jobs)
    requires jobs'.Keys == jobs.Keys
    requires forall id :: id in jobs ==>
               var j, j' := jobs[id], jobs'[id];
               if j.queue == queue && j.state == Running && j.availableAt <= now && j.attempts >= j.maxAttempts
               then && Finished(j, j', Dead, now)
                    && j'.lastError == Some(if j.lastError.Some? then j.lastError.value else REAPED)
               else j' == j
    ensures jobs' == ReapRows(jobs, queue, now)
  {
    forall id | id in jobs ensures jobs'[id] == ReapRows(jobs, queue, now)[id] {
      var j, j' := jobs[id], jobs'[id];
      if Reapable(j, queue, now) {
        assert Finished(j, j', Dead, now);
      }
    }
    SameMap(jobs', ReapRows(jobs, queue, now));
  }

  lemma RequeueIsStep(jobs: Jobs, chosen: set<int>, now: int, jobs': Jobs)
    requires jobs'.Keys == jobs.Keys
    requires forall id :: id in jobs ==>
               if id in chosen then SetBack(jobs[id], jobs'[id], now) else jobs'[id] == jobs[id]
    ensures jobs' == RequeueRows(jobs, chosen, now)
  {
    forall id | id in jobs ensures jobs'[id] == RequeueRows(jobs, chosen, now)[id] {
      assert id in chosen ==> SetBack(jobs[id], jobs'[id], now);
    }
    SameMap(jobs', RequeueRows(jobs, chosen, now));
  }

  /** What a claim promises of the ids it reports leaves no choice but the front of the line, leased. */
  lemma ClaimIsStep(jobs: Jobs, queue: string, now: int, locked: set<int>, nextId: nat, limit: nat, worker: string,
                    until: int, ids: seq<int>, jobs': Jobs)
    requires (forall id :: id in jobs ==> 0 <= id < nextId) && jobs'.Keys == jobs.Keys
    requires |ids| <= limit && InLine(jobs, ids)
    requires forall i :: 0 <= i < |ids| ==> Free(jobs, queue, now, locked, ids[i])
    requires forall id :: Free(jobs, queue, now, locked, id) && id !in ids ==>
               |ids| == limit && forall i :: 0 <= i < |ids| ==> ClaimedBefore(jobs, ids[i], id)
    requires forall id :: id in jobs ==>
               if id in ids then IsLeased(jobs[id], jobs'[id], worker, until) else jobs'[id] == jobs[id]
    ensures var line := Line(jobs, queue, now, locked, nextId);
            ids == line[..Min(limit, |line|)] && jobs' == ClaimRows(jobs, ids, worker, until)
  {
    FrontUnique(jobs, queue, now, locked, nextId, limit, ids);
    SameMap(jobs', ClaimRows(jobs, ids, worker, until));
  }

  lemma FrontUnique(jobs: Jobs, queue: string, now: int, locked: set<int>, nextId: nat, limit: nat, ids: seq<int>)
    requires forall id :: id in jobs ==> 0 <= id < nextId
    requires |ids| <= limit && InLine(jobs, ids)
    requires forall i :: 0 <= i < |ids| ==> Free(jobs, queue, now, locked, ids[i])
    requires forall id :: Free(jobs, queue, now, locked, id) && id !in ids ==>
               |ids| == limit && forall i :: 0 <= i < |ids| ==> ClaimedBefore(jobs, ids[i], id)
    ensures var line := Line(jobs, queue, now, locked, nextId); ids == line[..Min(limit, |line|)]
  {
    var line := Line(jobs, queue, now, locked, nextId);
    var front := line[..Min(limit, |line|)];
    FrontOfLine(jobs, queue, now, locked, nextId, limit, front);
    SameFront(jobs, queue, now, locked, limit, ids, front, 0);
  }

  /** Two lists that both take the first `limit` free rows agree from any common prefix on. */
  lemma {:induction false} SameFront(jobs: Jobs, queue: string, now: int, locked: set<int>, limit: nat, a: seq<int>,
                                     b: seq<int>, n: nat)
    requires Front(jobs, queue, now, locked, limit, a) && Front(jobs, queue, now, locked, limit, b)
    requires n <= |a| && n <= |b| && a[..n] == b[..n]
    ensures a == b
    decreases |a| - n
  {
    if n < |a| && n < |b| {
      SameNext(jobs, queue, now, locked, limit, a, b, n);
      assert a[..n + 1] == a[..n] + [a[n]] && b[..n + 1] == b[..n] + [b[n]];
      SameFront(jobs, queue, now, locked, limit, a, b, n + 1);
    } else {
      if n == |b| {
        SameLength(jobs, queue, now, locked, limit, a, b, n);
      } else {
        SameLength(jobs, queue, now, locked, limit, b, a, n);
      }
      assert a[..n] == a && b[..n] == b;
    }
  }

  ghost predicate Front(jobs: Jobs, queue: string, now: int, locked: set<int>, limit: nat, ids: seq<int>) {
    && |ids| <= limit && InLine(jobs, ids) && (forall i :: 0 <= i < |ids| ==> Free(jobs, queue, now, locked, ids[i]))
    && forall id :: Free(jobs, queue, now, locked, id) && id !in ids ==>
         |ids| == limit && forall i :: 0 <= i < |ids| ==> ClaimedBefore(jobs, ids[i], id)
  }

  /** At the first place where they could differ each would have to come before the other. */
  lemma SameNext(jobs: Jobs, queue: string, now: int, locked: set<int>, limit: nat, a: seq<int>, b: seq<int>, n: nat)
    requires Front(jobs, queue, now, locked, limit, a) && Front(jobs, queue, now, locked, limit, b)
    requires n < |a| && n < |b| && a[..n] == b[..n]
    ensures a[n] == b[n]
  {
    NextBefore(jobs, queue, now, locked, limit, a, b, n);
    NextBefore(jobs, queue, now, locked, limit, b, a, n);
  }

  lemma NextBefore(jobs: Jobs, queue: string, now: int, locked: set<int>, limit: nat, a: seq<int>, b: seq<int>, n: nat)
    requires Front(jobs, queue, now, locked, limit, a) && Front(jobs, queue, now, locked, limit, b)
    requires n < |a| && n < |b| && a[..n] == b[..n]
    ensures a[n] == b[n] || ClaimedBefore(jobs, b[n], a[n])
  {
    var id := a[n];
    assert Free(jobs, queue, now, locked, id);
    if id in b {
      var p := PlaceIn(b, id);
      assert p < n ==> a[..n][p] == b[..n][p];
      assert p < n ==> ClaimedBefore(jobs, a[p], a[n]);
    }
  }

  lemma NewAt(jobs: Jobs, a: seq<int>, b: seq<int>, n: nat)
    requires InLine(jobs, a) && n < |a| && b == a[..n]
    ensures a[n] !in b
  {
    forall p | 0 <= p < n ensures b[p] != a[n] {
      assert ClaimedBefore(jobs, a[p], a[n]);
    }
  }

  /** A list that stops at n leaves no free row over unless it is full. */
  lemma SameLength(jobs: Jobs, queue: string, now: int, locked: set<int>, limit: nat, a: seq<int>, b: seq<int>, n: nat)
    requires Front(jobs, queue, now, locked, limit, a) && Front(jobs, queue, now, locked, limit, b)
    requires n <= |a| && n == |b| && a[..n] == b[..n]
    ensures |a| == n
  {
    if n < |a| {
      NewAt(jobs, a, b, n);
    }
  }

  /** The jobs table as one queue's clients see it. Each method is one statement on the database. */
  class JobQueue {
    const name: string
    const visibilityTimeout: int
    var jobs: Jobs
    var nextId: nat
    var now: int

    ghost predicate Valid()
      reads this
    {
      forall id :: id in jobs ==> 0 <= id < nextId
    }

    constructor (name: string, visibilityTimeout: int, now: int)
      ensures Valid() && jobs == map[] && nextId == 1
      ensures this.name == name && this.visibilityTimeout == visibilityTimeout && this.now == now
    {
      this.name, this.visibilityTimeout := name, visibilityTimeout;
      jobs, nextId, this.now := map[], 1, now;
    }

    /**
     `enqueue`: None exactly when a row of the queue has the key; otherwise one new row, pending and
     never claimed.
     */
    method Enqueue(spec: JobSpec) returns (id: Option<int>)
      requires Valid() && spec.maxAttempts >= 1
      modifies `jobs, `nextId
      ensures Valid()
      ensures id == None ==> jobs == old(jobs) && nextId == old(nextId)
      ensures id == None <==>
                spec.key.Some? && exists other ::
                  && other in old(jobs) && old(jobs)[other].key == spec.key
                  && old(jobs)[other].queue == if spec.queue == "" then name else spec.queue
      ensures id.Some? ==>
                && id.value == old(nextId) && id.value !in old(jobs) && nextId == id.value + 1
                && jobs.Keys == old(jobs).Keys + {id.value} && OthersKept(old(jobs), jobs, id.value)
                && jobs[id.value].queue == (if spec.queue == "" then name else spec.queue)
                && jobs[id.value].kind == spec.kind && jobs[id.value].payload == spec.payload
                && jobs[id.value].key == spec.key && jobs[id.value].priority == spec.priority
                && jobs[id.value].maxAttempts == spec.maxAttempts && Unclaimed(jobs[id.value])
                && jobs[id.value].availableAt == (if spec.availableAt.Some? then spec.availableAt.value else now)
    {
      var s := Addressed(spec, name);
      if Taken(jobs, s.queue, s.key) {
        return None;
      }
      id := Some(nextId);
      jobs, nextId := jobs[nextId := NewJob(s, now)], nextId + 1;
    }

    /** `enqueue_many`: one transaction. */
    method EnqueueMany(specs: seq<JobSpec>) returns (created: nat)
      requires Valid() && forall s :: s in specs ==> s.maxAttempts >= 1
      modifies `jobs, `nextId
      ensures Valid() && forall s :: s in AddressedAll(specs, name) ==> s.maxAttempts >= 1
      ensures (jobs, nextId, created) == EnqueuedAll(old(jobs), old(nextId), now, AddressedAll(specs, name))
    {
      created := 0;
      ghost var all := AddressedAll(specs, name);
      for i := 0 to |specs|
        invariant Valid() && forall s :: s in all[..i] ==> s.maxAttempts >= 1
        invariant (jobs, nextId, created) == EnqueuedAll(old(jobs), old(nextId), now, all[..i])
      {
        assert specs[i] in specs && all[i] == Addressed(specs[i], name);
        ghost var before, next := jobs, nextId;
        var id := Enqueue(specs[i]);
        EnqueueIsStep(before, next, now, all[i], jobs, nextId, id);
        EnqueuedNext(old(jobs), old(nextId), now, all, i);
        if id.Some? {
          created := created + 1;
        }
      }
      assert all[..|specs|] == all;
    }

    /** The reaper statement of `claim`: the expired running rows with no attempt left die, and no other row changes. */
    method Reap()
      requires Valid()
      modifies `jobs
      ensures Valid() && jobs.Keys == old(jobs).Keys
      ensures forall id :: id in jobs ==>
                var j, j' := old(jobs)[id], jobs[id];
                if j.queue == name && j.state == Running && j.availableAt <= now && j.attempts >= j.maxAttempts
                then && Finished(j, j', Dead, now)
                    && (j.lastError.Some? ==> j'.lastError == j.lastError)
                    && (j.lastError.None? ==> j'.lastError == Some("lease expired with no attempts remaining"))
                else j' == j
    {
      jobs := map id | id in jobs ::
        if Reapable(jobs[id], name, now)
        then jobs[id].(state := Dead, claimedBy := None, finishedAt := Some(now),
                       lastError := if jobs[id].lastError.Some? then jobs[id].lastError else Some(REAPED))
        else jobs[id];
    }

    /**
     The claim statement of `claim`, stepping past the rows other transactions hold locked: the first
     `limit` claimable rows, by priority, time and id, are leased to the worker, and no other row changes.
     */
    method Claim(worker: string, limit: nat, locked: set<int>) returns (claimed: seq<ClaimedJob>)
      requires Valid()
      modifies `jobs
      ensures Valid() && jobs.Keys == old(jobs).Keys
      ensures |claimed| <= limit && forall i :: 0 <= i < |claimed| ==>
                claimed[i].id in old(jobs) && claimed[i].id !in locked &&
                var j := old(jobs)[claimed[i].id];
                && j.queue == name && (j.state == Pending || j.state == Running)
                && j.availableAt <= now && j.attempts < j.maxAttempts
      ensures forall i, k :: 0 <= i < k < |claimed| ==>
                var a, b := claimed[i].id, claimed[k].id;
                var j, j' := old(jobs)[a], old(jobs)[b];
                || j.priority > j'.priority
                || (j.priority == j'.priority && j.availableAt < j'.availableAt)
                || (j.priority == j'.priority && j.availableAt == j'.availableAt && a < b)
      ensures forall b :: b in old(jobs) && b !in locked && b !in JobIds(claimed) ==>
                var j' := old(jobs)[b];
                (&& j'.queue == name && (j'.state == Pending || j'.state == Running)
                 && j'.availableAt <= now && j'.attempts < j'.maxAttempts) ==>
                  |claimed| == limit && forall i :: 0 <= i < |claimed| ==>
                    var a := claimed[i].id;
                    var j := old(jobs)[a];
                    || j.priority > j'.priority
                    || (j.priority == j'.priority && j.availableAt < j'.availableAt)
                    || (j.priority == j'.priority && j.availableAt == j'.availableAt && a < b)
      ensures forall id :: id in jobs ==>
                if id in JobIds(claimed) then IsLeased(old(jobs)[id], jobs[id], worker, now + visibilityTimeout)
                else jobs[id] == old(jobs)[id]
      ensures forall i :: 0 <= i < |claimed| ==> Reports(claimed[i], jobs)
    {
      ghost var before := jobs;
      jobs, claimed := TakeFront(jobs, name, now, locked, nextId, limit, worker, now + visibilityTimeout);
      ClaimReports(before, name, now, locked, nextId, limit, claimed);
    }

    /** `heartbeat`: the lease of the running row with this very epoch is extended; false means it was lost. */
    method Heartbeat(job: ClaimedJob) returns (held: bool)
      requires Valid()
      modifies `jobs
      ensures Valid() && jobs.Keys == old(jobs).Keys && OthersKept(old(jobs), jobs, job.id)
      ensures held == Fenced(old(jobs), job.id, job.leaseEpoch)
      ensures !held ==> jobs == old(jobs)
      ensures held ==> jobs[job.id].availableAt == now + visibilityTimeout
      ensures held ==> SameButLease(old(jobs)[job.id], jobs[job.id])
    {
      held := Fenced(jobs, job.id, job.leaseEpoch);
      if held {
        jobs := jobs[job.id := jobs[job.id].(availableAt := now + visibilityTimeout)];
      }
    }

    /** `ack`: the running row with this very epoch has succeeded; no other row can tell. */
    method Ack(job: ClaimedJob) returns (done: bool)
      requires Valid()
      modifies `jobs
      ensures Valid() && jobs.Keys == old(jobs).Keys && OthersKept(old(jobs), jobs, job.id)
      ensures done == Fenced(old(jobs), job.id, job.leaseEpoch)
      ensures !done ==> jobs == old(jobs)
      ensures done ==> Finished(old(jobs)[job.id], jobs[job.id], Succeeded, now) && jobs[job.id].lastError == None
    {
      done := Fenced(jobs, job.id, job.leaseEpoch);
      if done {
        jobs := jobs[job.id := jobs[job.id].(state := Succeeded, claimedBy := None, lastError := None,
                                             finishedAt := Some(now))];
      }
    }

    /**
     `nack`, with the jittered delay drawn by the caller: dead when that was the last attempt, otherwise
     pending after the delay.
     */
    method Nack(job: ClaimedJob, error: string, delay: int) returns (state: Option<JobState>)
      requires Valid()
      modifies `jobs
      ensures Valid() && jobs.Keys == old(jobs).Keys && OthersKept(old(jobs), jobs, job.id)
      ensures state == None <==> !Fenced(old(jobs), job.id, job.leaseEpoch)
      ensures state == None ==> jobs == old(jobs)
      ensures state.Some? ==> jobs[job.id].state == state.value
      ensures state.Some? ==> jobs[job.id].lastError == Some(if |error| <= 4000 then error else error[..4000])
      ensures state.Some? ==>
                if old(jobs)[job.id].attempts >= old(jobs)[job.id].maxAttempts
                then Finished(old(jobs)[job.id], jobs[job.id], Dead, now)
                else Postponed(old(jobs)[job.id], jobs[job.id], now + delay)
    {
      if !Fenced(jobs, job.id, job.leaseEpoch) {
        return None;
      }
      assert error[..|error|] == error;
      var j := jobs[job.id];
      var last := j.attempts >= j.maxAttempts;
      jobs := jobs[job.id := j.(state := if last then Dead else Pending,
                                availableAt := if last then j.availableAt else now + delay,
                                finishedAt := if last then Some(now) else None, lastError := Some(Clip(error)),
                                claimedBy := None)];
      return Some(jobs[job.id].state);
    }

    /** `requeue_dead`: up to `limit` dead rows, some oldest ones, are pending again; no other row changes. */
    method RequeueDead(limit: nat) returns (count: nat, ghost chosen: set<int>)
      requires Valid()
      modifies `jobs
      ensures Valid() && jobs.Keys == old(jobs).Keys
      ensures OldestDead(old(jobs), name, limit, chosen) && count == |chosen|
      ensures |chosen| <= limit
      ensures |chosen| < limit ==>
                forall b :: b in old(jobs) && old(jobs)[b].state == Dead && old(jobs)[b].queue == name ==> b in chosen
      ensures forall a, b :: a in chosen && b in old(jobs) && b !in chosen ==>
                var j, j' := old(jobs)[a], old(jobs)[b];
                && j.state == Dead && j.queue == name
                && (j'.state == Dead && j'.queue == name && j'.finishedAt.Some? ==>
                      j.finishedAt.Some? && j.finishedAt.value <= j'.finishedAt.value)
      ensures forall id :: id in jobs ==>
                if id in chosen then SetBack(old(jobs)[id], jobs[id], now) else jobs[id] == old(jobs)[id]
    {
      var picked := PickOldest(jobs, name, limit);
      FewerThanAllowed(jobs, name, limit, picked);
      jobs := map id | id in jobs ::
        if id in picked
        then jobs[id].(state := Pending, attempts := 0, availableAt := now, finishedAt := None, lastError := None)
        else jobs[id];
      count, chosen := |picked|, picked;
    }
  }

  /** Fewer than allowed are picked only when there are no more. */
  lemma FewerThanAllowed(jobs: Jobs, queue: string, limit: nat, chosen: set<int>)
    requires OldestDead(jobs, queue, limit, chosen)
    ensures |chosen| < limit ==>
              forall b :: b in jobs && jobs[b].state == Dead && jobs[b].queue == queue ==> b in chosen
  {
    forall b | |chosen| < limit && b in jobs && jobs[b].state == Dead && jobs[b].queue == queue ensures b in chosen {
      forall x | x in chosen + {b} ensures x in DeadIn(jobs, queue) {
      }
      SubsetSize(chosen + {b}, DeadIn(jobs, queue));
    }
  }

  /** The sub-select of `requeue_dead`. */
  method PickOldest(jobs: Jobs, queue: string, limit: nat) returns (chosen: set<int>)
    ensures OldestDead(jobs, queue, limit, chosen)
  {
    var dead := set id | id in jobs && IsDead(jobs[id], queue);
    chosen := {};
    while |dead| > 0 && |chosen| < limit
      invariant Split(jobs, queue, chosen, dead) && |chosen| <= limit && OlderThan(jobs, chosen, dead)
      decreases |dead|
    {
      SplitMembers(jobs, queue, chosen, dead);
      var a := Oldest(jobs, dead);
      SplitMove(jobs, queue, chosen, dead, a);
      OlderStill(jobs, chosen, dead, a);
      chosen, dead := chosen + {a}, dead - {a};
    }
    SplitIsOldest(jobs, queue, limit, chosen, dead);
  }

  lemma SplitIsOldest(jobs: Jobs, queue: string, limit: nat, chosen: set<int>, dead: set<int>)
    requires Split(jobs, queue, chosen, dead) && OlderThan(jobs, chosen, dead)
    requires |chosen| <= limit && (|dead| == 0 || |chosen| == limit)
    ensures OldestDead(jobs, queue, limit, chosen)
  {
    SplitMembers(jobs, queue, chosen, dead);
  }

  ghost predicate OlderThan(jobs: Jobs, chosen: set<int>, dead: set<int>) {
    forall a, b :: a in chosen && b in dead ==>
      a in jobs && b in jobs && FinishedLe(jobs[a].finishedAt, jobs[b].finishedAt)
  }

  lemma OlderStill(jobs: Jobs, chosen: set<int>, dead: set<int>, a: int)
    requires OlderThan(jobs, chosen, dead) && a in dead && forall b :: b in dead ==> b in jobs
    requires forall b :: b in dead ==> FinishedLe(jobs[a].finishedAt, jobs[b].finishedAt)
    ensures OlderThan(jobs, chosen + {a}, dead - {a})
  {
  }

  /** `chosen` and `dead` are the dead rows of the queue between them. */
  ghost predicate Split(jobs: Jobs, queue: string, chosen: set<int>, dead: set<int>) {
    chosen !! dead && chosen + dead == DeadIn(jobs, queue)
  }

  lemma SplitMove(jobs: Jobs, queue: string, chosen: set<int>, dead: set<int>, a: int)
    requires Split(jobs, queue, chosen, dead) && a in dead
    ensures Split(jobs, queue, chosen + {a}, dead - {a})
    ensures |chosen + {a}| == |chosen| + 1
  {
    assert chosen + {a} + (dead - {a}) == chosen + dead;
  }

  lemma SplitMembers(jobs: Jobs, queue: string, chosen: set<int>, dead: set<int>)
    requires Split(jobs, queue, chosen, dead)
    ensures forall id :: id in chosen ==> id in jobs && IsDead(jobs[id], queue)
    ensures forall id :: id in dead ==> id in jobs && IsDead(jobs[id], queue)
    ensures forall id :: id in jobs && IsDead(jobs[id], queue) && id !in chosen ==> id in dead
    ensures |chosen| + |dead| == |DeadIn(jobs, queue)|
  {
    forall id | id in chosen || id in dead ensures id in DeadIn(jobs, queue) {
      assert id in chosen + dead;
    }
    forall id | id in jobs && IsDead(jobs[id], queue) ensures id in chosen + dead {
      assert id in DeadIn(jobs, queue);
    }
  }

  method Oldest(jobs: Jobs, dead: set<int>) returns (a: int)
    requires |dead| > 0 && forall id :: id in dead ==> id in jobs
    ensures a in dead && forall b :: b in dead ==> FinishedLe(jobs[a].finishedAt, jobs[b].finishedAt)
  {
    ghost var w := Spare(dead, {});
    a :| a in dead;
    var rest := dead - {a};
    while |rest| > 0
      invariant a in dead && rest <= dead
      invariant forall b :: b in dead && b !in rest ==> FinishedLe(jobs[a].finishedAt, jobs[b].finishedAt)
      decreases |rest|
    {
      w := Spare(rest, {});
      var b :| b in rest;
      if !FinishedLe(jobs[a].finishedAt, jobs[b].finishedAt) {
        a := b;
      }
      rest := rest - {b};
    }
  }
}
