/** Power actions and their progress (console/control.rs, `PowerJobs`). */
module PowerJobs {
  import opened Wrappers

  datatype Action = StartServer | StopServer | RestartServer

  /** Both of the ones that take the server down. */
  predicate SavesFirst(a: Action) {
    a == StopServer || a == RestartServer
  }

  datatype Phase = Saving | Queued | Done | Failed

  datatype Job = Job(action: Action, phase: Phase, saveError: Option<string>, error: Option<string>, output: Option<string>)

  datatype Tracked = Tracked(job: Job, started: int)

  type Jobs = map<nat, Tracked>

  const JOB_RETENTION := 30 * 60

  function NewJob(action: Action): Job {
    Job(action, if SavesFirst(action) then Saving else Queued, None, None, None)
  }

  /** Jobs older than the retention go whenever one is opened. */
  function OpenedJobs(jobs: Jobs, id: nat, action: Action, now: int): Jobs {
    (map i | i in jobs && now - jobs[i].started < JOB_RETENTION :: jobs[i])[id := Tracked(NewJob(action), now)]
  }

  /** A job that has expired is silently ignored. */
  function UpdatedJobs(jobs: Jobs, id: nat, change: Job -> Job): Jobs {
    if id in jobs then jobs[id := jobs[id].(job := change(jobs[id].job))] else jobs
  }

  /** The job a caller finds under an id. */
  function JobIn(jobs: Jobs, id: nat): Option<Job> {
    if id in jobs then Some(jobs[id].job) else None
  }

  // ---- What callers find ----

  datatype Call = Open(id: nat, action: Action, now: int) | Update(id: nat, change: Job -> Job)

  function Called(jobs: Jobs, call: Call): Jobs {
    match call
    case Open(id, action, now) => OpenedJobs(jobs, id, action, now)
    case Update(id, change) => UpdatedJobs(jobs, id, change)
  }

  function CalledAll(jobs: Jobs, calls: seq<Call>): Jobs
    decreases |calls|
  {
    if calls == [] then jobs else CalledAll(Called(jobs, calls[0]), calls[1..])
  }

  /** An id is handed out once. */
  predicate OpensOthers(calls: seq<Call>, id: nat) {
    forall i | 0 <= i < |calls| :: calls[i].Open? ==> calls[i].id != id
  }

  /** No job was opened so late that one started then had expired. */
  predicate Outlasts(calls: seq<Call>, started: int) {
    forall i | 0 <= i < |calls| :: calls[i].Open? ==> calls[i].now - started < 1800
  }

  /** A job with the changes made under its id, in order. */
  function Changed(job: Job, calls: seq<Call>, id: nat): Job
    decreases |calls|
  {
    if calls == [] then job
    else Changed(if calls[0].Update? && calls[0].id == id then calls[0].change(job) else job, calls[1..], id)
  }

  lemma {:induction false} StandsUntilItExpires(jobs: Jobs, id: nat, calls: seq<Call>)
    requires OpensOthers(calls, id)
    ensures JobIn(CalledAll(jobs, calls), id)
            == if id in jobs && Outlasts(calls, jobs[id].started) then Some(Changed(jobs[id].job, calls, id)) else None
    decreases |calls|
  {
    if calls != [] {
      assert calls == [calls[0]] + calls[1..];
      StandsUntilItExpires(Called(jobs, calls[0]), id, calls[1..]);
      assert id in jobs ==> (Outlasts(calls, jobs[id].started)
                             <==> Outlasts([calls[0]], jobs[id].started) && Outlasts(calls[1..], jobs[id].started));
    }
  }

  /**
   * Whatever is opened and updated after a job: under its id is found the job in
   * its first phase with its own changes in order, and no longer anything once one
   * has been opened too late for it.
   */
  lemma FoundAfterwards(jobs: Jobs, id: nat, action: Action, now: int, calls: seq<Call>)
    requires OpensOthers(calls, id)
    ensures JobIn(CalledAll(OpenedJobs(jobs, id, action, now), calls), id)
            == if Outlasts(calls, now) then Some(Changed(NewJob(action), calls, id)) else None
  {
    StandsUntilItExpires(OpenedJobs(jobs, id, action, now), id, calls);
  }

  class JobTable {
    var jobs: Jobs

    constructor ()
      ensures jobs == map[]
    {
      jobs := map[];
    }

    method Open(id: nat, action: Action, now: int)
      modifies this
      ensures jobs == OpenedJobs(old(jobs), id, action, now)
    {
      var kept := map i | i in jobs && now - jobs[i].started < JOB_RETENTION :: jobs[i];
      jobs := kept[id := Tracked(NewJob(action), now)];
    }

    method Get(id: nat) returns (job: Option<Job>)
      ensures job == JobIn(jobs, id)
    {
      job := if id in jobs then Some(jobs[id].job) else None;
    }

    method Update(id: nat, change: Job -> Job)
      modifies this
      ensures jobs == UpdatedJobs(old(jobs), id, change)
      ensures jobs.Keys == old(jobs).Keys
      ensures forall i | i in jobs && i != id :: jobs[i] == old(jobs)[i]
    {
      if id in jobs {
        jobs := jobs[id := jobs[id].(job := change(jobs[id].job))];
      }
    }
  }
}
