/**
 * A power action from request to verdict (routes/console.rs, `power`,
 * `run_power_action` and `power_result`), over every interleaving of the workers
 * that save and spool, the sidecar that runs what is spooled, and the pollers.
 */
module PowerRuns {
  import opened Wrappers
  import opened Numbers
  import opened PowerJobs

  /** Where a worker is. `Recording` has a failed save still to note down. */
  datatype Stage = SavingWorld | Recording(why: string) | Ready | Requested(ok: bool) | Finished(ok: bool)

  datatype Worker = Worker(action: Action, stage: Stage)

  /** What the sidecar wrote into the result file. */
  datatype Verdict = Verdict(code: int, output: string)

  /** A poll between its copy of the job, its write back and its answer. */
  datatype Poll = Holding(id: nat, job: Job) | Storing(id: nat, job: Job) | Answered(id: nat, job: Job)

  datatype System = System(
    now: int, jobs: Jobs, workers: map<nat, Worker>, saved: set<nat>,
    spool: set<nat>, verdicts: map<nat, Verdict>, polls: map<nat, Poll>)

  const IDLE := System(0, map[], map[], {}, {}, map[], map[])

  datatype Step =
    | Clock(now: int)
    | OpenJob(id: nat, action: Action)
    | SaveReturns(id: nat, why: Option<string>)
    | RecordSave(id: nat)
    | Request(id: nat, ok: bool)
    | RecordRequest(id: nat)
    | SidecarRuns(id: nat, verdict: Verdict)
    | PollCopies(poll: nat, id: nat)
    | PollReads(poll: nat)
    | PollStores(poll: nat)

  function PhaseOf(v: Verdict): Phase {
    if v.code == 0 then Done else Failed
  }

  /** What the sidecar printed, or its status when it printed nothing. */
  function FailureText(v: Verdict): string {
    if v.output == "" then "the server control exited with status " + DecimalText(v.code) else v.output
  }

  /** The job as a verdict settles it. */
  function Settled(job: Job, v: Verdict): Job {
    job.(phase := PhaseOf(v), output := Some(v.output),
         error := if v.code == 0 then job.error else Some(FailureText(v)))
  }

  function Unavailable(job: Job): Job {
    job.(phase := Failed, error := Some("Server control is unavailable"))
  }

  function AtStage(s: System, id: nat, stage: Stage): System
    requires id in s.workers
  {
    s.(workers := s.workers[id := s.workers[id].(stage := stage)])
  }

  function WorkerStep(s: System, id: nat, step: Step): System
    requires id in s.workers
  {
    var stage := s.workers[id].stage;
    match step
    case SaveReturns(_, why) =>
      if stage != SavingWorld then s
      else AtStage(s, id, if why.None? then Ready else Recording(why.value)).(saved := s.saved + {id})
    case RecordSave(_) =>
      if !stage.Recording? then s
      else AtStage(s, id, Ready).(jobs := UpdatedJobs(s.jobs, id, (j: Job) => j.(saveError := Some(stage.why))))
    case Request(_, ok) =>
      if stage != Ready then s else AtStage(s, id, Requested(ok)).(spool := if ok then s.spool + {id} else s.spool)
    case RecordRequest(_) =>
      if !stage.Requested? then s
      else
        AtStage(s, id, Finished(stage.ok)).(jobs := UpdatedJobs(s.jobs, id,
          if stage.ok then (j: Job) => j.(phase := Queued) else (j: Job) => Unavailable(j)))
    case _ => s
  }

  function PollStep(s: System, poll: nat): System
    requires poll in s.polls
  {
    match s.polls[poll]
    case Holding(id, job) =>
      if job.phase == Queued && id in s.verdicts then s.(polls := s.polls[poll := Storing(id, Settled(job, s.verdicts[id]))])
      else s.(polls := s.polls[poll := Answered(id, job)])
    case Storing(id, job) =>
      s.(polls := s.polls[poll := Answered(id, job)],
         jobs := UpdatedJobs(s.jobs, id, (j: Job) => j.(phase := job.phase, error := job.error, output := job.output)))
    case Answered(_, _) => s
  }

  function Apply(s: System, step: Step): System {
    match step
    case Clock(now) => if now >= s.now then s.(now := now) else s
    case OpenJob(id, action) =>
      if id in s.workers then s
      else
        s.(jobs := OpenedJobs(s.jobs, id, action, s.now),
           workers := s.workers[id := Worker(action, if SavesFirst(action) then SavingWorld else Ready)])
    case SaveReturns(id, _) => if id in s.workers then WorkerStep(s, id, step) else s
    case RecordSave(id) => if id in s.workers then WorkerStep(s, id, step) else s
    case Request(id, _) => if id in s.workers then WorkerStep(s, id, step) else s
    case RecordRequest(id) => if id in s.workers then WorkerStep(s, id, step) else s
    case SidecarRuns(id, verdict) =>
      if id in s.spool && id !in s.verdicts then s.(verdicts := s.verdicts[id := verdict]) else s
    case PollCopies(poll, id) =>
      if poll in s.polls || id !in s.jobs then s else s.(polls := s.polls[poll := Holding(id, s.jobs[id].job)])
    case PollReads(poll) => if poll in s.polls && s.polls[poll].Holding? then PollStep(s, poll) else s
    case PollStores(poll) => if poll in s.polls && s.polls[poll].Storing? then PollStep(s, poll) else s
  }

  function Run(s: System, steps: seq<Step>): System {
    if steps == [] then s else Apply(Run(s, steps[..|steps| - 1]), steps[|steps| - 1])
  }

  predicate InSpool(stage: Stage) {
    (stage.Requested? || stage.Finished?) && stage.ok
  }

  /** Only a verdict of zero makes a job done. */
  ghost predicate Earned(s: System, id: nat, phase: Phase) {
    phase == Done ==> id in s.verdicts && s.verdicts[id].code == 0
  }

  /** A job fails by its verdict, or because it could not be spooled. */
  ghost predicate Explained(s: System, id: nat, stage: Stage, phase: Phase) {
    phase == Failed ==> (id in s.verdicts && s.verdicts[id].code != 0) || stage == Finished(false)
  }

  /** The phase of a job that saves first, at each stage of its worker. */
  ghost predicate Fits(s: System, id: nat, stage: Stage, phase: Phase) {
    match stage
    case Finished(ok) =>
      if ok then phase == Queued || (id in s.verdicts && phase == PhaseOf(s.verdicts[id])) else phase == Failed
    case _ => phase == Saving
  }

  ghost predicate WorkerInv(s: System, id: nat)
    requires id in s.workers
  {
    var w := s.workers[id];
    && (id in s.verdicts ==> id in s.spool)
    && (id in s.spool <==> InSpool(w.stage))
    && (SavesFirst(w.action) && w.stage != SavingWorld ==> id in s.saved)
    && (id in s.jobs ==>
          var job := s.jobs[id].job;
          job.action == w.action && Earned(s, id, job.phase) && Explained(s, id, w.stage, job.phase) &&
          (SavesFirst(w.action) ==> Fits(s, id, w.stage, job.phase)))
  }

  /** A copy of a job that saves first is still good: queued after the request, final only for good. */
  ghost predicate StillGood(s: System, id: nat, job: Job)
    requires id in s.workers
  {
    && Earned(s, id, job.phase)
    && (SavesFirst(s.workers[id].action) ==>
          && (job.phase == Queued ==> s.workers[id].stage == Finished(true))
          && (job.phase in {Done, Failed} ==> s.workers[id].stage.Finished? && Fits(s, id, s.workers[id].stage, job.phase))
          && (job.phase in {Done, Failed} && id in s.jobs ==> s.jobs[id].job.phase == job.phase))
  }

  ghost predicate PollInv(s: System, p: Poll) {
    p.id in s.workers &&
    match p
    case Holding(id, job) => StillGood(s, id, job)
    case Answered(id, job) => StillGood(s, id, job)
    case Storing(id, job) =>
      && id in s.verdicts && job.phase == PhaseOf(s.verdicts[id])
      && (SavesFirst(s.workers[id].action) ==> s.workers[id].stage == Finished(true))
  }

  ghost predicate Inv(s: System) {
    && s.jobs.Keys <= s.workers.Keys && s.spool <= s.workers.Keys && s.verdicts.Keys <= s.spool
    && (forall id | id in s.workers :: WorkerInv(s, id))
    && (forall p | p in s.polls :: PollInv(s, s.polls[p]))
  }

  lemma WorkerStepKeepsWorkers(s: System, id: nat, step: Step, other: nat)
    requires Inv(s) && id in s.workers && other in s.workers
    ensures var t := WorkerStep(s, id, step); other in t.workers && WorkerInv(t, other)
  {
    assert WorkerInv(s, other);
  }

  lemma WorkerStepKeepsPolls(s: System, id: nat, step: Step, p: Poll)
    requires Inv(s) && id in s.workers && PollInv(s, p)
    ensures PollInv(WorkerStep(s, id, step), p)
  {
    assert WorkerInv(s, id);
    assert WorkerInv(s, p.id);
  }

  lemma WorkerStepKeepsInv(s: System, id: nat, step: Step)
    requires Inv(s) && id in s.workers
    ensures Inv(WorkerStep(s, id, step))
  {
    var t := WorkerStep(s, id, step);
    forall other | other in t.workers ensures WorkerInv(t, other) {
      WorkerStepKeepsWorkers(s, id, step, other);
    }
    forall p | p in t.polls ensures PollInv(t, t.polls[p]) {
      WorkerStepKeepsPolls(s, id, step, s.polls[p]);
    }
  }

  lemma PollStepKeepsPolls(s: System, poll: nat, other: nat)
    requires Inv(s) && poll in s.polls && other in s.polls
    ensures var t := PollStep(s, poll); PollInv(t, t.polls[other])
  {
    assert PollInv(s, s.polls[poll]);
    assert PollInv(s, s.polls[other]);
    assert WorkerInv(s, s.polls[poll].id);
    assert WorkerInv(s, s.polls[other].id);
  }

  lemma PollStepKeepsWorkers(s: System, poll: nat, id: nat)
    requires Inv(s) && poll in s.polls && id in s.workers
    ensures WorkerInv(PollStep(s, poll), id)
  {
    assert PollInv(s, s.polls[poll]);
    assert WorkerInv(s, id);
    assert WorkerInv(s, s.polls[poll].id);
  }

  lemma PollStepKeepsInv(s: System, poll: nat)
    requires Inv(s) && poll in s.polls
    ensures Inv(PollStep(s, poll))
  {
    var t := PollStep(s, poll);
    forall id | id in t.workers ensures WorkerInv(t, id) {
      PollStepKeepsWorkers(s, poll, id);
    }
    forall p | p in t.polls ensures PollInv(t, t.polls[p]) {
      PollStepKeepsPolls(s, poll, p);
    }
  }

  lemma OpeningKeepsInv(s: System, id: nat, action: Action)
    requires Inv(s) && id !in s.workers
    ensures Inv(Apply(s, OpenJob(id, action)))
  {
    var t := Apply(s, OpenJob(id, action));
    forall other | other in t.workers ensures WorkerInv(t, other) {
      if other != id { assert WorkerInv(s, other); }
    }
    forall p | p in t.polls ensures PollInv(t, t.polls[p]) {
      assert PollInv(s, s.polls[p]);
    }
  }

  lemma VerdictKeepsInv(s: System, id: nat, verdict: Verdict)
    requires Inv(s)
    ensures Inv(Apply(s, SidecarRuns(id, verdict)))
  {
    var t := Apply(s, SidecarRuns(id, verdict));
    forall other | other in t.workers ensures WorkerInv(t, other) {
      assert WorkerInv(s, other);
    }
    forall p | p in t.polls ensures PollInv(t, t.polls[p]) {
      assert PollInv(s, s.polls[p]);
      assert WorkerInv(s, s.polls[p].id);
    }
  }

  lemma CopyKeepsInv(s: System, poll: nat, id: nat)
    requires Inv(s)
    ensures Inv(Apply(s, PollCopies(poll, id)))
  {
    var t := Apply(s, PollCopies(poll, id));
    forall other | other in t.workers ensures WorkerInv(t, other) {
      assert WorkerInv(s, other);
    }
    forall p | p in t.polls ensures PollInv(t, t.polls[p]) {
      if p in s.polls { assert PollInv(s, s.polls[p]); } else { assert WorkerInv(s, id); }
    }
  }

  lemma StepKeepsInv(s: System, step: Step)
    requires Inv(s)
    ensures Inv(Apply(s, step))
  {
    match step
    case Clock(now) => ClockKeepsInv(s, now);
    case OpenJob(id, action) => if id !in s.workers { OpeningKeepsInv(s, id, action); }
    case SaveReturns(id, _) => if id in s.workers { WorkerStepKeepsInv(s, id, step); }
    case RecordSave(id) => if id in s.workers { WorkerStepKeepsInv(s, id, step); }
    case Request(id, _) => if id in s.workers { WorkerStepKeepsInv(s, id, step); }
    case RecordRequest(id) => if id in s.workers { WorkerStepKeepsInv(s, id, step); }
    case SidecarRuns(id, verdict) => VerdictKeepsInv(s, id, verdict);
    case PollCopies(poll, id) => CopyKeepsInv(s, poll, id);
    case PollReads(poll) => if poll in s.polls { PollStepKeepsInv(s, poll); }
    case PollStores(poll) => if poll in s.polls { PollStepKeepsInv(s, poll); }
  }

  lemma ClockKeepsInv(s: System, now: int)
    requires Inv(s)
    ensures Inv(Apply(s, Clock(now)))
  {
    var t := Apply(s, Clock(now));
    forall id | id in t.workers ensures WorkerInv(t, id) { assert WorkerInv(s, id); }
    forall p | p in t.polls ensures PollInv(t, t.polls[p]) { assert PollInv(s, s.polls[p]); }
  }

  lemma {:induction false} RunKeepsInv(steps: seq<Step>)
    ensures Inv(Run(IDLE, steps))
    decreases |steps|
  {
    if steps != [] {
      RunKeepsInv(steps[..|steps| - 1]);
      StepKeepsInv(Run(IDLE, steps[..|steps| - 1]), steps[|steps| - 1]);
    }
  }

  /** A stop or restart is spooled only after its save attempt has returned. */
  lemma SpooledAfterSaving(steps: seq<Step>, id: nat)
    requires id in Run(IDLE, steps).spool
    ensures var s := Run(IDLE, steps); id in s.workers && (SavesFirst(s.workers[id].action) ==> id in s.saved)
  {
    RunKeepsInv(steps);
    assert WorkerInv(Run(IDLE, steps), id);
  }

  /** Whatever the action, a poll answers `done` only when the sidecar's verdict for that job is zero. */
  lemma DoneMeansZero(steps: seq<Step>, poll: nat)
    requires poll in Run(IDLE, steps).polls && Run(IDLE, steps).polls[poll].Answered?
    ensures var s := Run(IDLE, steps);
            var a := s.polls[poll];
            a.job.phase == Done ==> a.id in s.verdicts && s.verdicts[a.id].code == 0
  {
    RunKeepsInv(steps);
    assert PollInv(Run(IDLE, steps), Run(IDLE, steps).polls[poll]);
  }

  /**
   * A stop or restart only moves forward -- Saving to Queued or Failed, Queued to
   * Done or Failed -- for as long as it is retained, so a final phase stays.
   */
  lemma PhasesOnlyMoveForward(steps: seq<Step>, step: Step, id: nat)
    requires var s := Run(IDLE, steps);
             id in s.jobs && id in Apply(s, step).jobs && SavesFirst(s.jobs[id].job.action)
    ensures var s := Run(IDLE, steps);
            var before, after := s.jobs[id].job.phase, Apply(s, step).jobs[id].job.phase;
            && (before == Saving ==> after in {Saving, Queued, Failed})
            && (before == Queued ==> after in {Queued, Done, Failed})
            && (before in {Done, Failed} ==> after == before)
  {
    var s := Run(IDLE, steps);
    RunKeepsInv(steps);
    assert WorkerInv(s, id);
    if (step.PollReads? || step.PollStores?) && step.poll in s.polls {
      assert PollInv(s, s.polls[step.poll]);
    }
  }

  /** What one poll has answered for good, a later one finds in the table. */
  lemma FinalAnswersStand(steps: seq<Step>, poll: nat)
    requires var s := Run(IDLE, steps);
             poll in s.polls && s.polls[poll].Answered? && s.polls[poll].job.phase in {Done, Failed} &&
             s.polls[poll].id in s.jobs && SavesFirst(s.jobs[s.polls[poll].id].job.action)
    ensures var s := Run(IDLE, steps);
            s.jobs[s.polls[poll].id].job.phase == s.polls[poll].job.phase
  {
    RunKeepsInv(steps);
    var s := Run(IDLE, steps);
    assert PollInv(s, s.polls[poll]);
    assert WorkerInv(s, s.polls[poll].id);
  }

  /**
   * Whatever the action, a final phase is left at exactly one step: the worker
   * of a start noting a request whose verdict has already been stored.
   */
  lemma OnlyAStartGoesBack(steps: seq<Step>, step: Step, id: nat)
    requires var s := Run(IDLE, steps);
             id in s.jobs && id in Apply(s, step).jobs && s.jobs[id].job.phase in {Done, Failed}
    ensures var s := Run(IDLE, steps);
            id in s.workers &&
            var after := Apply(s, step).jobs[id].job.phase;
            && (after != s.jobs[id].job.phase <==> step == RecordRequest(id) && s.workers[id].stage == Requested(true))
            && (after != s.jobs[id].job.phase ==> s.jobs[id].job.action == StartServer && after == Queued)
  {
    var s := Run(IDLE, steps);
    RunKeepsInv(steps);
    assert WorkerInv(s, id);
    if SavesFirst(s.jobs[id].job.action) {
      PhasesOnlyMoveForward(steps, step, id);
    } else if (step.PollReads? || step.PollStores?) && step.poll in s.polls {
      assert PollInv(s, s.polls[step.poll]);
    }
  }

  /** A start that is spooled and has run before its worker has noted the request, and a poll that saw it. */
  function EarlyCopy(): System {
    var accepted := Apply(IDLE, OpenJob(0, StartServer));
    var spooled := Apply(accepted, Request(0, true));
    Apply(Apply(spooled, SidecarRuns(0, Verdict(0, ""))), PollCopies(1, 0))
  }

  lemma EarlyCopyHoldsTheJob()
    ensures var s := EarlyCopy();
            && s.workers == map[0 := Worker(StartServer, Requested(true))] && 0 in s.jobs
            && s.polls == map[1 := Holding(0, s.jobs[0].job)] && s.verdicts == map[0 := Verdict(0, "")]
            && s.jobs[0].job.phase == Queued
  {
    var accepted := Apply(IDLE, OpenJob(0, StartServer));
    assert accepted.workers == map[0 := Worker(StartServer, Ready)];
    var spooled := Apply(accepted, Request(0, true));
    assert spooled.spool == {0} && spooled.workers == map[0 := Worker(StartServer, Requested(true))];
    var run := Apply(spooled, SidecarRuns(0, Verdict(0, "")));
    assert run.verdicts == map[0 := Verdict(0, "")] && run.jobs == accepted.jobs && run.workers == spooled.workers;
  }

  /** The poll stores the verdict: the start is done. */
  function EarlyVerdict(): System {
    Apply(Apply(EarlyCopy(), PollReads(1)), PollStores(1))
  }

  /** It happens: that start is done, and then queued again. */
  lemma AStartCanGoBack()
    ensures var s := EarlyVerdict();
            0 in s.jobs && s.jobs[0].job.phase == Done && Apply(s, RecordRequest(0)).jobs[0].job.phase == Queued
  {
    EarlyCopyHoldsTheJob();
    var copied := EarlyCopy();
    var read := Apply(copied, PollReads(1));
    assert read.polls[1] == Storing(0, Settled(copied.jobs[0].job, Verdict(0, "")));
    assert read.workers == copied.workers && read.jobs == copied.jobs;
    assert EarlyVerdict().workers == copied.workers;
  }
}
