/**
 * What a poll for a power action answers (routes/console.rs, `power_result`): it
 * reports every verdict it finds, and its errors and outputs are the sidecar's
 * own, or say that the sidecar could not be reached.
 */
module PowerAnswers {
  import opened Wrappers
  import opened Numbers
  import opened PowerJobs
  import opened PowerRuns

  // ---- A verdict is reported ----

  /** The job of a poll that has found a verdict, from the job it copied. */
  ghost predicate Reports(found: Job, copied: Job, v: Verdict) {
    && found.action == copied.action && found.saveError == copied.saveError
    && (found.phase == Done <==> v.code == 0) && (found.phase == Failed <==> v.code != 0)
    && found.output == Some(v.output)
    && (v.code == 0 ==> found.error == copied.error)
    && (v.code != 0 && v.output != "" ==> found.error == Some(v.output))
    && (v.code != 0 && v.output == "" ==>
          found.error == Some("the server control exited with status " + DecimalText(v.code)))
  }

  /** A poll that has found its answer keeps it. */
  ghost predicate Decided(s: System, poll: nat, id: nat, job: Job) {
    poll in s.polls && (s.polls[poll] == Storing(id, job) || s.polls[poll] == Answered(id, job))
  }

  lemma {:induction false} DecidedForGood(s: System, steps: seq<Step>, poll: nat, id: nat, job: Job)
    requires Decided(s, poll, id, job)
    ensures Decided(Run(s, steps), poll, id, job)
    decreases |steps|
  {
    if steps != [] {
      DecidedForGood(s, steps[..|steps| - 1], poll, id, job);
    }
  }

  /** Nothing but the stored fields of one job changes. */
  ghost predicate OnlyStores(s: System, t: System, id: nat, job: Job) {
    && t.jobs.Keys == s.jobs.Keys && (forall i | i in s.jobs && i != id :: t.jobs[i] == s.jobs[i])
    && (id in s.jobs ==>
          t.jobs[id] == s.jobs[id].(job := s.jobs[id].job.(phase := job.phase, error := job.error, output := job.output)))
    && t.workers == s.workers && t.spool == s.spool && t.verdicts == s.verdicts && t.saved == s.saved
  }

  /**
   * A poll that copied a queued job and finds a verdict answers with it, whatever
   * happens between its read and its write; if the job is still retained then,
   * the table has the same phase, error and output.
   */
  lemma VerdictIsReported(steps: seq<Step>, poll: nat, id: nat, job: Job, between: seq<Step>)
    requires var s := Run(IDLE, steps);
             poll in s.polls && s.polls[poll] == Holding(id, job) && job.phase == Queued && id in s.verdicts
    ensures var s := Run(IDLE, steps);
            var u := Run(Apply(s, PollReads(poll)), between);
            var t := Apply(u, PollStores(poll));
            && poll in t.polls && t.polls[poll].Answered? && t.polls[poll].id == id
            && Reports(t.polls[poll].job, job, s.verdicts[id])
            && (u.polls[poll].Storing? ==> OnlyStores(u, t, id, t.polls[poll].job))
  {
    var s := Run(IDLE, steps);
    var found := Settled(job, s.verdicts[id]);
    DecidedForGood(Apply(s, PollReads(poll)), between, poll, id, found);
    var u := Run(Apply(s, PollReads(poll)), between);
    assert Apply(u, PollStores(poll)).polls[poll] == Answered(id, found);
  }

  /** A poll that finds no verdict, or a job that is not queued, answers with its copy. */
  lemma CopyIsReported(s: System, poll: nat, id: nat, job: Job)
    requires poll in s.polls && s.polls[poll] == Holding(id, job) && (job.phase != Queued || id !in s.verdicts)
    ensures Apply(s, PollReads(poll)) == s.(polls := s.polls[poll := Answered(id, job)])
  {
  }

  /** From a queued job with a verdict, three steps of a new poll are enough, and no other poll is needed. */
  lemma PollSettlesTheJob(s: System, poll: nat, id: nat)
    requires poll !in s.polls && id in s.jobs && s.jobs[id].job.phase == Queued && id in s.verdicts
    ensures var t := Apply(Apply(Apply(s, PollCopies(poll, id)), PollReads(poll)), PollStores(poll));
            && poll in t.polls && t.polls[poll].Answered? && t.polls[poll].id == id && id in t.jobs
            && Reports(t.polls[poll].job, s.jobs[id].job, s.verdicts[id]) && t.jobs[id].job == t.polls[poll].job
  {
    var a := Apply(s, PollCopies(poll, id));
    assert a.polls[poll] == Holding(id, s.jobs[id].job);
    var b := Apply(a, PollReads(poll));
    assert b.polls[poll] == Storing(id, Settled(s.jobs[id].job, s.verdicts[id]));
    assert b.jobs == s.jobs;
  }

  // ---- What a worker notes ----

  /** A save that failed is noted on the job and only there, and the action goes on. */
  lemma FailedSaveIsNoted(s: System, id: nat, why: string)
    requires id in s.workers && s.workers[id].stage == SavingWorld && id in s.jobs
    ensures var t := Apply(Apply(s, SaveReturns(id, Some(why))), RecordSave(id));
            && t.workers == s.workers[id := Worker(s.workers[id].action, Ready)] && t.saved == s.saved + {id}
            && t.jobs == s.jobs[id := s.jobs[id].(job := s.jobs[id].job.(saveError := Some(why)))]
            && t.spool == s.spool && t.verdicts == s.verdicts && t.polls == s.polls
  {
    assert Apply(s, SaveReturns(id, Some(why))).workers[id].stage == Recording(why);
  }

  /** What could not be spooled has failed, saying so; what could is queued. */
  lemma RequestIsNoted(s: System, id: nat, ok: bool)
    requires id in s.workers && s.workers[id].stage == Ready && id in s.jobs
    ensures var t := Apply(Apply(s, Request(id, ok)), RecordRequest(id));
            var job := s.jobs[id].job;
            && t.spool == (if ok then s.spool + {id} else s.spool) && t.workers[id].stage == Finished(ok)
            && t.jobs == s.jobs[id := s.jobs[id].(job :=
                 if ok then job.(phase := Queued) else job.(phase := Failed, error := Some("Server control is unavailable")))]
            && t.verdicts == s.verdicts && t.polls == s.polls
  {
    assert Apply(s, Request(id, ok)).workers[id].stage == Requested(ok);
  }

  /** The sidecar writes one verdict for what is spooled, and none for anything else. */
  lemma OneVerdictEach(s: System, id: nat, verdict: Verdict)
    ensures Apply(s, SidecarRuns(id, verdict))
            == if id in s.spool && id !in s.verdicts then s.(verdicts := s.verdicts[id := verdict]) else s
  {
  }

  /** The half hour a job is kept counts from its opening, and ends when the next one is opened. */
  lemma JobsExpire(s: System, id: nat, later: int, other: nat, action: Action)
    requires id in s.jobs && later >= s.now && other !in s.workers && other != id
    ensures var t := Apply(Apply(s, Clock(later)), OpenJob(other, action));
            && (id in t.jobs <==> later < s.jobs[id].started + 1800) && (id in t.jobs ==> t.jobs[id] == s.jobs[id])
            && other in t.jobs && t.jobs[other].started == later && t.now == later
            && t.jobs[other].job == Job(action, if action == StartServer then Queued else Saving, None, None, None)
            && t.workers == s.workers[other := Worker(action, if action == StartServer then Ready else SavingWorld)]
  {
  }

  // ---- Errors and outputs are the sidecar's ----

  /** A job's error and output, and the phases that go with them. */
  ghost predicate Told(s: System, id: nat, job: Job) {
    && id in s.workers
    && (job.output.Some? ==> id in s.verdicts && job.output.value == s.verdicts[id].output)
    && (job.error.Some? ==>
          || (s.workers[id].stage == Finished(false) && job.error.value == "Server control is unavailable")
          || (id in s.verdicts && s.verdicts[id].code != 0 && job.error.value == FailureText(s.verdicts[id])))
    && (job.phase == Failed ==> job.error.Some? && (job.output.Some? || s.workers[id].stage == Finished(false)))
    && (job.phase == Done ==> job.output.Some? && job.error.None?)
  }

  ghost predicate AllTold(s: System) {
    && (forall id | id in s.jobs :: Told(s, id, s.jobs[id].job))
    && (forall p | p in s.polls :: Told(s, s.polls[p].id, s.polls[p].job))
  }

  /** Verdicts stay, and so does a worker that could not spool. */
  ghost predicate Grown(s: System, t: System) {
    && (forall id | id in s.verdicts :: id in t.verdicts && t.verdicts[id] == s.verdicts[id])
    && (forall id | id in s.workers ::
          id in t.workers && (s.workers[id].stage == Finished(false) ==> t.workers[id].stage == Finished(false)))
  }

  lemma Grows(s: System, step: Step)
    ensures Grown(s, Apply(s, step))
  {
  }

  lemma ToldStays(s: System, t: System, id: nat, job: Job)
    requires Told(s, id, job) && Grown(s, t)
    ensures Told(t, id, job)
  {
  }

  /** Every job after a step is one of before, as it was, or the one the step is about. */
  lemma JobStaysTold(s: System, step: Step, id: nat)
    requires Inv(s) && AllTold(s) && id in Apply(s, step).jobs
    requires id in s.jobs ==> !(step == RecordRequest(id) && s.workers[id].stage.Requested?)
    ensures Told(Apply(s, step), id, Apply(s, step).jobs[id].job)
  {
    var t := Apply(s, step);
    Grows(s, step);
    if id in s.jobs { ToldStays(s, t, id, s.jobs[id].job); }
    if step.PollStores? && step.poll in s.polls { ToldStays(s, t, s.polls[step.poll].id, s.polls[step.poll].job); }
  }

  lemma RequestedIsTold(s: System, id: nat)
    requires Inv(s) && AllTold(s) && id in s.jobs && s.workers[id].stage.Requested?
    ensures var t := Apply(s, RecordRequest(id)); id in t.jobs && Told(t, id, t.jobs[id].job)
  {
    assert WorkerInv(s, id);
    Grows(s, RecordRequest(id));
    ToldStays(s, Apply(s, RecordRequest(id)), id, s.jobs[id].job);
  }

  lemma PollStaysTold(s: System, step: Step, p: nat)
    requires Inv(s) && AllTold(s) && p in Apply(s, step).polls
    ensures Told(Apply(s, step), Apply(s, step).polls[p].id, Apply(s, step).polls[p].job)
  {
    var t := Apply(s, step);
    Grows(s, step);
    if p in s.polls {
      assert PollInv(s, s.polls[p]) && WorkerInv(s, s.polls[p].id);
      ToldStays(s, t, s.polls[p].id, s.polls[p].job);
    } else {
      ToldStays(s, t, step.id, s.jobs[step.id].job);
    }
  }

  lemma StepKeepsTold(s: System, step: Step)
    requires Inv(s) && AllTold(s)
    ensures AllTold(Apply(s, step))
  {
    var t := Apply(s, step);
    forall id | id in t.jobs ensures Told(t, id, t.jobs[id].job) {
      if id in s.jobs && step == RecordRequest(id) && s.workers[id].stage.Requested? {
        RequestedIsTold(s, id);
      } else {
        JobStaysTold(s, step, id);
      }
    }
    forall p | p in t.polls ensures Told(t, t.polls[p].id, t.polls[p].job) {
      PollStaysTold(s, step, p);
    }
  }

  lemma {:induction false} RunKeepsTold(steps: seq<Step>)
    ensures AllTold(Run(IDLE, steps))
    decreases |steps|
  {
    if steps != [] {
      RunKeepsTold(steps[..|steps| - 1]);
      RunKeepsInv(steps[..|steps| - 1]);
      StepKeepsTold(Run(IDLE, steps[..|steps| - 1]), steps[|steps| - 1]);
    }
  }

  /**
   * In every run an answer of `done` comes with the sidecar's output and no error,
   * and one of `failed` with the error: the sidecar's, for a verdict other than
   * zero, or that it could not be reached.
   */
  lemma AnswersAreTheSidecars(steps: seq<Step>, poll: nat)
    requires poll in Run(IDLE, steps).polls && Run(IDLE, steps).polls[poll].Answered?
    ensures var s := Run(IDLE, steps);
            var a := s.polls[poll];
            && (a.job.phase == Done ==>
                  a.id in s.verdicts && s.verdicts[a.id].code == 0
                  && a.job.output == Some(s.verdicts[a.id].output) && a.job.error == None)
            && (a.job.phase == Failed ==>
                  || (a.id in s.verdicts && s.verdicts[a.id].code != 0 && a.job.output == Some(s.verdicts[a.id].output)
                      && a.job.error == Some(FailureText(s.verdicts[a.id])))
                  || (a.id !in s.verdicts && a.job.error == Some("Server control is unavailable")))
  {
    RunKeepsTold(steps);
    RunKeepsInv(steps);
    var s := Run(IDLE, steps);
    assert PollInv(s, s.polls[poll]) && WorkerInv(s, s.polls[poll].id);
    assert Told(s, s.polls[poll].id, s.polls[poll].job);
  }
}
