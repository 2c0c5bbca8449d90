/** Every interleaving of the job manager's atomic steps with any number of event streams. */
module AdminJobRuns {
  import opened Basics
  import opened Text
  import opened AdminJobs

  /** Why a stream stopped: its job is no longer in the table, it sent a terminal snapshot,
      or the client went away. */
  datatype Ending = Gone | Final | Disconnected

  datatype Phase = Ready | Blocked(channel: nat) | Ended(ending: Ending)

  /** One request to the event endpoint: the job it follows, the revision it asked to continue from, the revision it
      has reached, and the snapshots it has sent. */
  datatype Stream = Stream(id: string, after: nat, revision: nat, phase: Phase, sent: seq<Job>)

  datatype System = System(table: Table, streams: seq<Stream>)

  datatype Step =
    | StartJob(kind: string, session: string, now: int)
    | Begin(id: string, now: int)
    | Report(id: string, progress: Payload, now: int)
    | Complete(id: string, status: Status, result: Payload, error: string, now: int)
    | CancelJob(rawID: string, now: int)
    | Subscribe(rawID: string, after: nat)
    | Look(stream: nat)
    | Wake(stream: nat)
    | Disconnect(stream: nat)

  const BeginReport: Payload := map["status" := Words("running"), "started" := Flag(true)]

  /** Effect of a step on the job table.  A worker finishes only with a terminal status. */
  function TableStep(cfg: Config, t: Table, step: Step): Table {
    match step
    case StartJob(kind, session, now) => Start(cfg, t, kind, session, now).0
    case Begin(id, now) => Update(cfg, t, id, Some(Running), BeginReport, now)
    case Report(id, progress, now) => Update(cfg, t, id, Some(Running), progress, now)
    case Complete(id, status, result, error, now) =>
      if Terminal(status) then Finish(cfg, t, id, status, result, error, now) else t
    case CancelJob(rawID, now) => Cancel(t, rawID, now)
    case _ => t
  }

  /** One pass of the stream's loop up to its `select`. */
  function LookAt(t: Table, s: Stream): Stream {
    var seen := Observe(t, s.id, s.revision);
    if seen.None? then s.(phase := Ended(Gone))
    else if seen.value.0.None? then s.(phase := Blocked(seen.value.1))
    else
      var job := seen.value.0.value;
      s.(sent := s.sent + [job], revision := job.revision,
         phase := if Terminal(job.status) then Ended(Final) else Ready)
  }

  function StreamsStep(t: Table, streams: seq<Stream>, step: Step): seq<Stream> {
    match step
    case Subscribe(rawID, after) =>
      var id := Trim(rawID);
      if id == "" || Observe(t, id, after).None? then streams
      else streams + [Stream(id, after, after, Ready, [])]
    case Look(i) =>
      if i < |streams| && streams[i].phase.Ready? then streams[i := LookAt(t, streams[i])] else streams
    case Wake(i) =>
      if i < |streams| && streams[i].phase.Blocked? && streams[i].phase.channel in t.closed
      then streams[i := streams[i].(phase := Ready)] else streams
    case Disconnect(i) =>
      if i < |streams| && !streams[i].phase.Ended?
      then streams[i := streams[i].(phase := Ended(Disconnected))] else streams
    case _ => streams
  }

  function Apply(cfg: Config, s: System, step: Step): System {
    System(TableStep(cfg, s.table, step), StreamsStep(s.table, s.streams, step))
  }

  function Run(cfg: Config, s: System, steps: seq<Step>): System {
    if steps == [] then s
    else Apply(cfg, Run(cfg, s, steps[..|steps| - 1]), steps[|steps| - 1])
  }

  // ---------- How tables evolve ----------

  /** A later record of the same job: identical, or of a higher revision with the
      old channel closed, which only a job that was live can have. */
  predicate Later(t: Table, u: Table, id: string)
    requires id in t.jobs && id in u.jobs
  {
    var (was, now) := (t.jobs[id], u.jobs[id]);
    now == was
    || (!Terminal(was.status) && now.revision > was.revision && was.changed in u.closed
        && now.kind == was.kind && now.session == was.session)
  }

  ghost predicate Evolves(t: Table, u: Table) {
    && t.nextID <= u.nextID && t.closed <= u.closed
    && (forall id :: id in u.jobs && id !in t.jobs ==> Serial(id) > t.nextID)
    && (forall id :: id in t.jobs && id in u.jobs ==> Later(t, u, id))
    && (forall id :: id in t.jobs && id !in u.jobs ==>
          Terminal(t.jobs[id].status) || t.jobs[id].changed in u.closed)
  }

  lemma PublishEvolves(cfg: Config, t: Table, job: Job)
    requires Live(t, job.id)
    requires job.revision == t.jobs[job.id].revision && job.changed == t.jobs[job.id].changed
    requires job.kind == t.jobs[job.id].kind && job.session == t.jobs[job.id].session
    ensures Evolves(t, Publish(t, job))
  {
    hide Serial;
    assert Publish(t, job).jobs.Keys == t.jobs.Keys;
  }

  lemma InsertedEvolves(cfg: Config, t: Table, kind: string, session: string, now: int)
    requires var (u, id) := Inserted(cfg, t, kind, session, now);
             id !in t.jobs && Serial(id) == t.nextID + 1
    ensures Evolves(t, Inserted(cfg, t, kind, session, now).0)
  {
    hide JobID, Serial, NewJob;
  }

  lemma PruneEvolves(t: Table)
    requires Distinct(t.order) && Elements(t.order) == t.jobs.Keys
    ensures Evolves(t, Prune(t))
  {
    hide KeptOrder, Serial;
    PruneKeepsLive(t);
    forall id | id in t.jobs && id !in Prune(t).jobs ensures Terminal(t.jobs[id].status) {
      assert Live(t, id) <==> Live(Prune(t), id);
    }
  }

  lemma StartEvolves(cfg: Config, t: Table, kind: string, session: string, now: int)
    requires Inv(cfg, t)
    ensures Evolves(t, Start(cfg, t, kind, session, now).0)
  {
    hide Prune, Serial, Trim, FindReusable, Inserted, Inv;
    var (k, s) := (Trim(kind), Trim(session));
    TrimIsTrimmed(kind);
    TrimIsTrimmed(session);
    if FindReusable(cfg, t, k, s, |t.order|).None? {
      var u := Inserted(cfg, t, k, s, now).0;
      InsertedKeepsInv(cfg, t, k, s, now);
      InsertedEvolves(cfg, t, k, s, now);
      OrderCovers(cfg, u);
      PruneEvolves(u);
      hide Evolves;
      EvolvesTransitive(cfg, t, u, Prune(u));
    }
  }

  lemma OrderCovers(cfg: Config, t: Table)
    requires Inv(cfg, t)
    ensures Distinct(t.order) && Elements(t.order) == t.jobs.Keys
  {
  }

  /** Each step keeps the table invariant, and the table only evolves. */
  lemma {:induction false} StepEvolves(cfg: Config, t: Table, step: Step)
    requires Inv(cfg, t)
    ensures Inv(cfg, TableStep(cfg, t, step)) && Evolves(t, TableStep(cfg, t, step))
  {
    hide Trim, Start, Inv, Serial;
    match step {
      case StartJob(kind, session, now) =>
        StartKeepsInv(cfg, t, kind, session, now);
        StartEvolves(cfg, t, kind, session, now);
      case Begin(id, now) => UpdateEvolves(cfg, t, id, BeginReport, now);
      case Report(id, progress, now) => UpdateEvolves(cfg, t, id, progress, now);
      case Complete(id, status, result, error, now) =>
        if Terminal(status) {
          FinishEvolves(cfg, t, id, status, result, error, now);
        }
      case CancelJob(rawID, now) => CancelEvolves(cfg, t, rawID, now);
      case _ =>
    }
  }

  /** What a worker's steps record of its live job; on another job they have no effect. */
  lemma {:induction false} WorkerSteps(cfg: Config, t: Table, id: string, report: Payload, status: Status,
                                       result: Payload, error: string, now: int)
    requires Inv(cfg, t)
    ensures var (begun, reported, done) :=
              (TableStep(cfg, t, Begin(id, now)), TableStep(cfg, t, Report(id, report, now)),
               TableStep(cfg, t, Complete(id, status, result, error, now)));
            if !Live(t, id) then begun == t && reported == t && done == t
            else
              && Published(t, begun, id) && begun.jobs[id].status == Running
              && "status" in begun.jobs[id].progress && begun.jobs[id].progress["status"] == Words("running")
              && Published(t, reported, id) && reported.jobs[id].status == Running
              && (forall k :: k in report ==>
                    k in reported.jobs[id].progress && reported.jobs[id].progress[k] == report[k])
              && (Terminal(status) ==>
                    && Published(t, done, id)
                    && (done.jobs[id].status, done.jobs[id].result) == (status, result)
                    && done.jobs[id].error == Trim(error))
              && (!Terminal(status) ==> done == t)
  {
    hide Trim, Serial, Update, Finish, Published;
    if id in t.jobs {
      assert JobInv(t, id, t.jobs[id]);
      UpdateRecords(cfg, t, id, Some(Running), BeginReport, now);
      UpdateRecords(cfg, t, id, Some(Running), report, now);
      FinishRecords(cfg, t, id, status, result, error, now);
      assert "status" in BeginReport;
    } else {
      NothingRecorded(cfg, t, id, report, status, result, error, now);
      NothingRecorded(cfg, t, id, BeginReport, status, result, error, now);
    }
  }

  lemma NothingRecorded(cfg: Config, t: Table, id: string, report: Payload, status: Status, result: Payload,
                        error: string, now: int)
    requires id !in t.jobs
    ensures Update(cfg, t, id, Some(Running), report, now) == t && Finish(cfg, t, id, status, result, error, now) == t
  {
  }

  /** Starting leaves a live job for the kind and session in the table. */
  lemma StartStep(cfg: Config, t: Table, kind: string, session: string, now: int)
    requires Inv(cfg, t)
    ensures var u := TableStep(cfg, t, StartJob(kind, session, now));
            exists id :: Live(u, id) && HasKey(cfg, u.jobs[id], Trim(kind), Trim(session))
  {
    hide Start, Trim, Inv;
    StartKeepsInv(cfg, t, kind, session, now);
    var (u, id) := Start(cfg, t, kind, session, now);
    assert u == TableStep(cfg, t, StartJob(kind, session, now));
    assert Live(u, id) && HasKey(cfg, u.jobs[id], Trim(kind), Trim(session));
  }

  predicate HasKey(cfg: Config, job: Job, kind: string, session: string) {
    cfg.fold(job.kind) == cfg.fold(kind) && job.session == session
  }

  lemma {:induction false} UpdateEvolves(cfg: Config, t: Table, id: string, progress: Payload, now: int)
    requires Inv(cfg, t)
    ensures var u := Update(cfg, t, id, Some(Running), progress, now); Inv(cfg, u) && Evolves(t, u)
  {
    hide Trim, Serial, MergeProgress;
    if Updatable(t, id) {
      assert JobInv(t, id, t.jobs[id]);
      var job := t.jobs[id].(status := Running, updatedAt := now,
                             progress := MergeProgress(cfg, t.jobs[id].progress, progress));
      PublishKeepsInv(cfg, t, job);
      PublishEvolves(cfg, t, job);
    }
  }

  lemma {:induction false} FinishEvolves(cfg: Config, t: Table, id: string, status: Status, result: Payload,
                                         error: string, now: int)
    requires Inv(cfg, t) && Terminal(status)
    ensures var u := Finish(cfg, t, id, status, result, error, now); Inv(cfg, u) && Evolves(t, u)
  {
    hide Trim, Serial, FinishProgress;
    if Updatable(t, id) {
      assert JobInv(t, id, t.jobs[id]);
      var job := t.jobs[id].(status := status, updatedAt := now, finishedAt := Some(now), result := result,
                             error := Trim(error), cancel := false,
                             progress := FinishProgress(cfg, t.jobs[id].progress, status, Trim(error), now));
      PublishKeepsInv(cfg, t, job);
      PublishEvolves(cfg, t, job);
    }
  }

  lemma {:induction false} CancelEvolves(cfg: Config, t: Table, rawID: string, now: int)
    requires Inv(cfg, t)
    ensures var u := Cancel(t, rawID, now); Inv(cfg, u) && Evolves(t, u)
  {
    hide Trim, Serial, CancelProgress;
    var id := Trim(rawID);
    if Updatable(t, id) {
      assert JobInv(t, id, t.jobs[id]);
      var job := t.jobs[id].(status := Cancelled, updatedAt := now, finishedAt := Some(now),
                             error := "context canceled", cancel := false,
                             progress := CancelProgress(t.jobs[id].progress, now));
      PublishKeepsInv(cfg, t, job);
      PublishEvolves(cfg, t, job);
    }
  }

  lemma EvolvesTransitive(cfg: Config, t: Table, u: Table, v: Table)
    requires Inv(cfg, t) && Evolves(t, u) && Evolves(u, v)
    ensures Evolves(t, v)
  {
    hide Serial, Trim;
    forall id | id in t.jobs && id in v.jobs ensures Later(t, v, id) {
      assert JobInv(t, id, t.jobs[id]);
      assert id in u.jobs;
    }
    forall id | id in t.jobs && id !in v.jobs
      ensures Terminal(t.jobs[id].status) || t.jobs[id].changed in v.closed
    {
      if id in u.jobs {
        assert Later(t, u, id);
      }
    }
  }

  /** Over any run the table invariant holds and the table only evolves. */
  lemma {:induction false} RunEvolves(cfg: Config, s: System, steps: seq<Step>)
    requires Inv(cfg, s.table)
    ensures Inv(cfg, Run(cfg, s, steps).table) && Evolves(s.table, Run(cfg, s, steps).table)
  {
    hide Inv, TableStep, Serial;
    if steps != [] {
      var before := Run(cfg, s, steps[..|steps| - 1]);
      RunEvolves(cfg, s, steps[..|steps| - 1]);
      StepEvolves(cfg, before.table, steps[|steps| - 1]);
      EvolvesTransitive(cfg, s.table, before.table, Run(cfg, s, steps).table);
    }
  }

  lemma EmptyTableInv(cfg: Config)
    ensures Inv(cfg, EmptyTable)
  {
  }

  /** In every reachable state at most one live job exists per folded kind and session. */
  lemma {:induction false} AtMostOneLiveJob(cfg: Config, steps: seq<Step>, a: string, b: string)
    requires var t := Run(cfg, System(EmptyTable, []), steps).table;
             Live(t, a) && Live(t, b) && SameKey(cfg, t.jobs[a], t.jobs[b])
    ensures a == b
  {
    EmptyTableInv(cfg);
    RunEvolves(cfg, System(EmptyTable, []), steps);
  }

  /** A terminal record never changes again: whatever runs later, it is there unchanged or it has been pruned. */
  lemma {:induction false} TerminalIsFinal(cfg: Config, s: System, steps: seq<Step>, id: string)
    requires Inv(cfg, s.table) && IsTerminal(s.table.jobs, id)
    ensures var u := Run(cfg, s, steps).table;
            id in u.jobs ==> u.jobs[id] == s.table.jobs[id]
  {
    RunEvolves(cfg, s, steps);
  }

  /** Cancelling a live job ends it: the record says cancelled, its context is to be cancelled,
      and no later report, finish or start can alter the record. */
  lemma {:induction false} CancelIsFinal(cfg: Config, s: System, rawID: string, now: int, steps: seq<Step>)
    requires Inv(cfg, s.table) && Live(s.table, Trim(rawID))
    ensures s.table.jobs[Trim(rawID)].cancel
    ensures var t := Apply(cfg, s, CancelJob(rawID, now)).table;
            && Trim(rawID) in t.jobs && t.jobs[Trim(rawID)].status == Cancelled
            && var u := Run(cfg, Apply(cfg, s, CancelJob(rawID, now)), steps).table;
               Trim(rawID) in u.jobs ==> u.jobs[Trim(rawID)] == t.jobs[Trim(rawID)]
  {
    hide Trim, Serial, CancelProgress;
    var id := Trim(rawID);
    assert JobInv(s.table, id, s.table.jobs[id]);
    StepEvolves(cfg, s.table, CancelJob(rawID, now));
    TerminalIsFinal(cfg, Apply(cfg, s, CancelJob(rawID, now)), steps, id);
  }

  // ---------- Streams ----------

  predicate Increasing(sent: seq<Job>) {
    forall i, j :: 0 <= i < j < |sent| ==> sent[i].revision < sent[j].revision
  }

  /** What holds of one stream in every reachable state. */
  ghost predicate StreamInv(t: Table, s: Stream) {
    && Trim(s.id) == s.id && Serial(s.id) <= t.nextID
    && Increasing(s.sent)
    && (forall i :: 0 <= i < |s.sent| - 1 ==> !Terminal(s.sent[i].status))
    && (forall i :: 0 <= i < |s.sent| ==> s.sent[i].id == s.id)
    && (s.phase == Ended(Final) <==> s.sent != [] && Terminal(s.sent[|s.sent| - 1].status))
    && (s.phase == Ended(Gone) ==> s.id !in t.jobs)
    && (s.sent == [] ==> s.revision == s.after)
    && (forall i :: 0 <= i < |s.sent| ==> s.sent[i].revision > s.after || Terminal(s.sent[i].status))
    && (s.sent != [] ==>
          var last := s.sent[|s.sent| - 1];
          && s.revision == last.revision
          && (s.id in t.jobs ==>
                t.jobs[s.id] == last || (t.jobs[s.id].revision > last.revision && !Terminal(last.status))))
    && (s.phase.Blocked? && s.phase.channel !in t.closed ==>
          && s.id in t.jobs && !Terminal(t.jobs[s.id].status)
          && t.jobs[s.id].revision <= s.revision && t.jobs[s.id].changed == s.phase.channel)
  }

  /** Nothing that happens to the table invalidates what a stream knows. */
  lemma EvolutionKeepsStream(cfg: Config, t: Table, u: Table, s: Stream)
    requires Inv(cfg, t) && Evolves(t, u) && StreamInv(t, s)
    ensures StreamInv(u, s)
  {
    hide Serial, Trim, Inv;
    if s.id in t.jobs && s.id in u.jobs {
      assert Later(t, u, s.id);
    }
  }

  lemma LookKeepsStream(cfg: Config, t: Table, s: Stream)
    requires Inv(cfg, t) && StreamInv(t, s) && s.phase.Ready?
    ensures StreamInv(t, LookAt(t, s))
  {
    hide Serial, Trim;
    if s.id in t.jobs {
      assert JobInv(t, s.id, t.jobs[s.id]);
    }
  }

  ghost predicate SystemInv(cfg: Config, s: System) {
    && Inv(cfg, s.table)
    && forall i :: 0 <= i < |s.streams| ==> StreamInv(s.table, s.streams[i])
  }

  lemma {:induction false} SubscribeKeepsStreams(cfg: Config, t: Table, rawID: string, after: nat)
    requires Inv(cfg, t) && Observe(t, Trim(rawID), after).Some?
    ensures StreamInv(t, Stream(Trim(rawID), after, after, Ready, []))
  {
    hide Serial;
    hide Trim;
    TrimIsTrimmed(rawID);
    assert JobInv(t, Trim(rawID), t.jobs[Trim(rawID)]);
  }

  lemma {:induction false} StreamsStepKeepsInv(cfg: Config, t: Table, streams: seq<Stream>, step: Step)
    requires SystemInv(cfg, System(t, streams))
    ensures SystemInv(cfg, System(t, StreamsStep(t, streams, step)))
  {
    hide Inv, Serial, Trim, LookAt, Observe;
    match step {
      case Subscribe(rawID, after) =>
        if Observe(t, Trim(rawID), after).Some? {
          SubscribeKeepsStreams(cfg, t, rawID, after);
        }
      case Look(i) =>
        if i < |streams| && streams[i].phase.Ready? {
          LookKeepsStream(cfg, t, streams[i]);
        }
      case _ =>
    }
  }

  lemma {:induction false} StepKeepsSystem(cfg: Config, s: System, step: Step)
    requires SystemInv(cfg, s)
    ensures SystemInv(cfg, Apply(cfg, s, step))
  {
    hide Inv, StreamInv, Evolves, TableStep, StreamsStep;
    StreamsStepKeepsInv(cfg, s.table, s.streams, step);
    StepEvolves(cfg, s.table, step);
    var streams := StreamsStep(s.table, s.streams, step);
    forall i | 0 <= i < |streams| ensures StreamInv(TableStep(cfg, s.table, step), streams[i]) {
      EvolutionKeepsStream(cfg, s.table, TableStep(cfg, s.table, step), streams[i]);
    }
  }

  lemma {:induction false} RunKeepsSystem(cfg: Config, s: System, steps: seq<Step>)
    requires SystemInv(cfg, s)
    ensures SystemInv(cfg, Run(cfg, s, steps))
  {
    hide SystemInv, Apply;
    if steps != [] {
      RunKeepsSystem(cfg, s, steps[..|steps| - 1]);
      StepKeepsSystem(cfg, Run(cfg, s, steps[..|steps| - 1]), steps[|steps| - 1]);
    }
  }

  lemma {:induction false} Reachable(cfg: Config, steps: seq<Step>)
    ensures SystemInv(cfg, Run(cfg, System(EmptyTable, []), steps))
  {
    EmptyTableInv(cfg);
    RunKeepsSystem(cfg, System(EmptyTable, []), steps);
  }

  /** The client of a stream has the table's record of the job, or asked to be told only of later revisions. */
  predicate UpToDate(t: Table, s: Stream) {
    && s.id in t.jobs
    && if s.sent != [] then s.sent[|s.sent| - 1] == t.jobs[s.id]
       else t.jobs[s.id].revision <= s.after && !Terminal(t.jobs[s.id].status)
  }

  /** In every interleaving, a stream waiting on an open channel follows a live job and its client is up to date. */
  lemma NoMissedPublication(cfg: Config, steps: seq<Step>, i: nat)
    requires var s := Run(cfg, System(EmptyTable, []), steps);
             i < |s.streams| && s.streams[i].phase.Blocked?
             && s.streams[i].phase.channel !in s.table.closed
    ensures var s := Run(cfg, System(EmptyTable, []), steps);
            Live(s.table, s.streams[i].id) && UpToDate(s.table, s.streams[i])
  {
    Reachable(cfg, steps);
  }

  /**
   * The revisions one stream sends strictly increase, from the one asked for on; only its last snapshot can be
   * terminal; and it has moved on from the revision asked for only by sending.
   */
  lemma RevisionsIncrease(cfg: Config, steps: seq<Step>, i: nat)
    requires i < |Run(cfg, System(EmptyTable, []), steps).streams|
    ensures var stream := Run(cfg, System(EmptyTable, []), steps).streams[i];
            && Increasing(stream.sent)
            && (forall j :: 0 <= j < |stream.sent| - 1 ==> !Terminal(stream.sent[j].status))
            && (forall j :: 0 <= j < |stream.sent| ==>
                  stream.sent[j].revision > stream.after || Terminal(stream.sent[j].status))
            && stream.revision ==
                 if stream.sent == [] then stream.after else stream.sent[|stream.sent| - 1].revision
  {
    Reachable(cfg, steps);
  }

  // ---------- What streams send, and when ----------

  /** One step leaves a stream's request alone and sends at most the record that the table holds. */
  predicate SendsRecord(t: Table, before: Stream, after: Stream) {
    && after.id == before.id && after.after == before.after
    && (after.sent == before.sent || (before.id in t.jobs && after.sent == before.sent + [t.jobs[before.id]]))
  }

  lemma {:induction false} StepSends(cfg: Config, s: System, step: Step)
    requires SystemInv(cfg, s)
    ensures var u := Apply(cfg, s, step);
            && |s.streams| <= |u.streams| <= |s.streams| + 1
            && (forall i :: 0 <= i < |s.streams| ==> SendsRecord(s.table, s.streams[i], u.streams[i]))
            && (|u.streams| > |s.streams| ==>
                  var added := u.streams[|s.streams|];
                  added.sent == [] && step.Subscribe? && Trim(step.rawID) == added.id && step.after == added.after)
  {
    hide Inv, Trim, TableStep;
    match step {
      case Look(i) =>
        if i < |s.streams| {
          assert StreamInv(s.table, s.streams[i]);
        }
      case _ =>
    }
  }

  /** A request for a job in the table opens a stream that starts from the revision asked for; others open none. */
  lemma SubscribeOpens(cfg: Config, s: System, rawID: string, after: nat)
    ensures Apply(cfg, s, Subscribe(rawID, after)).streams ==
              if Trim(rawID) != "" && Trim(rawID) in s.table.jobs
              then s.streams + [Stream(Trim(rawID), after, after, Ready, [])] else s.streams
  {
    TrimIsTrimmed(rawID);
    hide Trim;
  }

  /** The state before step `k` of a run from the start. */
  function Before(cfg: Config, steps: seq<Step>, k: nat): System
    requires k <= |steps|
  {
    Run(cfg, System(EmptyTable, []), steps[..k])
  }

  /** The run held this record of the job at some time. */
  ghost predicate Held(cfg: Config, steps: seq<Step>, id: string, job: Job) {
    exists k :: 0 <= k <= |steps| && id in Before(cfg, steps, k).table.jobs
                && Before(cfg, steps, k).table.jobs[id] == job
  }

  /** The run holds the request that opened a stream. */
  predicate Requested(steps: seq<Step>, s: Stream) {
    exists k :: 0 <= k < |steps| && steps[k].Subscribe? && Trim(steps[k].rawID) == s.id && steps[k].after == s.after
  }

  lemma HeldLonger(cfg: Config, steps: seq<Step>, id: string, job: Job)
    requires steps != [] && Held(cfg, steps[..|steps| - 1], id, job)
    ensures Held(cfg, steps, id, job)
  {
    hide Run;
    var front := steps[..|steps| - 1];
    var k :| 0 <= k <= |front| && id in Before(cfg, front, k).table.jobs && Before(cfg, front, k).table.jobs[id] == job;
    assert front[..k] == steps[..k];
    assert Before(cfg, steps, k) == Before(cfg, front, k);
  }

  /** Every stream of a run answers a request of the run, and everything it sent is a record that the table held. */
  lemma {:induction false} SnapshotsGenuine(cfg: Config, steps: seq<Step>, i: nat)
    requires i < |Run(cfg, System(EmptyTable, []), steps).streams|
    ensures var stream := Run(cfg, System(EmptyTable, []), steps).streams[i];
            && Requested(steps, stream)
            && forall j :: 0 <= j < |stream.sent| ==> Held(cfg, steps, stream.id, stream.sent[j])
  {
    hide Apply, Held, Trim, SystemInv;
    if steps != [] {
      var front := steps[..|steps| - 1];
      var before := Run(cfg, System(EmptyTable, []), front);
      var stream := Run(cfg, System(EmptyTable, []), steps).streams[i];
      Reachable(cfg, front);
      StepSends(cfg, before, steps[|steps| - 1]);
      if i < |before.streams| {
        SnapshotsGenuine(cfg, front, i);
        var k :| 0 <= k < |front| && front[k].Subscribe? && Trim(front[k].rawID) == stream.id
                 && front[k].after == stream.after;
        assert steps[k] == front[k];
        forall j | 0 <= j < |stream.sent| ensures Held(cfg, steps, stream.id, stream.sent[j]) {
          if j == |before.streams[i].sent| {
            HeldLast(cfg, steps, stream.id);
          } else {
            assert stream.sent[j] == before.streams[i].sent[j];
            HeldLonger(cfg, steps, stream.id, stream.sent[j]);
          }
        }
      } else {
        assert i == |before.streams|;
      }
    }
  }

  lemma HeldLast(cfg: Config, steps: seq<Step>, id: string)
    requires steps != [] && id in Run(cfg, System(EmptyTable, []), steps[..|steps| - 1]).table.jobs
    ensures Held(cfg, steps, id, Run(cfg, System(EmptyTable, []), steps[..|steps| - 1]).table.jobs[id])
  {
    hide Run;
    assert Before(cfg, steps, |steps| - 1) == Run(cfg, System(EmptyTable, []), steps[..|steps| - 1]);
  }

  /**
   * Delivery. In every reachable state two steps of its own bring a running stream up to date, or end it because its
   * job is gone.
   */
  lemma {:induction false} TwoStepsDeliver(cfg: Config, steps: seq<Step>, i: nat)
    requires var s := Run(cfg, System(EmptyTable, []), steps);
             i < |s.streams| && !s.streams[i].phase.Ended?
    ensures var u := Run(cfg, System(EmptyTable, []), steps + [Wake(i)] + [Look(i)]);
            && i < |u.streams|
            && if u.streams[i].id in u.table.jobs then UpToDate(u.table, u.streams[i])
               else u.streams[i].phase == Ended(Gone)
  {
    var s := Run(cfg, System(EmptyTable, []), steps);
    RunSnoc(cfg, steps, Wake(i));
    RunSnoc(cfg, steps + [Wake(i)], Look(i));
    Reachable(cfg, steps);
    hide Run, Inv, Trim, Serial, TableStep;
    assert StreamInv(s.table, s.streams[i]);
    DeliversHere(cfg, s, i);
  }

  lemma RunSnoc(cfg: Config, steps: seq<Step>, step: Step)
    ensures Run(cfg, System(EmptyTable, []), steps + [step]) ==
              Apply(cfg, Run(cfg, System(EmptyTable, []), steps), step)
  {
    hide Apply;
    assert (steps + [step])[..|steps|] == steps;
  }

  lemma DeliversHere(cfg: Config, s: System, i: nat)
    requires SystemInv(cfg, s) && i < |s.streams| && !s.streams[i].phase.Ended?
    ensures var u := Apply(cfg, Apply(cfg, s, Wake(i)), Look(i));
            && i < |u.streams|
            && if u.streams[i].id in u.table.jobs then UpToDate(u.table, u.streams[i])
               else u.streams[i].phase == Ended(Gone)
  {
    hide Inv, Serial, Trim;
    assert StreamInv(s.table, s.streams[i]);
  }

  /** A stream that ends by itself has either sent the terminal record, or its job is gone from the table. */
  lemma StreamEndings(cfg: Config, steps: seq<Step>, i: nat)
    requires i < |Run(cfg, System(EmptyTable, []), steps).streams|
    ensures var s := Run(cfg, System(EmptyTable, []), steps);
            var stream := s.streams[i];
            && (stream.phase == Ended(Final) <==> stream.sent != [] && Terminal(stream.sent[|stream.sent| - 1].status))
            && (stream.phase == Ended(Gone) ==> stream.id !in s.table.jobs)
  {
    Reachable(cfg, steps);
  }

  /** A stream that has ended, also one whose client went away, never changes again. */
  lemma {:induction false} EndedStays(cfg: Config, s: System, steps: seq<Step>, i: nat)
    requires i < |s.streams| && s.streams[i].phase.Ended?
    ensures i < |Run(cfg, s, steps).streams| && Run(cfg, s, steps).streams[i] == s.streams[i]
  {
    hide TableStep, Trim, Observe, LookAt;
    if steps != [] {
      EndedStays(cfg, s, steps[..|steps| - 1], i);
    }
  }

  /** When the client goes away nothing more is sent, whatever runs later. */
  lemma {:induction false} DisconnectedIsSilent(cfg: Config, s: System, i: nat, steps: seq<Step>)
    requires i < |s.streams|
    ensures var u := Run(cfg, Apply(cfg, s, Disconnect(i)), steps);
            i < |u.streams| && u.streams[i].sent == s.streams[i].sent && u.streams[i].phase.Ended?
  {
    hide TableStep, Run;
    EndedStays(cfg, Apply(cfg, s, Disconnect(i)), steps, i);
  }

  /** A terminal snapshot on a stream is the job's last word: the table never holds another record for it. */
  lemma {:induction false} FinalSnapshotIsLast(cfg: Config, steps: seq<Step>, more: seq<Step>, i: nat)
    requires var s := Run(cfg, System(EmptyTable, []), steps);
             i < |s.streams| && s.streams[i].phase == Ended(Final)
    ensures var s := Run(cfg, System(EmptyTable, []), steps);
            var stream := s.streams[i];
            var u := Run(cfg, s, more).table;
            stream.sent != [] && (stream.id in u.jobs ==> u.jobs[stream.id] == stream.sent[|stream.sent| - 1])
  {
    var s := Run(cfg, System(EmptyTable, []), steps);
    Reachable(cfg, steps);
    RunEvolves(cfg, s, more);
    EvolutionKeepsStream(cfg, s.table, Run(cfg, s, more).table, s.streams[i]);
  }
}
