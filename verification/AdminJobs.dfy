/** The background-job manager: a table of jobs that the lock protects, with reuse of
    a live job, cancellation, pruning, a revision per job, and a change channel that
    every publication closes and replaces. */
module AdminJobs {
  import opened Basics
  import opened Text

  datatype Status =
    | Queued | Running | Cancelling
    | Completed | Deferred | PartialError | Failed | Cancelled

  predicate Terminal(s: Status) {
    s.Completed? || s.Deferred? || s.PartialError? || s.Failed? || s.Cancelled?
  }

  function StatusText(s: Status): string {
    match s
    case Queued => "queued"
    case Running => "running"
    case Cancelling => "cancelling"
    case Completed => "completed"
    case Deferred => "deferred"
    case PartialError => "partial_error"
    case Failed => "failed"
    case Cancelled => "cancelled"
  }

  /** A value in a progress or result map. */
  datatype Any = Nil | Flag(b: bool) | Int(n: int) | Words(s: string) | Time(t: int) | Opaque(tag: int)

  type Payload = map<string, Any>

  /** A job record.  `changed` names its current change channel; `cancel` says whether
      the record still holds the function that cancels the worker's context. */
  datatype Job = Job(
    id: string, kind: string, session: string, status: Status,
    progress: Payload, result: Payload, error: string,
    startedAt: int, updatedAt: int, finishedAt: Option<int>,
    revision: nat, changed: nat, cancel: bool)

  /** Everything the lock protects, and the channels closed so far. */
  datatype Table = Table(
    jobs: map<string, Job>, order: seq<string>, nextID: nat, maxJobs: int,
    closed: set<nat>, channels: nat)

  /** Library functions that stay abstract: case folding, lower-casing, and reading a number. */
  datatype Config = Config(fold: string -> string, lower: string -> string, intOf: Any -> int)

  const DEFAULT_MAX_JOBS := 80

  const EmptyTable := Table(map[], [], 0, DEFAULT_MAX_JOBS, {}, 0)

  // ---------- Job ids ----------

  function JobID(kind: string, nanos: int, serial: nat): string {
    kind + "-" + DecimalInt(nanos) + "-" + Pad6(serial)
  }

  /** The digits after the last dash of an id. */
  function SerialDigits(id: string): (s: string)
    ensures Digits(s)
  {
    if id == "" || !IsDigit(id[|id| - 1]) then ""
    else SerialDigits(id[..|id| - 1]) + [id[|id| - 1]]
  }

  /** The serial number an id was made from. */
  function Serial(id: string): nat {
    DigitsValue(SerialDigits(id))
  }

  lemma {:induction false} SerialDigitsOf(prefix: string, digits: string)
    requires Digits(digits)
    ensures SerialDigits(prefix + "-" + digits) == digits
  {
    var id := prefix + "-" + digits;
    if digits == "" {
      assert id[|id| - 1] == '-';
    } else {
      var d := digits[..|digits| - 1];
      assert id[|id| - 1] == digits[|digits| - 1];
      assert digits[|digits| - 1] in digits;
      assert id[..|id| - 1] == prefix + "-" + d;
      SerialDigitsOf(prefix, d);
      assert digits == d + [digits[|digits| - 1]];
    }
  }

  /** Ids made from different serial numbers differ, whatever the kind and the clock were. */
  lemma SerialOfJobID(kind: string, nanos: int, serial: nat)
    ensures Serial(JobID(kind, nanos, serial)) == serial
  {
    SerialDigitsOf(kind + "-" + DecimalInt(nanos), Pad6(serial));
    Pad6Value(serial);
  }

  // ---------- The operations as functions of the table ----------

  function WordsOf(p: Payload, key: string): string {
    if key in p && p[key].Words? then Trim(p[key].s) else ""
  }

  const TOTAL_KEYS: seq<string> := ["candidate_count", "total_candidates", "total"]

  /** How a report changes the progress map. */
  function MergeProgress(cfg: Config, before: Payload, report: Payload): Payload {
    var stage := WordsOf(report, "stage");
    var noTotal := TOTAL_KEYS[0] !in report && TOTAL_KEYS[1] !in report && TOTAL_KEYS[2] !in report;
    var reset :=
      if stage != "" && stage != WordsOf(before, "stage") && "display_total" !in report && noTotal
      then before["display_total" := Int(0)] else before;
    var merged := reset + report;
    if "display_total" in report || noTotal then merged
    else
      var key := if TOTAL_KEYS[0] in report then TOTAL_KEYS[0]
                 else if TOTAL_KEYS[1] in report then TOTAL_KEYS[1] else TOTAL_KEYS[2];
      merged["display_total" := Int(cfg.intOf(report[key]))]
  }

  function NilIfEmpty(s: string): Any {
    if Trim(s) == "" then Nil else Words(s)
  }

  function FinishProgress(cfg: Config, before: Payload, status: Status, error: string, now: int): Payload {
    var p := before["status" := Words(StatusText(status))]["done" := Flag(status == Completed)]
                   ["error" := NilIfEmpty(error)]["finished_at" := Time(now)];
    var q := if "progress_percent" in p then p else p["progress_percent" := Int(100)];
    if status == Completed then q["progress_percent" := Int(100)]
    else if status == Deferred && cfg.intOf(q["progress_percent"]) >= 100 then q["progress_percent" := Int(99)]
    else q
  }

  function CancelProgress(before: Payload, now: int): Payload {
    before["status" := Words("cancelled")]["done" := Flag(false)]
          ["error" := Words("context canceled")]["finished_at" := Time(now)]
  }

  /** `publishChangeLocked`: a new revision, the old channel closed, a new one in its place. */
  function Publish(t: Table, job: Job): Table {
    t.(jobs := t.jobs[job.id := job.(revision := job.revision + 1, changed := t.channels)],
       closed := t.closed + {job.changed}, channels := t.channels + 1)
  }

  predicate Updatable(t: Table, id: string) {
    id in t.jobs && !Terminal(t.jobs[id].status)
  }

  function Update(cfg: Config, t: Table, id: string, status: Option<Status>, report: Payload, now: int): Table {
    if !Updatable(t, id) then t
    else
      var job := t.jobs[id];
      Publish(t, job.(status := if status.Some? then status.value else job.status,
                      progress := MergeProgress(cfg, job.progress, report), updatedAt := now))
  }

  function Finish(cfg: Config, t: Table, id: string, status: Status, result: Payload, error: string, now: int): Table {
    if !Updatable(t, id) then t
    else
      var job := t.jobs[id];
      Publish(t, job.(status := status, updatedAt := now, finishedAt := Some(now), result := result,
                      error := Trim(error), cancel := false,
                      progress := FinishProgress(cfg, job.progress, status, Trim(error), now)))
  }

  function Cancel(t: Table, rawID: string, now: int): Table {
    if !Updatable(t, Trim(rawID)) then t
    else
      var job := t.jobs[Trim(rawID)];
      Publish(t, job.(status := Cancelled, updatedAt := now, finishedAt := Some(now),
                      error := "context canceled", cancel := false,
                      progress := CancelProgress(job.progress, now)))
  }

  /** What a subscriber at revision `after` sees: nothing if the job is unknown, else
      a snapshot if there is news, and the channel to wait on. */
  function Observe(t: Table, rawID: string, after: nat): Option<(Option<Job>, nat)> {
    var id := Trim(rawID);
    if id !in t.jobs then None
    else
      var job := t.jobs[id];
      Some((if job.revision > after || Terminal(job.status) then Some(job) else None, job.changed))
  }

  /** A job of this kind and session that `start` reuses instead of starting another. */
  predicate Reusable(cfg: Config, job: Job, kind: string, session: string) {
    && cfg.fold(Trim(job.kind)) == cfg.fold(kind)
    && Trim(job.session) == session
    && (job.status.Queued? || job.status.Running? || job.status.Cancelling?)
  }

  /** The newest reusable job among the first `n` of the order list. */
  function FindReusable(cfg: Config, t: Table, kind: string, session: string, n: nat): (r: Option<string>)
    requires n <= |t.order|
    ensures r.Some? ==> r.value in t.jobs && Reusable(cfg, t.jobs[r.value], kind, session)
    ensures r.None? ==> forall i :: 0 <= i < n && t.order[i] in t.jobs ==>
                          !Reusable(cfg, t.jobs[t.order[i]], kind, session)
  {
    if n == 0 then None
    else if t.order[n - 1] in t.jobs && Reusable(cfg, t.jobs[t.order[n - 1]], kind, session)
    then Some(t.order[n - 1])
    else FindReusable(cfg, t, kind, session, n - 1)
  }

  const InitialProgress: Payload := map[
    "status" := Words("queued"), "processed" := Int(0), "candidate_count" := Int(0),
    "display_total" := Int(0), "failed_count" := Int(0), "skipped_count" := Int(0),
    "progress_percent" := Int(0), "processed_turns" := Opaque(0), "failed_turns" := Opaque(0),
    "failed_ids" := Opaque(0), "last_processed" := Nil, "foreground_timeout" := Flag(false)]

  function NewJob(id: string, kind: string, session: string, now: int, channel: nat): Job {
    Job(id, kind, session, Queued, InitialProgress, map[], "", now, now, None, 1, channel, true)
  }

  /** The order list without its first `excess` terminal jobs. */
  function KeptOrder(jobs: map<string, Job>, order: seq<string>, excess: int): seq<string> {
    if order == [] then []
    else if excess > 0 && order[0] in jobs && Terminal(jobs[order[0]].status)
    then KeptOrder(jobs, order[1..], excess - 1)
    else [order[0]] + KeptOrder(jobs, order[1..], excess)
  }

  function Restrict(jobs: map<string, Job>, ids: set<string>): map<string, Job> {
    map id | id in jobs && id in ids :: jobs[id]
  }

  function Prune(t: Table): Table {
    var u := if t.maxJobs <= 0 then t.(maxJobs := DEFAULT_MAX_JOBS) else t;
    if |u.order| <= u.maxJobs then u
    else
      var kept := KeptOrder(u.jobs, u.order, |u.order| - u.maxJobs);
      u.(jobs := Restrict(u.jobs, Elements(kept)), order := kept)
  }

  /** The table with a new job appended, and the job's id. */
  function Inserted(cfg: Config, t: Table, kind: string, session: string, now: int): (Table, string) {
    var id := JobID(cfg.lower(kind), now, t.nextID + 1);
    (t.(nextID := t.nextID + 1, channels := t.channels + 1, order := t.order + [id],
        jobs := t.jobs[id := NewJob(id, kind, session, now, t.channels)]), id)
  }

  /** The table after `start`, and the id of the job it reused or created. */
  function Start(cfg: Config, t: Table, kind: string, session: string, now: int): (Table, string) {
    var (k, s) := (Trim(kind), Trim(session));
    var found := FindReusable(cfg, t, k, s, |t.order|);
    if found.Some? then (t, found.value)
    else
      var (u, id) := Inserted(cfg, t, k, s, now);
      (Prune(u), id)
  }

  // ---------- What the operations record ----------

  /** The status texts that end a job are five, and no two statuses share a text. */
  lemma TerminalByText(a: Status, b: Status)
    ensures Terminal(a) <==> StatusText(a) in {"completed", "deferred", "partial_error", "failed", "cancelled"}
    ensures StatusText(a) == StatusText(b) ==> a == b
    ensures StatusText(Queued) == "queued" && StatusText(Running) == "running"
    ensures StatusText(Completed) == "completed" && StatusText(Deferred) == "deferred"
    ensures StatusText(Failed) == "failed" && StatusText(Cancelled) == "cancelled"
  {
    var (x, y) := (StatusText(a), StatusText(b));
    assert |x| != |y| || x[0] != y[0] || x[3] != y[3] || a == b;
  }

  /** The two records of a job agree in what identifies it. */
  predicate SameJob(a: Job, b: Job) {
    a.id == b.id && a.kind == b.kind && a.session == b.session && a.startedAt == b.startedAt
  }

  /** Only this job's record changed: its revision went up by one, and its old channel was closed for a new one. */
  predicate Published(t: Table, u: Table, id: string)
    requires id in t.jobs
  {
    && id in u.jobs && u == t.(jobs := t.jobs[id := u.jobs[id]], closed := t.closed + {t.jobs[id].changed},
                               channels := t.channels + 1)
    && SameJob(t.jobs[id], u.jobs[id])
    && u.jobs[id].revision == t.jobs[id].revision + 1 && u.jobs[id].changed == t.channels
  }

  /** The two maps agree outside `keys`. */
  predicate AgreeOutside(p: Payload, q: Payload, keys: set<string>) {
    p - keys == q - keys
  }

  /** A report: the status and every reported value are recorded, and all else stays but `display_total`. */
  lemma {:induction false} UpdateRecords(cfg: Config, t: Table, id: string, status: Option<Status>, report: Payload,
                                         now: int)
    requires id in t.jobs && t.jobs[id].id == id
    ensures var u := Update(cfg, t, id, status, report, now);
            var was := t.jobs[id];
            if Terminal(was.status) then u == t
            else
              && Published(t, u, id)
              && var job := u.jobs[id];
                 && job.status == (if status.Some? then status.value else was.status) && job.updatedAt == now
                 && (job.result, job.error) == (was.result, was.error)
                 && (job.finishedAt, job.cancel) == (was.finishedAt, was.cancel)
                 && (forall k :: k in report ==> k in job.progress && job.progress[k] == report[k])
                 && AgreeOutside(was.progress, job.progress, report.Keys + {"display_total"})
  {
    hide Trim;
  }

  /** What a report does to `display_total`: the first total it names, or else zero when it opens a new stage. */
  lemma {:induction false} DisplayTotal(cfg: Config, before: Payload, report: Payload)
    requires "display_total" !in report
    ensures var p := MergeProgress(cfg, before, report);
            if "candidate_count" in report then
              "display_total" in p && p["display_total"] == Int(cfg.intOf(report["candidate_count"]))
            else if "total_candidates" in report then
              "display_total" in p && p["display_total"] == Int(cfg.intOf(report["total_candidates"]))
            else if "total" in report then
              "display_total" in p && p["display_total"] == Int(cfg.intOf(report["total"]))
            else if WordsOf(report, "stage") != "" && WordsOf(report, "stage") != WordsOf(before, "stage") then
              "display_total" in p && p["display_total"] == Int(0)
            else
              && ("display_total" in p <==> "display_total" in before)
              && ("display_total" in p ==> p["display_total"] == before["display_total"])
  {
    hide WordsOf;
  }

  /** The end of a job: status, result, trimmed error and time are those given, also in the progress map. */
  lemma {:induction false} FinishRecords(cfg: Config, t: Table, id: string, status: Status, result: Payload,
                                         error: string, now: int)
    requires id in t.jobs && t.jobs[id].id == id
    ensures var u := Finish(cfg, t, id, status, result, error, now);
            var was := t.jobs[id];
            if Terminal(was.status) then u == t
            else
              && Published(t, u, id)
              && var job := u.jobs[id];
                 && (job.status, job.result, job.error) == (status, result, Trim(error))
                 && job.updatedAt == now && job.finishedAt == Some(now) && !job.cancel
                 && EndRecorded(was.progress, job.progress, StatusText(status), status == Completed,
                                if Trim(error) == "" then Nil else Words(Trim(error)), now, {"progress_percent"})
                 && "progress_percent" in job.progress
                 && var percent := job.progress["progress_percent"];
                    && (status == Completed ==> percent == Int(100))
                    && (status == Deferred ==> percent == Int(99) || cfg.intOf(percent) < 100)
                    && (!(status in {Completed, Deferred}) ==>
                          percent == if "progress_percent" in was.progress then was.progress["progress_percent"]
                                     else Int(100))
  {
    TrimIsTrimmed(error);
    hide Trim;
  }

  /** The progress map of an ended job: its last entries, and otherwise what it held. */
  predicate EndRecorded(p: Payload, q: Payload, status: string, done: bool, error: Any, now: int, more: set<string>) {
    && {"status", "done", "error", "finished_at"} <= q.Keys
    && (q["status"], q["done"], q["error"], q["finished_at"]) == (Words(status), Flag(done), error, Time(now))
    && AgreeOutside(p, q, {"status", "done", "error", "finished_at"} + more)
  }

  /** A cancelled job: as ended, with the result it had. */
  lemma {:induction false} CancelRecords(t: Table, rawID: string, now: int)
    requires Trim(rawID) in t.jobs && t.jobs[Trim(rawID)].id == Trim(rawID)
    ensures var u := Cancel(t, rawID, now);
            var id := Trim(rawID);
            var was := t.jobs[id];
            if Terminal(was.status) then u == t
            else
              && Published(t, u, id)
              && var job := u.jobs[id];
                 && (job.status, job.result, job.error) == (Cancelled, was.result, "context canceled")
                 && job.updatedAt == now && job.finishedAt == Some(now) && !job.cancel
                 && EndRecorded(was.progress, job.progress, "cancelled", false, Words("context canceled"), now, {})
  {
    hide Trim;
  }

  /** The progress map of a job that has not begun: queued, and nothing counted yet. */
  predicate StartedOut(p: Payload) {
    var counts :=
      ["processed", "candidate_count", "display_total", "failed_count", "skipped_count", "progress_percent"];
    && "status" in p && p["status"] == Words("queued")
    && forall k :: k in counts ==> k in p && p[k] == Int(0)
  }

  // ---------- The invariant ----------

  predicate Live(t: Table, id: string) {
    id in t.jobs && !Terminal(t.jobs[id].status)
  }

  predicate SameKey(cfg: Config, a: Job, b: Job) {
    cfg.fold(a.kind) == cfg.fold(b.kind) && a.session == b.session
  }

  /** One job record on its own. */
  predicate JobInv(t: Table, id: string, job: Job) {
    && job.id == id && Serial(id) <= t.nextID
    && Trim(job.kind) == job.kind && Trim(job.session) == job.session
    && job.revision >= 1
    && (job.finishedAt.Some? <==> Terminal(job.status))
    && (job.cancel <==> !Terminal(job.status))
    && job.status != Cancelling
    && job.changed < t.channels && job.changed !in t.closed
  }

  ghost predicate Inv(cfg: Config, t: Table) {
    && Distinct(t.order) && Elements(t.order) == t.jobs.Keys
    && (forall id :: id in t.jobs ==> JobInv(t, id, t.jobs[id]))
    && (forall a, b :: a in t.jobs && b in t.jobs && t.jobs[a].changed == t.jobs[b].changed ==> a == b)
    && (forall a, b :: Live(t, a) && Live(t, b) && SameKey(cfg, t.jobs[a], t.jobs[b]) ==> a == b)
    && (forall c :: c in t.closed ==> c < t.channels)
  }

  /** Publishing a live job after a change that keeps its identity keeps the invariant. */
  lemma {:induction false} PublishKeepsInv(cfg: Config, t: Table, job: Job)
    requires Inv(cfg, t) && Live(t, job.id)
    requires var was := t.jobs[job.id];
             && job.kind == was.kind && job.session == was.session
             && job.revision == was.revision && job.changed == was.changed
    requires job.status != Cancelling
    requires job.finishedAt.Some? <==> Terminal(job.status)
    requires job.cancel <==> !Terminal(job.status)
    ensures Inv(cfg, Publish(t, job))
  {
    hide Trim, Serial, JobInv, SameKey, Publish, Elements, Distinct;
    PublishedOther(cfg, t, job);
    PublishedJob(cfg, t, job);
    var u := Publish(t, job);
    forall a, b | Live(u, a) && Live(u, b) && SameKey(cfg, u.jobs[a], u.jobs[b]) ensures a == b {
      PublishedKey(cfg, t, job, a);
      PublishedKey(cfg, t, job, b);
      SameKeys(cfg, u.jobs[a], u.jobs[b], t.jobs[a], t.jobs[b]);
    }
  }

  lemma PublishedKey(cfg: Config, t: Table, job: Job, a: string)
    requires Inv(cfg, t) && Live(t, job.id)
    requires job.kind == t.jobs[job.id].kind && job.session == t.jobs[job.id].session
    requires Live(Publish(t, job), a)
    ensures Live(t, a) && Publish(t, job).jobs[a].kind == t.jobs[a].kind
          && Publish(t, job).jobs[a].session == t.jobs[a].session
  {
    hide JobInv;
  }

  lemma SameKeys(cfg: Config, a: Job, b: Job, c: Job, d: Job)
    requires a.kind == c.kind && a.session == c.session && b.kind == d.kind && b.session == d.session
    ensures SameKey(cfg, a, b) <==> SameKey(cfg, c, d)
  {
  }

  /** Publishing leaves the other records, their channels and the order alone. */
  lemma PublishedOther(cfg: Config, t: Table, job: Job)
    requires Inv(cfg, t) && Live(t, job.id) && job.changed == t.jobs[job.id].changed
    ensures var u := Publish(t, job);
            && u.order == t.order && u.jobs.Keys == t.jobs.Keys
            && (forall id :: id in u.jobs && id != job.id ==> u.jobs[id] == t.jobs[id] && JobInv(u, id, u.jobs[id]))
            && forall c :: c in u.closed ==> c < u.channels
  {
    hide Trim, Serial;
    var u := Publish(t, job);
    forall id | id in u.jobs && id != job.id ensures u.jobs[id] == t.jobs[id] && JobInv(u, id, u.jobs[id]) {
      assert JobInv(t, id, t.jobs[id]);
    }
    assert JobInv(t, job.id, t.jobs[job.id]);
  }

  lemma PublishedJob(cfg: Config, t: Table, job: Job)
    requires Inv(cfg, t) && Live(t, job.id)
    requires var was := t.jobs[job.id];
             && job.kind == was.kind && job.session == was.session
             && job.revision == was.revision && job.changed == was.changed
    requires job.status != Cancelling
    requires job.finishedAt.Some? <==> Terminal(job.status)
    requires job.cancel <==> !Terminal(job.status)
    ensures var u := Publish(t, job);
            && job.id in u.jobs && JobInv(u, job.id, u.jobs[job.id])
            && forall id :: id in u.jobs && u.jobs[id].changed == u.jobs[job.id].changed ==> id == job.id
  {
    hide Trim, Serial;
    assert JobInv(t, job.id, t.jobs[job.id]);
    var u := Publish(t, job);
    forall id | id in u.jobs && id != job.id ensures u.jobs[id].changed != u.jobs[job.id].changed {
      assert JobInv(t, id, t.jobs[id]);
    }
  }

  // ---------- Pruning ----------

  predicate IsTerminal(jobs: map<string, Job>, id: string) {
    id in jobs && Terminal(jobs[id].status)
  }

  function TerminalIDs(jobs: map<string, Job>, order: seq<string>): seq<string> {
    if order == [] then []
    else if IsTerminal(jobs, order[0]) then [order[0]] + TerminalIDs(jobs, order[1..])
    else TerminalIDs(jobs, order[1..])
  }

  /** `order` without the ids in `gone`, otherwise unchanged. */
  function Excluding(order: seq<string>, gone: set<string>): seq<string> {
    if order == [] then []
    else if order[0] in gone then Excluding(order[1..], gone)
    else [order[0]] + Excluding(order[1..], gone)
  }

  function Min(a: int, b: int): int {
    if a <= b then a else b
  }

  lemma TerminalIDsIn(jobs: map<string, Job>, order: seq<string>)
    ensures forall id :: id in TerminalIDs(jobs, order) <==> id in order && IsTerminal(jobs, id)
  {
  }

  lemma ExcludingIn(order: seq<string>, gone: set<string>)
    ensures forall id :: id in Excluding(order, gone) <==> id in order && id !in gone
  {
  }

  lemma {:induction false} ExcludingOutside(order: seq<string>, x: string, gone: set<string>)
    requires x !in order
    ensures Excluding(order, gone + {x}) == Excluding(order, gone)
  {
    if order != [] {
      assert order[0] in order;
      ExcludingOutside(order[1..], x, gone);
    }
  }

  lemma {:induction false} ExcludingNothing(order: seq<string>)
    ensures Excluding(order, {}) == order
  {
    if order != [] {
      ExcludingNothing(order[1..]);
    }
  }

  lemma {:induction false} ExcludingDistinct(order: seq<string>, gone: set<string>)
    requires Distinct(order)
    ensures Distinct(Excluding(order, gone))
  {
    if order != [] {
      ExcludingDistinct(order[1..], gone);
      ExcludingIn(order[1..], gone);
    }
  }

  /** The loop removes exactly the oldest terminal jobs, as many as the excess allows,
      and keeps every other id in its place. */
  lemma {:induction false} KeptOrderExact(jobs: map<string, Job>, order: seq<string>, excess: nat)
    requires Distinct(order)
    ensures var terminal := TerminalIDs(jobs, order);
            var k := Min(excess, |terminal|);
            && KeptOrder(jobs, order, excess) == Excluding(order, Elements(terminal[..k]))
            && |KeptOrder(jobs, order, excess)| == |order| - k
  {
    var terminal := TerminalIDs(jobs, order);
    var k := Min(excess, |terminal|);
    if order == [] {
      return;
    }
    var rest := order[1..];
    TerminalIDsIn(jobs, rest);
    if !IsTerminal(jobs, order[0]) {
      KeptOrderExact(jobs, rest, excess);
      assert order[0] !in Elements(terminal[..k]) by {
        TerminalIDsIn(jobs, order);
      }
    } else if excess == 0 {
      KeptOrderExact(jobs, rest, 0);
      ExcludingNothing(rest);
      assert Elements(terminal[..k]) == {} && Elements(TerminalIDs(jobs, rest)[..0]) == {};
    } else {
      KeptOrderExact(jobs, rest, excess - 1);
      var fewer := TerminalIDs(jobs, rest);
      assert terminal == [order[0]] + fewer;
      assert terminal[..k] == [order[0]] + fewer[..k - 1];
      assert Elements(terminal[..k]) == Elements(fewer[..k - 1]) + {order[0]};
      ExcludingOutside(rest, order[0], Elements(fewer[..k - 1]));
    }
  }

  /** `pruneLocked` on a consistent table: the oldest min(excess, terminal count) terminal jobs go,
      nothing else changes. */
  lemma PruneExact(t: Table)
    requires Distinct(t.order) && Elements(t.order) == t.jobs.Keys
    ensures var limit := if t.maxJobs <= 0 then DEFAULT_MAX_JOBS else t.maxJobs;
            var terminal := TerminalIDs(t.jobs, t.order);
            var excess := if |t.order| <= limit then 0 else |t.order| - limit;
            var gone := Elements(terminal[..Min(excess, |terminal|)]);
            Prune(t) == t.(maxJobs := limit, order := Excluding(t.order, gone), jobs := t.jobs - gone)
    ensures Distinct(Prune(t).order) && Elements(Prune(t).order) == Prune(t).jobs.Keys
  {
    var limit := if t.maxJobs <= 0 then DEFAULT_MAX_JOBS else t.maxJobs;
    var terminal := TerminalIDs(t.jobs, t.order);
    var excess := if |t.order| <= limit then 0 else |t.order| - limit;
    var gone := Elements(terminal[..Min(excess, |terminal|)]);
    KeptOrderExact(t.jobs, t.order, excess);
    RestrictExcluding(t.jobs, t.order, gone);
    ExcludingDistinct(t.order, gone);
    hide KeptOrder, TerminalIDs, Excluding, Restrict, Distinct;
    if excess == 0 {
      assert gone == {};
      ExcludingNothing(t.order);
      assert t.jobs - gone == t.jobs;
    }
  }

  lemma RestrictExcluding(jobs: map<string, Job>, order: seq<string>, gone: set<string>)
    requires Elements(order) == jobs.Keys
    ensures Restrict(jobs, Elements(Excluding(order, gone))) == jobs - gone
    ensures Elements(Excluding(order, gone)) == (jobs - gone).Keys
  {
    ExcludingIn(order, gone);
  }

  function LiveCount(t: Table): nat {
    |set id | id in t.jobs && !Terminal(t.jobs[id].status)|
  }

  lemma {:induction false} TerminalCount(jobs: map<string, Job>, order: seq<string>)
    requires Distinct(order)
    ensures |TerminalIDs(jobs, order)| == |set id | id in order && IsTerminal(jobs, id)|
  {
    var all := set id | id in order && IsTerminal(jobs, id);
    if order != [] {
      var rest := set id | id in order[1..] && IsTerminal(jobs, id);
      TerminalCount(jobs, order[1..]);
      if IsTerminal(jobs, order[0]) {
        assert all == rest + {order[0]};
      } else {
        assert all == rest;
      }
    }
  }

  /** The order list is the live jobs and the terminal jobs. */
  lemma OrderSplits(t: Table)
    requires Distinct(t.order) && Elements(t.order) == t.jobs.Keys
    ensures |t.order| == LiveCount(t) + |TerminalIDs(t.jobs, t.order)|
  {
    var live := set id | id in t.jobs && !Terminal(t.jobs[id].status);
    var dead := set id | id in t.order && IsTerminal(t.jobs, id);
    TerminalCount(t.jobs, t.order);
    DistinctSize(t.order);
    forall id ensures id in Elements(t.order) <==> id in live + dead {
      assert id in t.order <==> id in Elements(t.order);
    }
    assert Elements(t.order) == live + dead;
  }

  lemma PruneKeepsLive(t: Table)
    requires Distinct(t.order) && Elements(t.order) == t.jobs.Keys
    ensures forall id :: Live(t, id) <==> Live(Prune(t), id)
    ensures forall id :: id in Prune(t).jobs ==> id in t.jobs && Prune(t).jobs[id] == t.jobs[id]
    ensures LiveCount(Prune(t)) == LiveCount(t)
  {
    hide KeptOrder;
    PruneExact(t);
    TerminalIDsIn(t.jobs, t.order);
    var u := Prune(t);
    assert (set id | id in t.jobs && !Terminal(t.jobs[id].status))
        == (set id | id in u.jobs && !Terminal(u.jobs[id].status));
  }

  /** After pruning, the table is no longer than its limit or its number of live jobs. */
  lemma PruneBound(t: Table)
    requires Distinct(t.order) && Elements(t.order) == t.jobs.Keys
    ensures var u := Prune(t);
            |u.order| <= u.maxJobs || |u.order| <= LiveCount(u)
  {
    hide KeptOrder, TerminalIDs;
    PruneKeepsLive(t);
    OrderSplits(t);
    var u := Prune(t);
    if |t.order| > u.maxJobs {
      KeptOrderExact(t.jobs, t.order, |t.order| - u.maxJobs);
    }
  }

  lemma PruneKeepsInv(cfg: Config, t: Table)
    requires Inv(cfg, t)
    ensures Inv(cfg, Prune(t))
  {
    hide Prune, Trim, Serial;
    PruneExact(t);
    PruneKeepsLive(t);
    var u := Prune(t);
    forall id | id in u.jobs ensures JobInv(u, id, u.jobs[id]) {
      assert JobInv(t, id, t.jobs[id]);
    }
    forall a, b | Live(u, a) && Live(u, b) && SameKey(cfg, u.jobs[a], u.jobs[b]) ensures a == b {
      assert Live(t, a) && Live(t, b);
    }
  }

  /** The table of `start` before pruning. */
  lemma {:induction false} InsertKeepsInv(cfg: Config, t: Table, id: string, job: Job)
    requires Inv(cfg, t)
    requires Serial(id) == t.nextID + 1
    requires JobInv(t.(nextID := t.nextID + 1, channels := t.channels + 1), id, job)
    requires job.changed == t.channels && !Terminal(job.status)
    requires forall a :: Live(t, a) ==> !SameKey(cfg, t.jobs[a], job)
    ensures id !in t.jobs
    ensures Inv(cfg, t.(nextID := t.nextID + 1, channels := t.channels + 1,
                        order := t.order + [id], jobs := t.jobs[id := job]))
  {
    hide Trim, Serial;
    assert forall a :: a in t.jobs ==> JobInv(t, a, t.jobs[a]);
    var u := t.(nextID := t.nextID + 1, channels := t.channels + 1,
                order := t.order + [id], jobs := t.jobs[id := job]);
    assert id !in t.order by {
      assert id !in Elements(t.order);
    }
    assert Elements(u.order) == Elements(t.order) + {id};
    forall x | x in u.jobs ensures JobInv(u, x, u.jobs[x]) {
      if x != id {
        assert JobInv(t, x, t.jobs[x]);
      }
    }
    forall a, b | a in u.jobs && b in u.jobs && u.jobs[a].changed == u.jobs[b].changed ensures a == b {
      assert a != id ==> JobInv(t, a, t.jobs[a]);
      assert b != id ==> JobInv(t, b, t.jobs[b]);
    }
    forall a, b | Live(u, a) && Live(u, b) && SameKey(cfg, u.jobs[a], u.jobs[b]) ensures a == b {
      assert a != id ==> Live(t, a);
      assert b != id ==> Live(t, b);
    }
  }

  /** With nothing to reuse, no live job has the kind and session of the new one. */
  lemma NothingReusable(cfg: Config, t: Table, job: Job)
    requires Inv(cfg, t) && Trim(job.kind) == job.kind && Trim(job.session) == job.session
    requires FindReusable(cfg, t, job.kind, job.session, |t.order|).None?
    ensures forall a :: Live(t, a) ==> !SameKey(cfg, t.jobs[a], job)
  {
    hide Trim, Serial, FindReusable;
    forall a | Live(t, a) ensures !SameKey(cfg, t.jobs[a], job) {
      assert JobInv(t, a, t.jobs[a]);
      assert a in Elements(t.order);
      var i :| 0 <= i < |t.order| && t.order[i] == a;
      assert !Reusable(cfg, t.jobs[t.order[i]], job.kind, job.session);
    }
  }

  lemma InsertedKeepsInv(cfg: Config, t: Table, kind: string, session: string, now: int)
    requires Inv(cfg, t) && Trim(kind) == kind && Trim(session) == session
    requires FindReusable(cfg, t, kind, session, |t.order|).None?
    ensures var (u, id) := Inserted(cfg, t, kind, session, now);
            id !in t.jobs && Serial(id) == t.nextID + 1 && Inv(cfg, u) && Live(u, id)
  {
    hide Trim, Serial, FindReusable, JobID, Inv;
    var id := JobID(cfg.lower(kind), now, t.nextID + 1);
    SerialOfJobID(cfg.lower(kind), now, t.nextID + 1);
    var job := NewJob(id, kind, session, now, t.channels);
    NothingReusable(cfg, t, job);
    ClosedAreOld(cfg, t);
    InsertKeepsInv(cfg, t, id, job);
  }

  lemma ClosedAreOld(cfg: Config, t: Table)
    requires Inv(cfg, t)
    ensures t.channels !in t.closed
  {
  }

  /** `start` keeps the invariant, ends with one live job for the key, and bounds the table
      whenever it creates a job. */
  lemma {:induction false} StartKeepsInv(cfg: Config, t: Table, kind: string, session: string, now: int)
    requires Inv(cfg, t)
    ensures Inv(cfg, Start(cfg, t, kind, session, now).0)
    ensures var (u, id) := Start(cfg, t, kind, session, now);
            && Live(u, id) && cfg.fold(u.jobs[id].kind) == cfg.fold(Trim(kind))
            && u.jobs[id].session == Trim(session)
    ensures var (u, id) := Start(cfg, t, kind, session, now);
            id !in t.jobs ==>
              && u.nextID == t.nextID + 1 && Serial(id) == u.nextID
              && (|u.order| <= u.maxJobs || |u.order| <= LiveCount(u))
  {
    hide Prune, LiveCount, JobID, Serial, Trim, FindReusable;
    var (k, s) := (Trim(kind), Trim(session));
    TrimIsTrimmed(kind);
    TrimIsTrimmed(session);
    var found := FindReusable(cfg, t, k, s, |t.order|);
    if found.Some? {
      assert JobInv(t, found.value, t.jobs[found.value]);
    } else {
      InsertedKeepsInv(cfg, t, k, s, now);
      var (u, id) := Inserted(cfg, t, k, s, now);
      hide Inv;
      PruneStart(cfg, u, id);
    }
  }

  lemma PruneStart(cfg: Config, t: Table, id: string)
    requires Inv(cfg, t) && Live(t, id)
    ensures var u := Prune(t);
            && Inv(cfg, u) && u.nextID == t.nextID && Live(u, id) && u.jobs[id] == t.jobs[id]
            && (|u.order| <= u.maxJobs || |u.order| <= LiveCount(u))
  {
    hide LiveCount, Serial, Trim, KeptOrder;
    PruneKeepsInv(cfg, t);
    PruneBound(t);
    PruneKeepsLive(t);
  }
}
