/** The manager object: its methods change the table in place and compute exactly the
    functions of AdminJobs.  Its validity rules out closing a channel twice. */
module AdminJobManager {
  import opened Basics
  import opened Text
  import opened AdminJobs

  class Manager {
    const cfg: Config
    var jobs: map<string, Job>
    var order: seq<string>
    var nextID: nat
    var maxJobs: int
    var closed: set<nat>
    var channels: nat

    ghost function Contents(): Table
      reads this
    {
      Table(jobs, order, nextID, maxJobs, closed, channels)
    }

    ghost predicate Valid()
      reads this
    {
      Inv(cfg, Contents())
    }

    constructor (cfg: Config)
      ensures Valid() && Contents() == EmptyTable && this.cfg == cfg && maxJobs == 80 && order == []
    {
      this.cfg := cfg;
      jobs, order, nextID, maxJobs, closed, channels := map[], [], 0, DEFAULT_MAX_JOBS, {}, 0;
    }

    /** Store a changed record under a new revision; closing its channel must not close it twice. */
    method PublishChange(job: Job)
      requires job.id in jobs && job.changed !in closed
      modifies this
      ensures Contents() == Publish(old(Contents()), job)
    {
      var changed := job.(revision := job.revision + 1);
      closed := closed + {changed.changed};
      changed := changed.(changed := channels);
      channels := channels + 1;
      jobs := jobs[job.id := changed];
    }

    method PruneLocked()
      requires Distinct(order) && Elements(order) == jobs.Keys
      modifies this
      ensures Contents() == Prune(old(Contents()))
    {
      hide KeptOrder;
      if maxJobs <= 0 {
        maxJobs := DEFAULT_MAX_JOBS;
      }
      if |order| <= maxJobs {
        return;
      }
      RemoveOldest(|order| - maxJobs);
    }

    /** The loop of `pruneLocked`: drop up to `excess` terminal jobs, oldest first. */
    method RemoveOldest(excess: nat)
      requires Distinct(order) && Elements(order) == jobs.Keys
      modifies `jobs, `order
      ensures order == KeptOrder(old(jobs), old(order), excess)
      ensures jobs == Restrict(old(jobs), Elements(order))
    {
      hide KeptOrder, Restrict, Elements;
      PruneAll(jobs, order, excess);
      var remaining := excess;
      var kept: seq<string> := [];
      ghost var all := jobs;
      var i := 0;
      while i < |order|
        invariant 0 <= i <= |order| && remaining >= 0
        invariant kept + KeptOrder(all, order[i..], remaining) == KeptOrder(all, order, excess)
        invariant Elements(kept) <= Elements(order[..i])
        invariant jobs == Restrict(all, Elements(kept) + Elements(order[i..]))
        modifies `jobs
      {
        var id := order[i];
        PruneOne(all, order, i, kept, remaining);
        if remaining > 0 && id in jobs && Terminal(jobs[id].status) {
          jobs := jobs - {id};
          remaining := remaining - 1;
        } else {
          kept := kept + [id];
        }
        i := i + 1;
      }
      assert order[i..] == [] && kept + [] == kept && Elements(kept) + {} == Elements(kept);
      order := kept;
    }

    /** The scan of `start`, newest job first. */
    method ScanReusable(kind: string, session: string) returns (found: Option<string>)
      ensures found == FindReusable(cfg, Contents(), kind, session, |order|)
    {
      hide Reusable;
      var i := |order| - 1;
      while i >= 0
        invariant -1 <= i < |order|
        invariant FindReusable(cfg, Contents(), kind, session, i + 1)
               == FindReusable(cfg, Contents(), kind, session, |order|)
      {
        if order[i] in jobs && Reusable(cfg, jobs[order[i]], kind, session) {
          return Some(order[i]);
        }
        i := i - 1;
      }
      return None;
    }

    /**
     * The insertion in `start`, after a scan that found nothing to reuse. The id is new, the job is live and the only
     * live one for its key, its channel is open, and the table stays valid; pruning comes after.
     */
    method InsertJob(kind: string, session: string, now: int) returns (id: string)
      requires Valid() && Trim(kind) == kind && Trim(session) == session
      requires FindReusable(cfg, Contents(), kind, session, |order|).None?
      modifies this
      ensures (Contents(), id) == Inserted(cfg, old(Contents()), kind, session, now)
      ensures Valid() && id !in old(jobs) && id in jobs && jobs == old(jobs)[id := jobs[id]]
      ensures Live(Contents(), id) && jobs[id].changed !in closed && order == old(order) + [id]
      ensures jobs[id].(progress := map[]) ==
                Job(id, kind, session, Queued, map[], map[], "", now, now, None, 1, old(channels), true)
      ensures StartedOut(jobs[id].progress)
      ensures forall a :: Live(Contents(), a) && SameKey(cfg, jobs[a], jobs[id]) ==> a == id
    {
      hide Serial, FindReusable, Trim, Inv, JobID, NewJob, StartedOut, SameKey, Terminal;
      InsertedAlone(cfg, Contents(), kind, session, now);
      nextID := nextID + 1;
      id := JobID(cfg.lower(kind), now, nextID);
      jobs := jobs[id := NewJob(id, kind, session, now, channels)];
      channels := channels + 1;
      order := order + [id];
    }

    /** Start a job, or reuse the live one with this kind and session. */
    method StartJob(kind: string, session: string, now: int) returns (job: Job, reused: bool)
      requires Valid()
      modifies this
      ensures Valid()
      ensures (Contents(), job.id) == Start(cfg, old(Contents()), kind, session, now)
      ensures job.id in jobs && job == jobs[job.id]
      ensures reused <==> job.id in old(jobs)
      ensures reused ==> Contents() == old(Contents()) && !Terminal(job.status)
      ensures cfg.fold(job.kind) == cfg.fold(Trim(kind)) && job.session == Trim(session)
    {
      hide Prune, FindReusable, Trim, JobInv, Inserted, Serial, LiveCount;
      StartKeepsInv(cfg, Contents(), kind, session, now);
      var normalizedKind := Trim(kind);
      var normalizedSession := Trim(session);
      var found := ScanReusable(normalizedKind, normalizedSession);
      if found.Some? {
        IDOf(cfg, Contents(), found.value);
        return jobs[found.value], true;
      }
      TrimIsTrimmed(kind);
      TrimIsTrimmed(session);
      StartCreates(cfg, Contents(), kind, session, now);
      var id := InsertJob(normalizedKind, normalizedSession, now);
      PruneLocked();
      IDOf(cfg, Contents(), id);
      return jobs[id], false;
    }

    /** `update`; the statuses that the workers pass keep the table valid. */
    method UpdateJob(id: string, status: Option<Status>, report: Payload, now: int)
      requires Valid()
      modifies this
      ensures Contents() == Update(cfg, old(Contents()), id, status, report, now)
      ensures status.None? || status.value == Running ==> Valid()
    {
      if id !in jobs || Terminal(jobs[id].status) {
        return;
      }
      assert JobInv(Contents(), id, jobs[id]);
      var job := jobs[id];
      if status.Some? {
        job := job.(status := status.value);
      }
      job := job.(progress := MergeProgress(cfg, job.progress, report), updatedAt := now);
      if status.None? || status.value == Running {
        PublishKeepsInv(cfg, Contents(), job);
      }
      PublishChange(job);
    }

    /** `finish`; a terminal status keeps the table valid. */
    method FinishJob(id: string, status: Status, result: Payload, error: string, now: int)
      requires Valid()
      modifies this
      ensures Contents() == Finish(cfg, old(Contents()), id, status, result, error, now)
      ensures Terminal(status) ==> Valid()
    {
      if id !in jobs || Terminal(jobs[id].status) {
        return;
      }
      assert JobInv(Contents(), id, jobs[id]);
      var job := jobs[id].(status := status, updatedAt := now, finishedAt := Some(now),
                           result := result, error := Trim(error), cancel := false);
      job := job.(progress := FinishProgress(cfg, job.progress, status, job.error, now));
      if Terminal(status) {
        PublishKeepsInv(cfg, Contents(), job);
      }
      PublishChange(job);
    }

    /** Cancel a job; `signalled` says whether the worker's context is then cancelled. */
    method CancelJob(rawID: string, now: int) returns (snapshot: Option<Job>, signalled: bool)
      requires Valid()
      modifies this
      ensures Valid() && Contents() == Cancel(old(Contents()), rawID, now)
      ensures snapshot.Some? <==> Trim(rawID) in old(jobs)
      ensures snapshot.Some? ==>
                && Trim(rawID) in jobs
                && snapshot.value == jobs[Trim(rawID)]
                && Terminal(snapshot.value.status)
      ensures signalled <==> Live(old(Contents()), Trim(rawID))
    {
      var id := Trim(rawID);
      if id !in jobs {
        return None, false;
      }
      assert JobInv(Contents(), id, jobs[id]);
      if Terminal(jobs[id].status) {
        return Some(jobs[id]), false;
      }
      signalled := jobs[id].cancel;
      var job := jobs[id].(status := Cancelled, updatedAt := now, finishedAt := Some(now),
                           error := "context canceled", cancel := false);
      job := job.(progress := CancelProgress(job.progress, now));
      PublishKeepsInv(cfg, Contents(), job);
      PublishChange(job);
      return Some(jobs[id]), signalled;
    }

    /**
     * `observe`. Nothing for an unknown job. Otherwise the channel to wait on is open and belongs to this job alone, so
     * its closing means a change of the job; no snapshot means a live job that has published nothing after `after`.
     */
    method ObserveJob(rawID: string, after: nat) returns (seen: Option<(Option<Job>, nat)>)
      requires Valid()
      ensures seen == Observe(Contents(), rawID, after)
      ensures seen.None? <==> Trim(rawID) !in jobs
      ensures seen.Some? ==>
                && seen.value.1 !in closed
                && forall id :: id in jobs && jobs[id].changed == seen.value.1 ==> id == Trim(rawID)
      ensures seen.Some? && seen.value.0.Some? ==>
                var snapshot := seen.value.0.value;
                snapshot == jobs[Trim(rawID)] && (snapshot.revision > after || Terminal(snapshot.status))
      ensures seen.Some? && seen.value.0.None? ==>
                Live(Contents(), Trim(rawID)) && jobs[Trim(rawID)].revision <= after
    {
      var id := Trim(rawID);
      if id !in jobs {
        return None;
      }
      assert JobInv(Contents(), id, jobs[id]);
      var job := jobs[id];
      var snapshot := None;
      if job.revision > after || Terminal(job.status) {
        snapshot := Some(job);
      }
      return Some((snapshot, job.changed));
    }
  }

  lemma AtIndex(order: seq<string>, i: nat)
    requires Distinct(order) && i < |order|
    ensures order[i..] == [order[i]] + order[i + 1..]
    ensures Elements(order[i..]) == Elements(order[i + 1..]) + {order[i]}
    ensures order[i] !in Elements(order[..i]) && order[i] !in Elements(order[i + 1..])
    ensures Elements(order[..i + 1]) == Elements(order[..i]) + {order[i]}
  {
    assert order[..i + 1] == order[..i] + [order[i]];
    assert order[i..] == [order[i]] + order[i + 1..];
  }

  lemma PruneAll(all: map<string, Job>, order: seq<string>, excess: nat)
    requires Elements(order) == all.Keys
    ensures order[0..] == order && Elements<string>([]) == {} && order[|order|..] == []
    ensures all == Restrict(all, Elements([]) + Elements(order))
    ensures forall n: nat :: KeptOrder(all, [], n) == []
  {
  }

  /** One turn of the pruning loop, for a terminal job that goes and for a job that stays. */
  lemma {:induction false} PruneOne(all: map<string, Job>, order: seq<string>, i: nat, kept: seq<string>,
                                    remaining: nat)
    requires Distinct(order) && i < |order| && Elements(kept) <= Elements(order[..i])
    ensures var id := order[i];
            var now := Restrict(all, Elements(kept) + Elements(order[i..]));
            && (id in now <==> id in all) && (id in all ==> now[id] == all[id])
            && Elements(kept) <= Elements(order[..i + 1])
            && Elements(kept + [id]) <= Elements(order[..i + 1])
            && now - {id} == Restrict(all, Elements(kept) + Elements(order[i + 1..]))
            && now == Restrict(all, Elements(kept + [id]) + Elements(order[i + 1..]))
            && kept + KeptOrder(all, order[i..], remaining)
               == if remaining > 0 && id in all && Terminal(all[id].status)
                  then kept + KeptOrder(all, order[i + 1..], remaining - 1)
                  else kept + [id] + KeptOrder(all, order[i + 1..], remaining)
  {
    AtIndex(order, i);
    var id := order[i];
    assert Elements(kept + [id]) == Elements(kept) + {id};
    assert kept + ([id] + KeptOrder(all, order[i + 1..], remaining))
        == kept + [id] + KeptOrder(all, order[i + 1..], remaining);
  }

  /** What inserting a job gives: a new, open, live record that has its key to itself. */
  lemma InsertedAlone(cfg: Config, t: Table, kind: string, session: string, now: int)
    requires Inv(cfg, t) && Trim(kind) == kind && Trim(session) == session
    requires FindReusable(cfg, t, kind, session, |t.order|).None?
    ensures var (u, id) := Inserted(cfg, t, kind, session, now);
            && Inv(cfg, u) && id !in t.jobs && Live(u, id) && u.jobs[id].changed !in u.closed
            && u.jobs[id].(progress := map[]) ==
                 Job(id, kind, session, Queued, map[], map[], "", now, now, None, 1, t.channels, true)
            && StartedOut(u.jobs[id].progress)
            && forall a :: Live(u, a) && SameKey(cfg, u.jobs[a], u.jobs[id]) ==> a == id
  {
    hide Serial, FindReusable, Trim, JobID, NewJob, StartedOut;
    InsertedKeepsInv(cfg, t, kind, session, now);
    var (u, id) := Inserted(cfg, t, kind, session, now);
    NewRecord(id, kind, session, now, t.channels);
    assert JobInv(u, id, u.jobs[id]);
  }

  lemma NewRecord(id: string, kind: string, session: string, now: int, channel: nat)
    ensures var job := NewJob(id, kind, session, now, channel);
            && job.(progress := map[]) ==
                 Job(id, kind, session, Queued, map[], map[], "", now, now, None, 1, channel, true)
            && StartedOut(job.progress)
  {
  }

  lemma IDOf(cfg: Config, t: Table, id: string)
    requires Inv(cfg, t) && id in t.jobs
    ensures t.jobs[id].id == id
  {
    assert JobInv(t, id, t.jobs[id]);
  }

  /** When nothing can be reused, `start` creates a job under a new id. */
  lemma StartCreates(cfg: Config, t: Table, kind: string, session: string, now: int)
    requires Inv(cfg, t)
    requires FindReusable(cfg, t, Trim(kind), Trim(session), |t.order|).None?
    ensures var (u, id) := Inserted(cfg, t, Trim(kind), Trim(session), now);
            && id !in t.jobs && Distinct(u.order) && Elements(u.order) == u.jobs.Keys
            && Start(cfg, t, kind, session, now) == (Prune(u), id)
  {
    hide Prune, Serial, JobID;
    TrimIsTrimmed(kind);
    TrimIsTrimmed(session);
    InsertedKeepsInv(cfg, t, Trim(kind), Trim(session), now);
  }
}
