/**
 * The supervisor of server process groups against an operating system that may answer anything: groups die at any
 * moment, ids are reused, the pid file changes or cannot be read, and signals may be refused.
 */
module ProcessLifetime {
  import opened Basics

  const SHUTDOWN_TIMEOUT_MS := 10000
  const POLL_INTERVAL_MS := 100

  datatype Signal = Term | Kill

  datatype PidFile = Missing | Lines(lines: seq<string>)

  /**
   * What the supervisor asked the system, with the answers. A refusal follows what was refused; a probe of an id that
   * is no C integer overflows instead of answering. Readings of the clock and sleeps are in milliseconds.
   */
  datatype Event =
    | Read(file: PidFile) | Probe(group: int, alive: bool) | Sent(group: int, sig: Signal)
    | Refused | Overflow(group: int)
    | Now(time: nat) | Slept(ms: nat)

  type Log = seq<Event>

  /** The ids that the system calls take: those of a C `int`. */
  predicate Representable(group: int) {
    -0x8000_0000 <= group <= 0x7fff_ffff
  }

  // ---------- The pid file ----------

  /** The groups a pid file lists; `parse` is Python's `int` on a stripped line. */
  function Groups(file: PidFile, parse: string -> Option<int>): set<int> {
    if file.Missing? then {}
    else set l | l in file.lines && parse(l).Some? && parse(l).value > 1 :: parse(l).value
  }

  // ---------- What a log shows ----------

  /** The groups some probe found dead. */
  function Dead(log: Log): set<int> {
    set e | e in log && e.Probe? && !e.alive :: e.group
  }

  /** The groups some probe found alive. */
  function Alive(log: Log): set<int> {
    set e | e in log && e.Probe? && e.alive :: e.group
  }

  function SentGroups(log: Log, sig: Signal): set<int> {
    set e | e in log && e.Sent? && e.sig == sig :: e.group
  }

  function ListedGroups(log: Log, parse: string -> Option<int>): set<int> {
    set e, g | e in log && e.Read? && g in Groups(e.file, parse) :: g
  }

  function Signalled(log: Log): set<int> {
    SentGroups(log, Term) + SentGroups(log, Kill)
  }

  /** No signal goes to a group after a probe found it dead. */
  predicate NoSignalAfterDeath(log: Log) {
    forall i, j :: 0 <= i < j < |log| && log[i].Probe? && !log[i].alive && log[j].Sent? ==> log[i].group != log[j].group
  }

  /** Each group is asked to terminate at most once. */
  predicate TermOnce(log: Log) {
    forall i, j :: 0 <= i < j < |log| && log[i].Sent? && log[i].sig == Term ==> log[j] != log[i]
  }

  /** Every signal follows a probe that found the group alive, and a kill follows a request to terminate. */
  predicate SignalsEarned(log: Log) {
    forall j :: 0 <= j < |log| && log[j].Sent? ==>
      Probe(log[j].group, true) in log[..j] && (log[j].sig == Kill ==> Sent(log[j].group, Term) in log[..j])
  }

  /** Ids that fit are probed, and only the others overflow. */
  predicate Fitting(log: Log) {
    forall e :: e in log ==> (e.Probe? ==> Representable(e.group)) && (e.Overflow? ==> !Representable(e.group))
  }

  /** Nothing raised. */
  predicate Calm(log: Log) {
    forall e :: e in log ==> !e.Refused? && !e.Overflow?
  }

  /** The log ends in its only event that raises: a refusal, or the overflow of one of the groups. */
  predicate EndsRaising(log: Log, groups: set<int>) {
    && log != [] && Calm(log[..|log| - 1])
    && var last := log[|log| - 1];
       last.Refused? || (last.Overflow? && last.group in groups && !Representable(last.group))
  }

  predicate Unrepresentable(groups: set<int>) {
    exists g :: g in groups && !Representable(g)
  }

  lemma CalmAppended(log: Log, e: Event, groups: set<int>)
    requires Calm(log)
    ensures Calm(log + [e]) <==> !e.Refused? && !e.Overflow?
    ensures e.Refused? || (e.Overflow? && e.group in groups && !Representable(e.group)) ==>
          EndsRaising(log + [e], groups)
  {
    assert (log + [e])[..|log + [e]| - 1] == log && e in log + [e];
    assert forall x :: x in log + [e] <==> x in log || x == e;
  }

  lemma FittingAppended(log: Log, e: Event)
    requires Fitting(log) && (e.Probe? ==> Representable(e.group)) && (e.Overflow? ==> !Representable(e.group))
    ensures Fitting(log + [e])
  {
  }

  lemma DeadFit(log: Log)
    requires Fitting(log)
    ensures forall g :: g in Dead(log) || g in Alive(log) ==> Representable(g)
  {
  }

  lemma Appended(log: Log, e: Event, start: nat)
    requires start <= |log|
    ensures (log + [e])[start..] == log[start..] + [e]
    ensures Dead(log + [e]) == Dead(log) + (if e.Probe? && !e.alive then {e.group} else {})
    ensures Alive(log + [e]) == Alive(log) + (if e.Probe? && e.alive then {e.group} else {})
    ensures forall s :: SentGroups(log + [e], s) ==
                        SentGroups(log, s) + (if e.Sent? && e.sig == s then {e.group} else {})
  {
  }

  lemma ListedAppended(log: Log, e: Event, parse: string -> Option<int>)
    ensures ListedGroups(log + [e], parse) == ListedGroups(log, parse) + (if e.Read? then Groups(e.file, parse) else {})
  {
    hide Groups;
    if e.Read? {
      forall g | g in Groups(e.file, parse) ensures g in ListedGroups(log + [e], parse) {
        assert e in log + [e];
      }
    }
    forall g | g in ListedGroups(log, parse) ensures g in ListedGroups(log + [e], parse) {
      var x :| x in log && x.Read? && g in Groups(x.file, parse);
      assert x in log + [e];
    }
  }

  /** An event keeps the log's promises if a signal goes to a live, probed and, for a kill, asked group. */
  lemma KeepsPromises(log: Log, start: nat, e: Event)
    requires start <= |log| && NoSignalAfterDeath(log) && TermOnce(log[start..]) && SignalsEarned(log[start..])
    requires e.Sent? ==> e.group !in Dead(log) && Probe(e.group, true) in log[start..]
    requires e.Sent? && e.sig == Kill ==> e.group in SentGroups(log[start..], Term)
    requires e.Sent? && e.sig == Term ==> e.group !in SentGroups(log[start..], Term)
    ensures NoSignalAfterDeath(log + [e]) && TermOnce((log + [e])[start..]) && SignalsEarned((log + [e])[start..])
  {
    var part, all := log[start..], log + [e];
    assert all[start..] == part + [e];
    assert NoSignalAfterDeath(all) by {
      forall i | 0 <= i < |log| && log[i].Probe? && !log[i].alive ensures log[i].group in Dead(log) {
        assert log[i] in log;
      }
    }
    assert TermOnce(part + [e]) by {
      forall i | 0 <= i < |part| && part[i].Sent? && part[i].sig == Term
        ensures part[i].group in SentGroups(part, Term)
      {
        assert part[i] in part;
      }
    }
    assert SignalsEarned(part + [e]) by {
      forall j | 0 <= j < |part + [e]| && (part + [e])[j].Sent?
        ensures Probe((part + [e])[j].group, true) in (part + [e])[..j]
        ensures (part + [e])[j].sig == Kill ==> Sent((part + [e])[j].group, Term) in (part + [e])[..j]
      {
        assert (part + [e])[..j] == if j < |part| then part[..j] else part;
      }
    }
  }

  // ---------- The operating system ----------

  class World {
    const parse: string -> Option<int>
    var log: Log
    var clock: nat

    constructor (parse: string -> Option<int>)
      ensures log == [] && this.parse == parse
    {
      this.parse := parse;
      log, clock := [], 0;
    }

    /** Opening and reading the pid file; any other failure than a missing file raises. */
    method ReadPidFile() returns (file: Option<PidFile>)
      modifies this
      ensures clock == old(clock)
      ensures log == if file.Some? then old(log) + [Read(file.value)] else old(log) + [Refused]
    {
      var present: bool, readable: bool, lines: seq<string> := *, *, *;
      if present && !readable {
        log := log + [Refused];
        return None;
      }
      file := Some(if present then Lines(lines) else Missing);
      log := log + [Read(file.value)];
    }

    /** A zero signal: refused permission means the group exists, and an id beyond a C integer raises. */
    method ProcessGroupExists(group: int) returns (alive: bool, raised: bool)
      modifies this
      ensures clock == old(clock) && (raised <==> !Representable(group))
      ensures log == if raised then old(log) + [Overflow(group)] else old(log) + [Probe(group, alive)]
    {
      alive := *;
      raised := !Representable(group);
      log := log + [if raised then Overflow(group) else Probe(group, alive)];
    }

    /** A missing group is ignored; refused permission raises. */
    method SignalProcessGroup(group: int, sig: Signal) returns (raised: bool)
      modifies this
      ensures clock == old(clock)
      ensures log == if raised then old(log) + [Sent(group, sig)] + [Refused] else old(log) + [Sent(group, sig)]
    {
      raised := *;
      log := log + [Sent(group, sig)];
      if raised {
        log := log + [Refused];
      }
    }

    method Monotonic() returns (now: nat)
      modifies this
      ensures now == clock >= old(clock) && log == old(log) + [Now(now)]
    {
      var passed: nat :| passed >= 0;
      clock := clock + passed;
      now := clock;
      log := log + [Now(now)];
    }

    /** Sleeping lasts at least as long as asked. */
    method Sleep(ms: nat)
      modifies this
      ensures clock >= old(clock) + ms && log == old(log) + [Slept(ms)]
    {
      var extra: nat :| extra >= 0;
      clock := clock + ms + extra;
      log := log + [Slept(ms)];
    }
  }

  /** The loop over the lines: unreadable numbers and ids up to 1 are skipped. */
  method ReadProcessGroups(w: World) returns (groups: Option<set<int>>)
    modifies w
    ensures w.clock == old(w.clock)
    ensures groups.None? ==> w.log == old(w.log) + [Refused]
    ensures groups.Some? ==>
              exists file :: w.log == old(w.log) + [Read(file)] && groups.value == Groups(file, w.parse)
    ensures groups.Some? ==>
              && |w.log| == |old(w.log)| + 1 && w.log[|old(w.log)|].Read?
              && var file := w.log[|old(w.log)|].file;
                 forall g :: g in groups.value <==>
                   g > 1 && file.Lines? && exists l :: l in file.lines && w.parse(l) == Some(g)
  {
    var file := w.ReadPidFile();
    if file.None? {
      return None;
    }
    var found: set<int> := {};
    if file.value.Lines? {
      var lines := file.value.lines;
      for i := 0 to |lines|
        invariant found == Groups(Lines(lines[..i]), w.parse)
      {
        var group := w.parse(lines[i]);
        assert lines[..i + 1] == lines[..i] + [lines[i]];
        if group.Some? && group.value > 1 {
          found := found + {group.value};
        }
      }
      assert lines[..|lines|] == lines;
    }
    groups := Some(found);
  }

  // ---------- The pace of a stop ----------

  /**
   * The groups a stop is responsible for: those handed to it as known, and those listed meanwhile that were not
   * retired.
   */
  function Responsible(handed: set<int>, given: set<int>, log: Log, parse: string -> Option<int>): set<int> {
    handed + (ListedGroups(log, parse) - given)
  }

  /** The groups found alive since the pid file was last read. */
  function Heard(log: Log): set<int> {
    if log == [] || log[|log| - 1].Read? then {}
    else
      var e := log[|log| - 1];
      Heard(log[..|log| - 1]) + (if e.Probe? && e.alive then {e.group} else {})
  }

  /** Where a stop stands: what it has to do next, the deadline, and whom it has heard of in this round. */
  datatype Stage =
    | Unread | Due(deadline: nat) | Round(deadline: nat, heard: set<int>) | Checked(deadline: nat)
    | Late(deadline: nat, last: set<int>) | Over | Broken

  /** Every group the stop is responsible for was found dead, or answered in this round. */
  predicate AllHeard(log: Log, heard: set<int>, handed: set<int>, given: set<int>, parse: string -> Option<int>) {
    forall g :: g in Responsible(handed, given, log, parse) ==> g in Dead(log) || g in heard
  }

  function Next(s: Stage, log: Log, e: Event, handed: set<int>, given: set<int>, parse: string -> Option<int>): Stage {
    match s
    case Unread => if e.Now? then Due(e.time + SHUTDOWN_TIMEOUT_MS) else Broken
    case Due(d) => if e.Read? then Round(d, {}) else if e.Refused? then Over else Broken
    case Round(d, heard) =>
      if e.Probe? then Round(d, if e.alive then heard + {e.group} else heard)
      else if e.Sent? then (if e.sig == Term && e.group in heard then s else Broken)
      else if e.Refused? || e.Overflow? then Over
      else if e.Now? && heard != {} && AllHeard(log, heard, handed, given, parse)
      then (if e.time < d then Checked(d) else Late(d, {}))
      else Broken
    case Checked(d) => if e == Slept(POLL_INTERVAL_MS) then Due(d) else Broken
    case Late(d, last) =>
      if e.Probe? then Late(d, if e.alive then {e.group} else {})
      else if e.Sent? then (if e.sig == Kill && e.group in last then Late(d, {}) else Broken)
      else if e.Refused? || e.Overflow? then Over
      else Broken
    case _ => Broken
  }

  /** The stage after the events of a stop. */
  function Pace(log: Log, handed: set<int>, given: set<int>, parse: string -> Option<int>): Stage {
    if log == [] then Unread
    else
      var front := log[..|log| - 1];
      Next(Pace(front, handed, given, parse), front, log[|log| - 1], handed, given, parse)
  }

  lemma PaceStep(log: Log, start: nat, e: Event, handed: set<int>, given: set<int>, parse: string -> Option<int>)
    requires start <= |log|
    ensures Pace((log + [e])[start..], handed, given, parse) ==
              Next(Pace(log[start..], handed, given, parse), log[start..], e, handed, given, parse)
  {
    hide Next;
    assert (log + [e])[start..] == log[start..] + [e];
    assert (log[start..] + [e])[..|log[start..]|] == log[start..];
  }

  /** The clock was read at or past ten seconds after its first reading, before event `j`. */
  predicate Expired(log: Log, j: nat)
    requires log != [] && log[0].Now? && j <= |log|
  {
    exists i :: 0 < i < j && log[i].Now? && log[i].time >= log[0].time + 10000
  }

  /**
   * Event `j` of a stop is in its place. Until the clock shows the deadline: rounds of reading the pid file, probing,
   * asking groups that answered in this round to terminate, and reading the clock while some group answered and every
   * other is dead; between two rounds a sleep of a tenth of a second. From then on only probes, each kill directly
   * behind one that was answered.
   */
  predicate InPlace(log: Log, j: nat, handed: set<int>, given: set<int>, parse: string -> Option<int>)
    requires log != [] && log[0].Now? && 0 < j < |log|
  {
    && (log[j].Read? ==> j == 1 || log[j - 1].Slept?)
    && (j == 1 || log[j - 1].Slept? ==> log[j].Read? || log[j].Refused?)
    && (log[j].Slept? <==> j > 1 && log[j - 1].Now? && !Expired(log, j))
    && (log[j].Slept? ==> log[j].ms == 100)
    && (log[j].Read? || log[j].Now? ==> !Expired(log, j))
    && (log[j].Now? ==> Heard(log[..j]) != {} && AllHeard(log[..j], Heard(log[..j]), handed, given, parse))
    && (log[j].Sent? && log[j].sig == Term ==> !Expired(log, j) && log[j].group in Heard(log[..j]))
    && (log[j].Sent? && log[j].sig == Kill ==> Expired(log, j) && log[j - 1] == Probe(log[j].group, true))
  }

  predicate Punctual(log: Log, handed: set<int>, given: set<int>, parse: string -> Option<int>) {
    log != [] && log[0].Now? && forall j :: 0 < j < |log| ==> InPlace(log, j, handed, given, parse)
  }

  /** What a stage says about the events that led to it. */
  predicate Means(s: Stage, log: Log)
    requires log != [] && log[0].Now?
  {
    var last := log[|log| - 1];
    match s
    case Due(d) => d == log[0].time + SHUTDOWN_TIMEOUT_MS && !Expired(log, |log|) && (last.Slept? || |log| == 1)
    case Round(d, heard) =>
      && d == log[0].time + SHUTDOWN_TIMEOUT_MS && !Expired(log, |log|) && heard == Heard(log)
      && !last.Slept? && !last.Now?
    case Checked(d) => d == log[0].time + SHUTDOWN_TIMEOUT_MS && !Expired(log, |log|) && last.Now? && |log| > 1
    case Late(d, alive) =>
      && Expired(log, |log|) && !last.Slept? && |log| > 1
      && forall g :: g in alive ==> last == Probe(g, true)
    case Over => !last.Slept? && |log| > 1
    case _ => false
  }

  lemma ExpiredPrefix(log: Log, e: Event, j: nat)
    requires log != [] && log[0].Now? && j <= |log|
    ensures Expired(log + [e], j) <==> Expired(log, j)
    ensures Expired(log + [e], |log| + 1) <==> Expired(log, |log|) || (e.Now? && e.time >= log[0].time + 10000)
  {
    var all := log + [e];
    assert forall i :: 0 <= i < |log| ==> all[i] == log[i];
    assert all[|log|] == e;
  }

  lemma InPlacePrefix(log: Log, e: Event, j: nat, handed: set<int>, given: set<int>, parse: string -> Option<int>)
    requires log != [] && log[0].Now? && 0 < j < |log|
    ensures InPlace(log + [e], j, handed, given, parse) <==> InPlace(log, j, handed, given, parse)
  {
    hide Expired, Heard, AllHeard;
    ExpiredPrefix(log, e, j);
    assert (log + [e])[..j] == log[..j];
  }

  lemma {:induction false} PunctualStep(log: Log, e: Event, handed: set<int>, given: set<int>,
                                        parse: string -> Option<int>)
    requires Punctual(log, handed, given, parse) && Means(Pace(log, handed, given, parse), log)
    requires Next(Pace(log, handed, given, parse), log, e, handed, given, parse) != Broken
    ensures Punctual(log + [e], handed, given, parse)
    ensures Means(Next(Pace(log, handed, given, parse), log, e, handed, given, parse), log + [e])
  {
    hide Expired, AllHeard, Pace;
    var all := log + [e];
    ExpiredPrefix(log, e, |log|);
    assert all[..|log|] == log && all[0] == log[0];
    HeardStep(log, e);
    forall j | 0 < j < |all| ensures InPlace(all, j, handed, given, parse) {
      if j < |log| {
        InPlacePrefix(log, e, j, handed, given, parse);
      } else {
        hide Heard;
        assert all[j] == e && all[j - 1] == log[|log| - 1];
      }
    }
  }

  lemma HeardStep(log: Log, e: Event)
    ensures Heard(log + [e]) == if e.Read? then {} else Heard(log) + (if e.Probe? && e.alive then {e.group} else {})
  {
    assert (log + [e])[..|log|] == log;
  }

  /** Events that never break the pace are all in their places. */
  lemma {:induction false} PaceKept(log: Log, handed: set<int>, given: set<int>, parse: string -> Option<int>)
    requires log != [] && Pace(log, handed, given, parse) != Broken
    ensures Punctual(log, handed, given, parse) && Means(Pace(log, handed, given, parse), log)
  {
    hide Next, Means, Punctual;
    var front, e := log[..|log| - 1], log[|log| - 1];
    assert log == front + [e];
    if front == [] {
      FirstReading(log, handed, given, parse);
    } else {
      BrokenStays(front, e, handed, given, parse);
      PaceKept(front, handed, given, parse);
      PunctualStep(front, e, handed, given, parse);
    }
  }

  lemma BrokenStays(log: Log, e: Event, handed: set<int>, given: set<int>, parse: string -> Option<int>)
    ensures Next(Broken, log, e, handed, given, parse) == Broken
  {
  }

  lemma FirstReading(log: Log, handed: set<int>, given: set<int>, parse: string -> Option<int>)
    requires |log| == 1 && Pace(log, handed, given, parse) != Broken
    ensures Punctual(log, handed, given, parse) && Means(Pace(log, handed, given, parse), log)
  {
    assert log[..0] == [];
  }

  // ---------- Stopping ----------

  /** The promises kept by the log, and by its part since `start`. */
  predicate Promises(log: Log, start: nat)
    requires start <= |log|
  {
    NoSignalAfterDeath(log) && TermOnce(log[start..]) && SignalsEarned(log[start..]) && Fitting(log[start..])
  }

  predicate AllProbedAlive(groups: set<int>, log: Log) {
    forall g :: g in groups ==> Probe(g, true) in log
  }

  lemma SomeGroup(groups: set<int>)
    ensures groups == {} || exists g :: g in groups
  {
    if forall g :: g !in groups {
      assert groups == {};
    }
  }

  /** One round of probes: the groups answering are active, the others retire; an id that overflows ends it. */
  method ProbeAll(w: World, known: set<int>, retired: set<int>,
                  ghost start: nat, ghost handed: set<int>, ghost given: set<int>, ghost deadline: nat)
    returns (raised: bool, active: set<int>, nowRetired: set<int>)
    requires start <= |w.log| && Promises(w.log, start) && known !! Dead(w.log) && Calm(w.log[start..])
    requires Pace(w.log[start..], handed, given, w.parse) == Round(deadline, {})
    modifies w
    ensures start <= |w.log| && Pace(w.log[start..], handed, given, w.parse) ==
              if raised then Over else Round(deadline, active)
    ensures |w.log| >= start && Promises(w.log, start) && w.clock == old(w.clock) && old(w.log) <= w.log
    ensures if raised then EndsRaising(w.log[start..], known) else Calm(w.log[start..])
    ensures forall s :: SentGroups(w.log[start..], s) == old(SentGroups(w.log[start..], s))
    ensures ListedGroups(w.log[start..], w.parse) == old(ListedGroups(w.log[start..], w.parse))
    ensures !raised ==>
              && active <= known && nowRetired == retired + (known - active)
              && Dead(w.log) == old(Dead(w.log)) + (known - active)
              && Dead(w.log[start..]) == old(Dead(w.log[start..])) + (known - active)
              && AllProbedAlive(active, w.log[start..])
              && forall g :: g in Alive(w.log[start..]) ==> g in old(Alive(w.log[start..])) || g in active
  {
    hide Promises, Dead, Alive, SentGroups, ListedGroups, Calm, EndsRaising, Pace, AllHeard;
    raised, active, nowRetired := false, {}, retired;
    var left := known;
    while left != {}
      invariant left <= known && active <= known - left && nowRetired == retired + (known - left - active)
      invariant start <= |w.log| && Promises(w.log, start) && w.clock == old(w.clock) && old(w.log) <= w.log
      invariant !raised && Calm(w.log[start..])
      invariant Pace(w.log[start..], handed, given, w.parse) == Round(deadline, active)
      invariant Dead(w.log) == old(Dead(w.log)) + (known - left - active)
      invariant Dead(w.log[start..]) == old(Dead(w.log[start..])) + (known - left - active)
      invariant AllProbedAlive(active, w.log[start..])
      invariant forall g :: g in Alive(w.log[start..]) ==> g in old(Alive(w.log[start..])) || g in active
      invariant forall s :: SentGroups(w.log[start..], s) == old(SentGroups(w.log[start..], s))
      invariant ListedGroups(w.log[start..], w.parse) == old(ListedGroups(w.log[start..], w.parse))
    {
      SomeGroup(left);
      var group :| group in left;
      left := left - {group};
      ghost var before := w.log;
      var alive: bool;
      alive, raised := w.ProcessGroupExists(group);
      PaceStep(before, start, if raised then Overflow(group) else Probe(group, alive), handed, given, w.parse);
      if raised {
        RaisingStep(before, start, Overflow(group), w.parse, known);
        return;
      }
      ProbeStep(before, start, group, alive, w.parse);
      if alive {
        active := active + {group};
      } else {
        nowRetired := nowRetired + {group};
      }
    }
  }

  lemma ProbeStep(log: Log, start: nat, group: int, alive: bool, parse: string -> Option<int>)
    requires start <= |log| && Promises(log, start) && Representable(group)
    ensures var next := log + [Probe(group, alive)];
            && Promises(next, start) && next[start..] == log[start..] + [Probe(group, alive)]
            && Dead(next) == Dead(log) + (if alive then {} else {group})
            && Dead(next[start..]) == Dead(log[start..]) + (if alive then {} else {group})
            && Alive(next[start..]) == Alive(log[start..]) + (if alive then {group} else {})
            && (forall s :: SentGroups(next[start..], s) == SentGroups(log[start..], s))
            && ListedGroups(next[start..], parse) == ListedGroups(log[start..], parse)
            && (Calm(log[start..]) ==> Calm(next[start..]))
  {
    hide NoSignalAfterDeath, TermOnce, SignalsEarned, Dead, Alive, SentGroups, ListedGroups, Calm, Fitting;
    var e := Probe(group, alive);
    KeepsPromises(log, start, e);
    Appended(log, e, start);
    Appended(log[start..], e, 0);
    FittingAppended(log[start..], e);
    if Calm(log[start..]) {
      CalmAppended(log[start..], e, {});
    }
    ListedAppended(log[start..], e, parse);
  }

  lemma ReadStep(log: Log, start: nat, file: PidFile, parse: string -> Option<int>)
    requires start <= |log| && Promises(log, start)
    ensures var next := log + [Read(file)];
            && Promises(next, start) && next[start..] == log[start..] + [Read(file)]
            && Dead(next) == Dead(log) && Dead(next[start..]) == Dead(log[start..])
            && Alive(next[start..]) == Alive(log[start..])
            && (forall s :: SentGroups(next[start..], s) == SentGroups(log[start..], s))
            && ListedGroups(next[start..], parse) == ListedGroups(log[start..], parse) + Groups(file, parse)
            && (Calm(log[start..]) ==> Calm(next[start..]))
  {
    hide NoSignalAfterDeath, TermOnce, SignalsEarned, Dead, Alive, SentGroups, ListedGroups, Groups, Calm, Fitting;
    var e := Read(file);
    KeepsPromises(log, start, e);
    Appended(log, e, start);
    Appended(log[start..], e, 0);
    FittingAppended(log[start..], e);
    if Calm(log[start..]) {
      CalmAppended(log[start..], e, {});
    }
    ListedAppended(log[start..], e, parse);
  }

  /** A raising event ends the log, and changes nothing else. */
  lemma RaisingStep(log: Log, start: nat, e: Event, parse: string -> Option<int>, groups: set<int>)
    requires start <= |log| && Promises(log, start) && Calm(log[start..])
    requires e.Refused? || (e.Overflow? && e.group in groups && !Representable(e.group))
    ensures var next := log + [e];
            && Promises(next, start) && next[start..] == log[start..] + [e] && EndsRaising(next[start..], groups)
            && (forall s :: SentGroups(next[start..], s) == SentGroups(log[start..], s))
            && Dead(next) == Dead(log) && Dead(next[start..]) == Dead(log[start..])
            && Alive(next[start..]) == Alive(log[start..])
            && ListedGroups(next[start..], parse) == ListedGroups(log[start..], parse)
  {
    hide NoSignalAfterDeath, TermOnce, SignalsEarned, Dead, Alive, SentGroups, ListedGroups, Calm, Fitting, EndsRaising;
    KeepsPromises(log, start, e);
    Appended(log, e, start);
    Appended(log[start..], e, 0);
    ListedAppended(log[start..], e, parse);
    FittingAppended(log[start..], e);
    CalmAppended(log[start..], e, groups);
  }

  lemma SentStep(log: Log, start: nat, group: int, sig: Signal, parse: string -> Option<int>)
    requires start <= |log| && Promises(log, start)
    requires group !in Dead(log) && Probe(group, true) in log[start..]
    requires sig == Kill <==> group in SentGroups(log[start..], Term)
    ensures var next := log + [Sent(group, sig)];
            && Promises(next, start) && next[start..] == log[start..] + [Sent(group, sig)]
            && Dead(next) == Dead(log) && Dead(next[start..]) == Dead(log[start..])
            && Alive(next[start..]) == Alive(log[start..])
            && (forall s :: SentGroups(next[start..], s) ==
                            SentGroups(log[start..], s) + (if s == sig then {group} else {}))
            && ListedGroups(next[start..], parse) == ListedGroups(log[start..], parse)
            && (Calm(log[start..]) ==> Calm(next[start..]))
  {
    hide NoSignalAfterDeath, TermOnce, SignalsEarned, Dead, Alive, SentGroups, ListedGroups, Calm, Fitting;
    var e := Sent(group, sig);
    KeepsPromises(log, start, e);
    Appended(log, e, start);
    Appended(log[start..], e, 0);
    FittingAppended(log[start..], e);
    if Calm(log[start..]) {
      CalmAppended(log[start..], e, {});
    }
    ListedAppended(log[start..], e, parse);
  }

  /** The requests to terminate, one to each target. */
  method TerminateAll(w: World, targets: set<int>, ghost start: nat, ghost handed: set<int>, ghost given: set<int>,
                      ghost deadline: nat, ghost heard: set<int>)
    returns (raised: bool)
    requires start <= |w.log| && Promises(w.log, start)
    requires targets !! Dead(w.log) && AllProbedAlive(targets, w.log[start..])
    requires targets !! SentGroups(w.log[start..], Term)
    requires Calm(w.log[start..])
    requires Pace(w.log[start..], handed, given, w.parse) == Round(deadline, heard) && targets <= heard
    modifies w
    ensures |w.log| >= start && Promises(w.log, start) && w.clock == old(w.clock)
    ensures Pace(w.log[start..], handed, given, w.parse) == if raised then Over else Round(deadline, heard)
    ensures Dead(w.log) == old(Dead(w.log)) && old(w.log) <= w.log
    ensures if raised then EndsRaising(w.log[start..], {}) else Calm(w.log[start..])
    ensures !raised ==> Dead(w.log[start..]) == old(Dead(w.log[start..]))
    ensures Alive(w.log[start..]) == old(Alive(w.log[start..]))
    ensures SentGroups(w.log[start..], Term) <= old(SentGroups(w.log[start..], Term)) + targets
    ensures !raised ==> SentGroups(w.log[start..], Term) == old(SentGroups(w.log[start..], Term)) + targets
    ensures SentGroups(w.log[start..], Kill) == old(SentGroups(w.log[start..], Kill))
    ensures ListedGroups(w.log[start..], w.parse) == old(ListedGroups(w.log[start..], w.parse))
  {
    hide Promises, Dead, Alive, SentGroups, ListedGroups, Calm, EndsRaising, Pace, AllHeard;
    raised := false;
    var left := targets;
    while left != {}
      invariant left <= targets && !raised
      invariant start <= |w.log| && Promises(w.log, start) && w.clock == old(w.clock)
      invariant Dead(w.log) == old(Dead(w.log)) && old(w.log) <= w.log && old(w.log)[start..] <= w.log[start..]
      invariant SentGroups(w.log[start..], Term) == old(SentGroups(w.log[start..], Term)) + (targets - left)
      invariant Pace(w.log[start..], handed, given, w.parse) == Round(deadline, heard)
      invariant Calm(w.log[start..])
      invariant Dead(w.log[start..]) == old(Dead(w.log[start..]))
      invariant Alive(w.log[start..]) == old(Alive(w.log[start..]))
      invariant SentGroups(w.log[start..], Kill) == old(SentGroups(w.log[start..], Kill))
      invariant ListedGroups(w.log[start..], w.parse) == old(ListedGroups(w.log[start..], w.parse))
    {
      SomeGroup(left);
      var group :| group in left;
      left := left - {group};
      ghost var before := w.log;
      assert Probe(group, true) in before[start..];
      raised := w.SignalProcessGroup(group, Term);
      SentStep(before, start, group, Term, w.parse);
      PaceStep(before, start, Sent(group, Term), handed, given, w.parse);
      if raised {
        PaceStep(before + [Sent(group, Term)], start, Refused, handed, given, w.parse);
        RaisingStep(before + [Sent(group, Term)], start, Refused, w.parse, {});
        return;
      }
    }
  }

  /** Only ids that fit have been asked to terminate. */
  lemma TermFits(log: Log, start: nat)
    requires start <= |log| && Promises(log, start)
    ensures forall g :: g in SentGroups(log[start..], Term) ==> Representable(g)
  {
    hide Representable;
    var part := log[start..];
    forall g | g in SentGroups(part, Term) ensures Representable(g) {
      var j :| 0 <= j < |part| && part[j] == Sent(g, Term);
      assert Probe(g, true) in part[..j] && forall e :: e in part[..j] ==> e in part;
    }
  }

  /** The kills after the deadline: each group is probed once more first. */
  method KillAll(w: World, known: set<int>, ghost start: nat, ghost handed: set<int>, ghost given: set<int>)
    returns (raised: bool)
    requires start <= |w.log| && Promises(w.log, start)
    requires known !! Dead(w.log) && known <= SentGroups(w.log[start..], Term)
    requires Calm(w.log[start..]) && Pace(w.log[start..], handed, given, w.parse).Late?
    modifies w
    ensures |w.log| >= start && Promises(w.log, start) && w.clock == old(w.clock) && old(w.log) <= w.log
    ensures var stage := Pace(w.log[start..], handed, given, w.parse); if raised then stage == Over else stage.Late?
    ensures SentGroups(w.log[start..], Term) == old(SentGroups(w.log[start..], Term))
    ensures ListedGroups(w.log[start..], w.parse) == old(ListedGroups(w.log[start..], w.parse))
    ensures SentGroups(w.log[start..], Kill) <= old(SentGroups(w.log[start..], Kill)) + known
    ensures old(Dead(w.log)) <= Dead(w.log)
    ensures old(Dead(w.log[start..])) <= Dead(w.log[start..])
    ensures if raised then EndsRaising(w.log[start..], {}) else Calm(w.log[start..])
    ensures forall g :: g in Alive(w.log[start..]) ==> g in old(Alive(w.log[start..])) || g in known
    ensures !raised ==> forall g :: g in known ==> g in Dead(w.log[start..]) || g in SentGroups(w.log[start..], Kill)
  {
    hide Promises, Dead, Alive, SentGroups, ListedGroups, Calm, EndsRaising, Representable, Pace, AllHeard;
    TermFits(w.log, start);
    raised := false;
    var left := known;
    while left != {}
      invariant left <= known && !raised
      invariant start <= |w.log| && Promises(w.log, start) && w.clock == old(w.clock) && old(w.log) <= w.log
      invariant left !! Dead(w.log) && old(Dead(w.log)) <= Dead(w.log)
      invariant Pace(w.log[start..], handed, given, w.parse).Late?
      invariant old(Dead(w.log[start..])) <= Dead(w.log[start..])
      invariant Calm(w.log[start..])
      invariant forall g :: g in Alive(w.log[start..]) ==> g in old(Alive(w.log[start..])) || g in known
      invariant SentGroups(w.log[start..], Term) == old(SentGroups(w.log[start..], Term))
      invariant ListedGroups(w.log[start..], w.parse) == old(ListedGroups(w.log[start..], w.parse))
      invariant SentGroups(w.log[start..], Kill) <= old(SentGroups(w.log[start..], Kill)) + known
      invariant forall g :: g in known - left ==> g in Dead(w.log[start..]) || g in SentGroups(w.log[start..], Kill)
    {
      SomeGroup(left);
      var group :| group in left;
      left := left - {group};
      ghost var before := w.log;
      var alive, overflowed := w.ProcessGroupExists(group);
      ProbeStep(before, start, group, alive, w.parse);
      PaceStep(before, start, Probe(group, alive), handed, given, w.parse);
      if alive {
        ghost var probed := w.log;
        raised := w.SignalProcessGroup(group, Kill);
        assert probed[start..][|probed[start..]| - 1] == Probe(group, true);
        SentStep(probed, start, group, Kill, w.parse);
        PaceStep(probed, start, Sent(group, Kill), handed, given, w.parse);
        if raised {
          PaceStep(probed + [Sent(group, Kill)], start, Refused, handed, given, w.parse);
          RaisingStep(probed + [Sent(group, Kill)], start, Refused, w.parse, {});
          return;
        }
      }
    }
  }

  /** Adding the listed groups that are not retired. */
  method AddListed(groups: set<int>, known: set<int>, retired: set<int>) returns (all: set<int>)
    ensures forall g :: g in all <==> g in known || (g in groups && g !in retired)
  {
    all := known;
    var left := groups;
    while left != {}
      invariant left <= groups
      invariant forall g :: g in all <==> g in known || (g in groups && g !in left && g !in retired)
    {
      SomeGroup(left);
      var group :| group in left;
      left := left - {group};
      if group !in retired {
        all := all + {group};
      }
    }
  }

  datatype Ending = Gone | TimedOut | Raised

  /** Where in a run the stop begins, and the known and retired groups it was handed. */
  datatype Stop = Stop(at: nat, handed: set<int>, given: set<int>)

  /** What holds between the rounds of a stop that was handed `handed` and `given` groups as known and retired. */
  predicate Stopping(log: Log, start: nat, known: set<int>, retired: set<int>, termSent: set<int>,
                     handed: set<int>, given: set<int>, parse: string -> Option<int>)
  {
    && start <= |log| && Promises(log, start) && Calm(log[start..])
    && (forall g :: g in Dead(log) ==> g in retired && g !in known)
    && (forall g :: g in given ==> g in retired)
    && (forall g :: g in retired ==> g in given || g in Dead(log[start..]))
    && termSent == SentGroups(log[start..], Term) && SentGroups(log[start..], Kill) == {}
    && (forall g :: g in Alive(log[start..]) ==> g in termSent)
    && (forall g :: g in Responsible(handed, given, log[start..], parse) ==> g in known || g in Dead(log[start..]))
    && (forall g :: g in known ==> g in Responsible(handed, given, log[start..], parse))
    && forall g :: g in known + termSent ==> g > 1 || g in handed
  }

  lemma StoppingReads(log: Log, start: nat, known: set<int>, retired: set<int>, termSent: set<int>,
                      handed: set<int>, given: set<int>, parse: string -> Option<int>, file: PidFile, all: set<int>)
    requires Stopping(log, start, known, retired, termSent, handed, given, parse)
    requires forall g :: g in all <==> g in known || (g in Groups(file, parse) && g !in retired)
    requires forall g :: g in Groups(file, parse) ==> g > 1
    ensures Stopping(log + [Read(file)], start, all, retired, termSent, handed, given, parse)
  {
    hide Promises, Dead, Alive, SentGroups, ListedGroups, Groups, Calm;
    ReadStep(log, start, file, parse);
  }

  lemma StoppingApart(log: Log, start: nat, known: set<int>, retired: set<int>, termSent: set<int>,
                      handed: set<int>, given: set<int>, parse: string -> Option<int>)
    requires Stopping(log, start, known, retired, termSent, handed, given, parse)
    ensures start <= |log| && Promises(log, start) && known !! Dead(log) && Calm(log[start..])
    ensures forall g :: g in Signalled(log[start..]) ==> g > 1 || g in handed
  {
    hide Promises, Dead, Alive, ListedGroups, Groups, SentGroups, Calm;
    assert forall g :: g in known ==> g !in Dead(log);
  }

  /** One round: read the pid file, probe what is known, and ask the newly active groups to terminate. */
  method StopRound(w: World, known: set<int>, retired: set<int>, termSent: set<int>,
                   ghost start: nat, ghost handed: set<int>, ghost given: set<int>, ghost deadline: nat)
    returns (raised: bool, active: set<int>, nowRetired: set<int>, nowSent: set<int>)
    requires Stopping(w.log, start, known, retired, termSent, handed, given, w.parse)
    requires Pace(w.log[start..], handed, given, w.parse) == Due(deadline)
    modifies w
    ensures old(w.log) <= w.log && w.clock == old(w.clock)
    ensures start <= |w.log| && Pace(w.log[start..], handed, given, w.parse) ==
              if raised then Over else Round(deadline, active)
    ensures !raised ==> Stopping(w.log, start, active, nowRetired, nowSent, handed, given, w.parse) && active <= nowSent
    ensures raised ==>
              && start <= |w.log| && Promises(w.log, start)
              && EndsRaising(w.log[start..], Responsible(handed, given, w.log[start..], w.parse))
              && forall g :: g in Signalled(w.log[start..]) ==> g > 1 || g in handed
  {
    hide Stopping, Promises, Dead, Alive, SentGroups, ListedGroups, Groups, Signalled, Calm, EndsRaising, Responsible;
    hide Pace, AllHeard;
    active, nowRetired, nowSent := known, retired, termSent;
    StoppingApart(w.log, start, known, retired, termSent, handed, given, w.parse);
    ghost var before := w.log;
    var groups := ReadProcessGroups(w);
    if groups.None? {
      PaceStep(before, start, Refused, handed, given, w.parse);
      RaisingStep(before, start, Refused, w.parse, Responsible(handed, given, before[start..], w.parse));
      SameResponsible(handed, given, before[start..], w.log[start..], w.parse);
      SameSignals(before[start..], w.log[start..]);
      return true, active, nowRetired, nowSent;
    }
    ghost var file :| w.log == before + [Read(file)] && groups.value == Groups(file, w.parse);
    var all := AddListed(groups.value, known, retired);
    StoppingReads(before, start, known, retired, termSent, handed, given, w.parse, file, all);
    PaceStep(before, start, Read(file), handed, given, w.parse);
    raised, active, nowRetired, nowSent := SignalRound(w, all, retired, termSent, start, handed, given, deadline);
  }

  lemma SameResponsible(handed: set<int>, given: set<int>, a: Log, b: Log, parse: string -> Option<int>)
    requires ListedGroups(a, parse) == ListedGroups(b, parse)
    ensures Responsible(handed, given, a, parse) == Responsible(handed, given, b, parse)
  {
    hide ListedGroups;
  }

  lemma MoreRaising(log: Log, some: set<int>, all: set<int>)
    requires EndsRaising(log, some) && forall g :: g in some ==> g in all
    ensures EndsRaising(log, all)
  {
    hide Calm;
  }

  lemma SameSignals(a: Log, b: Log)
    requires forall s :: SentGroups(a, s) == SentGroups(b, s)
    ensures Signalled(a) == Signalled(b)
  {
  }

  /** The second half of a round, from the probes on. */
  method SignalRound(w: World, known: set<int>, retired: set<int>, termSent: set<int>,
                     ghost start: nat, ghost handed: set<int>, ghost given: set<int>, ghost deadline: nat)
    returns (raised: bool, active: set<int>, nowRetired: set<int>, nowSent: set<int>)
    requires Stopping(w.log, start, known, retired, termSent, handed, given, w.parse)
    requires Pace(w.log[start..], handed, given, w.parse) == Round(deadline, {})
    modifies w
    ensures old(w.log) <= w.log && w.clock == old(w.clock)
    ensures start <= |w.log| && Pace(w.log[start..], handed, given, w.parse) ==
              if raised then Over else Round(deadline, active)
    ensures !raised ==> Stopping(w.log, start, active, nowRetired, nowSent, handed, given, w.parse) && active <= nowSent
    ensures raised ==>
              && start <= |w.log| && Promises(w.log, start)
              && EndsRaising(w.log[start..], Responsible(handed, given, w.log[start..], w.parse))
              && forall g :: g in Signalled(w.log[start..]) ==> g > 1 || g in handed
  {
    hide Promises, Dead, Alive, SentGroups, ListedGroups, Groups, EndsRaising, AllProbedAlive, Calm, Pace;
    StoppingApart(w.log, start, known, retired, termSent, handed, given, w.parse);
    ghost var before := w.log;
    raised, active, nowRetired := ProbeAll(w, known, retired, start, handed, given, deadline);
    nowSent := termSent;
    SameResponsible(handed, given, before[start..], w.log[start..], w.parse);
    if raised {
      MoreRaising(w.log[start..], known, Responsible(handed, given, w.log[start..], w.parse));
      return;
    }
    assert forall g :: g in active - termSent ==> g in active;
    FewerProbed(active, active - termSent, w.log[start..]);
    ghost var probed := w.log;
    raised := TerminateAll(w, active - termSent, start, handed, given, deadline, active);
    SameResponsible(handed, given, probed[start..], w.log[start..], w.parse);
    if raised {
      MoreRaising(w.log[start..], {}, Responsible(handed, given, w.log[start..], w.parse));
    } else {
      nowSent := termSent + (active - termSent);
    }
  }

  lemma FewerProbed(all: set<int>, some: set<int>, log: Log)
    requires AllProbedAlive(all, log) && some <= all
    ensures AllProbedAlive(some, log)
  {
  }

  /**
   * `stop_process_groups`. Whatever the system answers: no signal follows a probe that found the group dead, each
   * group is asked to terminate at most once and is only killed after that, and ids up to 1 are not signalled.
   * It raises, at once, exactly when the pid file or a signal is refused or an id that it is responsible for is no C
   * integer. Otherwise every group found alive has been asked to terminate; returning early means that every group was
   * found dead and none was killed; at the deadline every survivor has been killed. Its events keep a strict pace
   * (`Punctual`): rounds a tenth of a second apart while the clock shows less than ten seconds, then kills only.
   */
  method StopProcessGroups(w: World, knownGroups: set<int>, retiredGroups: set<int>) returns (ending: Ending)
    requires NoSignalAfterDeath(w.log)
    requires forall g :: g in Dead(w.log) ==> g in retiredGroups && g !in knownGroups
    modifies w
    ensures old(w.log) <= w.log && Promises(w.log, |old(w.log)|)
    ensures var part := w.log[|old(w.log)|..];
            var due := Responsible(knownGroups, retiredGroups, part, w.parse);
            && Punctual(part, knownGroups, retiredGroups, w.parse)
            && (forall g :: g in Signalled(part) ==> g > 1 || g in knownGroups)
            && (if ending == Raised then EndsRaising(part, due) else Calm(part))
            && (ending == Raised <==> Refused in part || Unrepresentable(due))
            && (ending != Raised ==> forall g :: g in Alive(part) ==> g in SentGroups(part, Term))
            && (ending == Gone ==> SentGroups(part, Kill) == {} && forall g :: g in due ==> g in Dead(part))
            && (ending == TimedOut ==>
                  && w.clock >= old(w.clock) + SHUTDOWN_TIMEOUT_MS
                  && forall g :: g in due ==> g in Dead(part) || g in SentGroups(part, Kill))
  {
    hide Promises, Dead, Alive, SentGroups, ListedGroups, Pace, Punctual, AllHeard;
    hide Stopping, Signalled, Calm, EndsRaising, Responsible, Unrepresentable;
    ghost var start := |w.log|;
    var known, retired, termSent := knownGroups, retiredGroups, {};
    StoppingStarts(w.log, known, retired, w.parse);
    var now := w.Monotonic();
    var deadline := now + SHUTDOWN_TIMEOUT_MS;
    Started(old(w.log), now, known, retired, w.parse);
    while true
      invariant old(w.log) <= w.log && w.clock >= now && deadline >= old(w.clock) + SHUTDOWN_TIMEOUT_MS
      invariant Stopping(w.log, start, known, retired, termSent, knownGroups, retiredGroups, w.parse)
      invariant Pace(w.log[start..], knownGroups, retiredGroups, w.parse) == Due(deadline)
      decreases deadline - w.clock
    {
      var raised: bool;
      raised, known, retired, termSent :=
        StopRound(w, known, retired, termSent, start, knownGroups, retiredGroups, deadline);
      PaceIsKept(w.log, start, knownGroups, retiredGroups, w.parse);
      if raised {
        RaisedBecause(w.log, start, Responsible(knownGroups, retiredGroups, w.log[start..], w.parse));
        return Raised;
      }
      if known == {} {
        StoppingApart(w.log, start, known, retired, termSent, knownGroups, retiredGroups, w.parse);
        StoppingGone(w.log, start, retired, termSent, knownGroups, retiredGroups, w.parse);
        return Gone;
      }
      ghost var before := w.log;
      now := w.Monotonic();
      ClockRead(before, start, known, retired, termSent, knownGroups, retiredGroups, w.parse, now, deadline);
      if now >= deadline {
        break;
      }
      w.Sleep(POLL_INTERVAL_MS);
      Rested(before + [Now(now)], start, known, retired, termSent, knownGroups, retiredGroups, w.parse, deadline);
    }
    var failed := KillKnown(w, known, retired, termSent, start, knownGroups, retiredGroups);
    PaceIsKept(w.log, start, knownGroups, retiredGroups, w.parse);
    ending := TimedOut;
    if failed {
      RaisedBecause(w.log, start, Responsible(knownGroups, retiredGroups, w.log[start..], w.parse));
      ending := Raised;
    }
  }

  lemma PaceIsKept(log: Log, start: nat, handed: set<int>, given: set<int>, parse: string -> Option<int>)
    requires start <= |log| && Pace(log[start..], handed, given, parse) != Broken
    ensures Pace(log[start..], handed, given, parse) != Unread ==> Punctual(log[start..], handed, given, parse)
  {
    hide Next, Punctual;
    if log[start..] != [] {
      PaceKept(log[start..], handed, given, parse);
    }
  }

  /** Readings of the clock and sleeps change nothing that a stop relies on. */
  lemma IdleStep(log: Log, start: nat, e: Event, known: set<int>, retired: set<int>, termSent: set<int>,
                 handed: set<int>, given: set<int>, parse: string -> Option<int>)
    requires Stopping(log, start, known, retired, termSent, handed, given, parse) && (e.Now? || e.Slept?)
    ensures Stopping(log + [e], start, known, retired, termSent, handed, given, parse)
  {
    hide NoSignalAfterDeath, TermOnce, SignalsEarned, Dead, Alive, SentGroups, ListedGroups, Calm, Fitting;
    KeepsPromises(log, start, e);
    Appended(log, e, start);
    Appended(log[start..], e, 0);
    FittingAppended(log[start..], e);
    CalmAppended(log[start..], e, {});
    ListedAppended(log[start..], e, parse);
  }

  lemma Started(log: Log, now: nat, known: set<int>, retired: set<int>, parse: string -> Option<int>)
    requires Stopping(log, |log|, known, retired, {}, known, retired, parse)
    ensures Stopping(log + [Now(now)], |log|, known, retired, {}, known, retired, parse)
    ensures Pace((log + [Now(now)])[|log|..], known, retired, parse) == Due(now + SHUTDOWN_TIMEOUT_MS)
  {
    hide Stopping;
    IdleStep(log, |log|, Now(now), known, retired, {}, known, retired, parse);
    PaceStep(log, |log|, Now(now), known, retired, parse);
    assert log[|log|..] == [];
  }

  /** The clock is read when some group answered in this round and every other was found dead. */
  lemma ClockRead(log: Log, start: nat, known: set<int>, retired: set<int>, termSent: set<int>,
                  handed: set<int>, given: set<int>, parse: string -> Option<int>, now: nat, deadline: nat)
    requires Stopping(log, start, known, retired, termSent, handed, given, parse) && known != {}
    requires Pace(log[start..], handed, given, parse) == Round(deadline, known)
    ensures Stopping(log + [Now(now)], start, known, retired, termSent, handed, given, parse)
    ensures Pace((log + [Now(now)])[start..], handed, given, parse) ==
              if now < deadline then Checked(deadline) else Late(deadline, {})
  {
    hide Pace, Promises, Responsible, Dead, Alive, SentGroups, ListedGroups;
    IdleStep(log, start, Now(now), known, retired, termSent, handed, given, parse);
    PaceStep(log, start, Now(now), handed, given, parse);
  }

  lemma Rested(log: Log, start: nat, known: set<int>, retired: set<int>, termSent: set<int>,
               handed: set<int>, given: set<int>, parse: string -> Option<int>, deadline: nat)
    requires Stopping(log, start, known, retired, termSent, handed, given, parse)
    requires Pace(log[start..], handed, given, parse) == Checked(deadline)
    ensures Stopping(log + [Slept(POLL_INTERVAL_MS)], start, known, retired, termSent, handed, given, parse)
    ensures Pace((log + [Slept(POLL_INTERVAL_MS)])[start..], handed, given, parse) == Due(deadline)
  {
    hide Pace, Stopping;
    assert start <= |log| by { StartWithin(log, start, known, retired, termSent, handed, given, parse); }
    IdleStep(log, start, Slept(POLL_INTERVAL_MS), known, retired, termSent, handed, given, parse);
    PaceStep(log, start, Slept(POLL_INTERVAL_MS), handed, given, parse);
  }

  lemma StartWithin(log: Log, start: nat, known: set<int>, retired: set<int>, termSent: set<int>,
                    handed: set<int>, given: set<int>, parse: string -> Option<int>)
    requires Stopping(log, start, known, retired, termSent, handed, given, parse)
    ensures start <= |log|
  {
  }

  /** A log that ends in a raising event holds the reason, and a calm log none. */
  lemma RaisedBecause(log: Log, start: nat, groups: set<int>)
    requires start <= |log| && EndsRaising(log[start..], groups)
    ensures Refused in log[start..] || Unrepresentable(groups)
  {
    hide Calm;
    var part := log[start..];
    assert part[|part| - 1] in part;
  }

  lemma NothingRaised(log: Log, groups: set<int>)
    requires Calm(log) && Fitting(log)
    requires forall g :: g in groups ==> g in Dead(log) || g in Alive(log)
    ensures Refused !in log && !Unrepresentable(groups)
  {
    DeadFit(log);
  }

  lemma StoppingStarts(log: Log, known: set<int>, retired: set<int>, parse: string -> Option<int>)
    requires NoSignalAfterDeath(log) && forall g :: g in Dead(log) ==> g in retired && g !in known
    ensures Stopping(log, |log|, known, retired, {}, known, retired, parse)
  {
    hide Promises, Dead, Alive, SentGroups, ListedGroups, Calm;
    StopStarts(log, parse);
  }

  lemma StoppingGone(log: Log, start: nat, retired: set<int>, termSent: set<int>,
                     handed: set<int>, given: set<int>, parse: string -> Option<int>)
    requires Stopping(log, start, {}, retired, termSent, handed, given, parse)
    ensures SentGroups(log[start..], Kill) == {}
    ensures forall g :: g in Alive(log[start..]) ==> g in SentGroups(log[start..], Term)
    ensures Refused !in log[start..] && !Unrepresentable(Responsible(handed, given, log[start..], parse))
    ensures Calm(log[start..])
    ensures forall g :: g in Responsible(handed, given, log[start..], parse) ==> g in Dead(log[start..])
  {
    hide Dead, Alive, SentGroups, ListedGroups, Responsible;
    hide Calm, Fitting, Unrepresentable, NoSignalAfterDeath, TermOnce, SignalsEarned;
    NothingRaised(log[start..], Responsible(handed, given, log[start..], parse));
  }

  /** The kills, at the end of a stop. */
  method KillKnown(w: World, known: set<int>, ghost retired: set<int>, ghost termSent: set<int>,
                   ghost start: nat, ghost handed: set<int>, ghost given: set<int>)
    returns (raised: bool)
    requires Stopping(w.log, start, known, retired, termSent, handed, given, w.parse) && known <= termSent
    requires Pace(w.log[start..], handed, given, w.parse).Late?
    modifies w
    ensures old(w.log) <= w.log && start <= |w.log| && Promises(w.log, start) && w.clock == old(w.clock)
    ensures var stage := Pace(w.log[start..], handed, given, w.parse); if raised then stage == Over else stage.Late?
    ensures forall g :: g in Signalled(w.log[start..]) ==> g > 1 || g in handed
    ensures if raised then EndsRaising(w.log[start..], Responsible(handed, given, w.log[start..], w.parse))
            else Calm(w.log[start..])
    ensures !raised ==>
              && Refused !in w.log[start..] && !Unrepresentable(Responsible(handed, given, w.log[start..], w.parse))
              && (forall g :: g in Alive(w.log[start..]) ==> g in SentGroups(w.log[start..], Term))
              && forall g :: g in Responsible(handed, given, w.log[start..], w.parse) ==>
                   g in Dead(w.log[start..]) || g in SentGroups(w.log[start..], Kill)
  {
    hide Promises, Dead, Alive, SentGroups, ListedGroups, EndsRaising, Calm, Unrepresentable, Fitting, Pace;
    StoppingApart(w.log, start, known, retired, termSent, handed, given, w.parse);
    ghost var before := w.log;
    raised := KillAll(w, known, start, handed, given);
    SameResponsible(handed, given, before[start..], w.log[start..], w.parse);
    if raised {
      MoreRaising(w.log[start..], {}, Responsible(handed, given, w.log[start..], w.parse));
    } else {
      SignalledFit(w.log, start, Responsible(handed, given, w.log[start..], w.parse));
    }
  }

  /** When nothing raised and every group was found dead or killed, every group fits. */
  lemma SignalledFit(log: Log, start: nat, groups: set<int>)
    requires start <= |log| && Promises(log, start) && Calm(log[start..])
    requires forall g :: g in groups ==> g in Dead(log[start..]) || g in SentGroups(log[start..], Kill)
    ensures Refused !in log[start..] && !Unrepresentable(groups)
  {
    var part := log[start..];
    forall g | g in groups ensures g in Dead(part) || g in Alive(part) {
      if g in SentGroups(part, Kill) {
        var j :| 0 <= j < |part| && part[j] == Sent(g, Kill);
        assert Probe(g, true) in part[..j] && forall e :: e in part[..j] ==> e in part;
      }
    }
    NothingRaised(part, groups);
  }

  lemma StopStarts(log: Log, parse: string -> Option<int>)
    requires NoSignalAfterDeath(log)
    ensures Promises(log, |log|)
    ensures (forall s :: SentGroups(log[|log|..], s) == {}) && ListedGroups(log[|log|..], parse) == {}
    ensures Alive(log[|log|..]) == {} && Dead(log[|log|..]) == {} && Calm(log[|log|..])
  {
    assert log[|log|..] == [];
  }

  // ---------- Watching ----------

  /** At the end of a round every listed group was found dead, or alive in this round. */
  predicate RoundDone(log: Log, parse: string -> Option<int>) {
    forall g :: g in ListedGroups(log, parse) ==> g in Dead(log) || g in Heard(log)
  }

  predicate StartsRound(e: Event) {
    e.Read? || e.Refused? || e.Now?
  }

  /** Every sleep asks for a tenth of a second, after a round that is done; behind it a new round starts or a stop. */
  predicate Rounds(log: Log, parse: string -> Option<int>) {
    && (forall j :: 0 <= j < |log| && log[j].Slept? ==> log[j].ms == 100 && RoundDone(log[..j], parse))
    && forall j :: 0 < j < |log| && log[j - 1].Slept? ==> StartsRound(log[j])
  }

  predicate Awake(log: Log) {
    log == [] || !log[|log| - 1].Slept?
  }

  lemma RoundsAppended(log: Log, e: Event, parse: string -> Option<int>)
    requires Rounds(log, parse) && (Awake(log) || StartsRound(e))
    requires e.Slept? ==> e.ms == 100 && RoundDone(log, parse)
    ensures Rounds(log + [e], parse) && (!e.Slept? ==> Awake(log + [e]))
  {
    hide RoundDone;
    var all := log + [e];
    assert forall j :: 0 <= j <= |log| ==> all[..j] == log[..j];
    assert log[..|log|] == log;
  }

  lemma {:induction false} HeardLater(a: Log, b: Log)
    ensures forall g :: g in Heard(b) ==> g in Heard(a + b)
  {
    if b != [] {
      HeardLater(a, b[..|b| - 1]);
      assert (a + b)[..|a + b| - 1] == a + b[..|b| - 1];
    }
  }

  /** The rounds of a stop are rounds of the whole run. */
  lemma {:induction false} StopRounds(a: Log, b: Log, known: set<int>, retired: set<int>, parse: string -> Option<int>)
    requires Rounds(a, parse) && Punctual(b, known, retired, parse)
    requires forall g :: g in known ==> Representable(g)
    requires forall g :: g in retired ==> g in Dead(a) && Representable(g)
    requires forall g :: g in ListedGroups(a, parse) ==> g in known || g in retired
    ensures Rounds(a + b, parse)
  {
    hide RoundDone, ListedGroups, Dead, Heard, Responsible, Expired;
    var all := a + b;
    forall j | 0 <= j < |all| && all[j].Slept? ensures all[j].ms == 100 && RoundDone(all[..j], parse) {
      if j < |a| {
        assert all[..j] == a[..j];
      } else {
        var i := j - |a|;
        assert all[..j] == a + b[..i] && b[i] == all[j];
        assert InPlace(b, i, known, retired, parse) && InPlace(b, i - 1, known, retired, parse);
        assert b[..i] == b[..i - 1] + [b[i - 1]];
        StopRoundDone(a, b[..i - 1], b[i - 1], known, retired, parse);
      }
    }
    forall j | 0 < j < |all| && all[j - 1].Slept? ensures StartsRound(all[j]) {
      if j > |a| {
        assert InPlace(b, j - |a|, known, retired, parse);
      } else if j < |a| {
        assert all[j] == a[j] && all[j - 1] == a[j - 1];
      }
    }
  }

  lemma StopRoundDone(a: Log, b: Log, e: Event, known: set<int>, retired: set<int>, parse: string -> Option<int>)
    requires e.Now? && AllHeard(b, Heard(b), known, retired, parse)
    requires forall g :: g in known ==> Representable(g)
    requires forall g :: g in retired ==> g in Dead(a) && Representable(g)
    requires forall g :: g in ListedGroups(a, parse) ==> g in known || g in retired
    ensures RoundDone(a + (b + [e]), parse)
  {
    hide ListedGroups, Dead, Heard, Responsible;
    StopAccounts(a, b, known, retired, parse);
    assert a + (b + [e]) == a + b + [e];
    ListedAppended(a + b, e, parse);
    Appended(a + b, e, 0);
    HeardStep(a + b, e);
    HeardLater(a, b);
    PartDead(a, b);
    DeadGrows(a, a + b);
  }

  /** Nothing was signalled and nothing raised. */
  predicate Quiet(log: Log) {
    NoSignalAfterDeath(log) && Signalled(log) == {} && Calm(log) && Fitting(log)
  }

  lemma QuietAppended(log: Log, e: Event)
    requires Quiet(log) && !e.Sent? && !e.Refused? && !e.Overflow? && (e.Probe? ==> Representable(e.group))
    ensures Quiet(log + [e])
  {
    hide Dead, SentGroups, NoSignalAfterDeath, TermOnce, SignalsEarned, Calm, Fitting, Representable;
    Appended(log, e, |log|);
    PromisesFromNothing(log);
    KeepsPromises(log, |log|, e);
    CalmAppended(log, e, {});
    FittingAppended(log, e);
  }

  lemma PromisesFromNothing(log: Log)
    ensures TermOnce(log[|log|..]) && SignalsEarned(log[|log|..])
  {
    assert log[|log|..] == [];
  }

  /** What the watcher knows before it stops anything: every listed group is known or retired, by its last probe. */
  predicate Watching(log: Log, known: set<int>, retired: set<int>, parse: string -> Option<int>) {
    && Quiet(log)
    && retired == Dead(log) && known !! retired
    && (forall g :: g in ListedGroups(log, parse) ==> g in known || g in retired)
    && forall g :: g in known ==> g > 1 && Representable(g)
  }

  lemma WatchProbes(log: Log, known: set<int>, retired: set<int>, parse: string -> Option<int>, group: int, alive: bool)
    requires Watching(log, known, retired, parse) && group !in retired && group > 1 && Representable(group)
    ensures Watching(log + [Probe(group, alive)],
                     if alive then known + {group} else known - {group},
                     if alive then retired else retired + {group}, parse)
  {
    hide Dead, ListedGroups, Quiet;
    var e := Probe(group, alive);
    Appended(log, e, |log|);
    ListedAppended(log, e, parse);
    QuietAppended(log, e);
  }

  /** The groups listed for the first time are probed once; an id that overflows ends it. */
  method WatchListed(w: World, groups: set<int>, known: set<int>, retired: set<int>)
    returns (raised: bool, nowKnown: set<int>, nowRetired: set<int>)
    requires forall g :: g in groups ==> g > 1 && g in ListedGroups(w.log, w.parse)
    requires forall g :: g in ListedGroups(w.log, w.parse) ==> g in known || g in retired || g in groups
    requires Quiet(w.log)
    requires retired == Dead(w.log) && known !! retired && forall g :: g in known ==> g > 1 && Representable(g)
    requires Rounds(w.log, w.parse) && Awake(w.log)
    modifies w
    ensures Rounds(w.log, w.parse) && Awake(w.log) && (forall e :: e in w.log && e.Now? ==> e in old(w.log))
    ensures !raised ==> Watching(w.log, nowKnown, nowRetired, w.parse)
    ensures raised ==>
              && NoSignalAfterDeath(w.log) && TermOnce(w.log) && SignalsEarned(w.log) && Signalled(w.log) == {}
              && EndsRaising(w.log, ListedGroups(w.log, w.parse))
  {
    hide Dead, SentGroups, ListedGroups, NoSignalAfterDeath, Signalled;
    hide Quiet, Representable, EndsRaising, TermOnce, SignalsEarned, Rounds, Awake;
    raised, nowKnown, nowRetired := false, known, retired;
    var left := groups;
    while left != {}
      invariant left <= groups && !raised && Quiet(w.log)
      invariant Rounds(w.log, w.parse) && Awake(w.log) && forall e :: e in w.log && e.Now? ==> e in old(w.log)
      invariant ListedGroups(w.log, w.parse) == old(ListedGroups(w.log, w.parse))
      invariant nowRetired == Dead(w.log) && nowKnown !! nowRetired
      invariant forall g :: g in nowKnown ==> g > 1 && Representable(g)
      invariant forall g :: g in ListedGroups(w.log, w.parse) ==> g in nowKnown || g in nowRetired || g in left
    {
      SomeGroup(left);
      var group :| group in left;
      left := left - {group};
      if group !in nowKnown && group !in nowRetired {
        ghost var before := w.log;
        var alive: bool;
        alive, raised := w.ProcessGroupExists(group);
        RoundsAppended(before, if raised then Overflow(group) else Probe(group, alive), w.parse);
        if raised {
          WatchRaises(before, Overflow(group), ListedGroups(before, w.parse), w.parse);
          return;
        }
        WatchStep(before, group, alive, w.parse);
        if alive {
          nowKnown := nowKnown + {group};
        } else {
          nowRetired := nowRetired + {group};
        }
      }
    }
  }

  lemma WatchStep(log: Log, group: int, alive: bool, parse: string -> Option<int>)
    requires Quiet(log) && Representable(group)
    ensures var next := log + [Probe(group, alive)];
            && Quiet(next)
            && Dead(next) == Dead(log) + (if alive then {} else {group})
            && ListedGroups(next, parse) == ListedGroups(log, parse)
  {
    hide Dead, ListedGroups, Quiet, Representable;
    var e := Probe(group, alive);
    Appended(log, e, |log|);
    ListedAppended(log, e, parse);
    QuietAppended(log, e);
  }

  lemma WatchRaises(log: Log, e: Event, groups: set<int>, parse: string -> Option<int>)
    requires Quiet(log) && (e.Refused? || (e.Overflow? && e.group in groups && !Representable(e.group)))
    ensures var next := log + [e];
            && NoSignalAfterDeath(next) && TermOnce(next) && SignalsEarned(next) && Signalled(next) == {}
            && EndsRaising(next, groups) && ListedGroups(next, parse) == ListedGroups(log, parse)
  {
    hide Dead, ListedGroups, NoSignalAfterDeath, Calm, Fitting, Representable;
    QuietUnsignalled(log);
    assert log[0..] == log && (log + [e])[0..] == log + [e];
    KeepsPromises(log, 0, e);
    Appended(log, e, 0);
    ListedAppended(log, e, parse);
    CalmAppended(log, e, groups);
  }

  lemma QuietUnsignalled(log: Log)
    requires Quiet(log)
    ensures NoSignalAfterDeath(log) && TermOnce(log) && SignalsEarned(log)
  {
    SentAreSignalled(log);
  }

  /** A dead known group moves to the retired ones. */
  method WatchKnown(w: World, known: set<int>, retired: set<int>) returns (nowKnown: set<int>, nowRetired: set<int>)
    requires Watching(w.log, known, retired, w.parse)
    requires Rounds(w.log, w.parse) && Awake(w.log)
    modifies w
    ensures Rounds(w.log, w.parse) && Awake(w.log) && RoundDone(w.log, w.parse)
    ensures forall e :: e in w.log && e.Now? ==> e in old(w.log)
    ensures Watching(w.log, nowKnown, nowRetired, w.parse)
  {
    hide Watching, Representable, Rounds, Awake, RoundDone, Heard;
    nowKnown, nowRetired := known, retired;
    var left := known;
    WatchingKnown(w.log, known, retired, w.parse);
    while left != {}
      invariant left <= nowKnown && Watching(w.log, nowKnown, nowRetired, w.parse)
      invariant Rounds(w.log, w.parse) && Awake(w.log) && forall e :: e in w.log && e.Now? ==> e in old(w.log)
      invariant forall g :: g in nowKnown ==> g in left || g in Heard(w.log)
      invariant forall g :: g in nowKnown ==> g > 1 && g !in nowRetired && Representable(g)
    {
      SomeGroup(left);
      var group :| group in left;
      left := left - {group};
      ghost var before := w.log;
      var alive, overflowed := w.ProcessGroupExists(group);
      WatchProbes(before, nowKnown, nowRetired, w.parse, group, alive);
      RoundsAppended(before, Probe(group, alive), w.parse);
      HeardStep(before, Probe(group, alive));
      if alive {
        assert nowKnown + {group} == nowKnown;
      } else {
        nowKnown := nowKnown - {group};
        nowRetired := nowRetired + {group};
      }
    }
    KnownHeard(w.log, nowKnown, nowRetired, w.parse);
  }

  lemma KnownHeard(log: Log, known: set<int>, retired: set<int>, parse: string -> Option<int>)
    requires Watching(log, known, retired, parse) && forall g :: g in known ==> g in Heard(log)
    ensures RoundDone(log, parse)
  {
    hide Quiet, ListedGroups, Heard;
  }

  /** Sleeping changes nothing that the watcher relies on. */
  lemma WatchSleeps(log: Log, known: set<int>, retired: set<int>, parse: string -> Option<int>, ms: nat)
    requires Watching(log, known, retired, parse)
    ensures Watching(log + [Slept(ms)], known, retired, parse)
  {
    hide Dead, ListedGroups, Quiet, Representable;
    Appended(log, Slept(ms), |log|);
    ListedAppended(log, Slept(ms), parse);
    QuietAppended(log, Slept(ms));
  }

  lemma WatchingKnown(log: Log, known: set<int>, retired: set<int>, parse: string -> Option<int>)
    requires Watching(log, known, retired, parse)
    ensures forall g :: g in known ==> g > 1 && g !in retired && Representable(g)
  {
  }

  lemma SentAreSignalled(log: Log)
    ensures forall e :: e in log && e.Sent? ==> e.group in Signalled(log)
  {
    forall e | e in log && e.Sent? ensures e.group in Signalled(log) {
      assert e.sig == Term || e.sig == Kill;
    }
  }

  lemma DeadGrows(a: Log, b: Log)
    requires a <= b
    ensures forall g :: g in Dead(a) ==> g in Dead(b)
  {
    assert forall e :: e in a ==> e in b;
  }

  /** The promises of the part after a quiet start are promises of the whole. */
  lemma QuietStart(log: Log, start: nat, parse: string -> Option<int>)
    requires start <= |log| && Promises(log, start) && Signalled(log[..start]) == {}
    ensures TermOnce(log) && SignalsEarned(log)
    ensures Signalled(log) == Signalled(log[start..])
    ensures SentGroups(log, Kill) == SentGroups(log[start..], Kill)
    ensures ListedGroups(log, parse) == ListedGroups(log[..start], parse) + ListedGroups(log[start..], parse)
  {
    var part := log[start..];
    assert log == log[..start] + part;
    SentAreSignalled(log[..start]);
    assert forall i :: 0 <= i < start ==> log[i] == log[..start][i] && !log[i].Sent?;
    assert TermOnce(log) by {
      forall i, j | 0 <= i < j < |log| && log[i].Sent? && log[i].sig == Term ensures log[j] != log[i] {
        assert part[i - start] == log[i];
      }
    }
    assert SignalsEarned(log) by {
      forall j | 0 <= j < |log| && log[j].Sent?
        ensures Probe(log[j].group, true) in log[..j] && (log[j].sig == Kill ==> Sent(log[j].group, Term) in log[..j])
      {
        assert log[..j] == log[..start] + part[..j - start];
      }
    }
    assert forall s :: SentGroups(log, s) == SentGroups(log[start..], s);
    ListedParts(log[..start], part, parse);
  }

  lemma ListedParts(a: Log, b: Log, parse: string -> Option<int>)
    ensures ListedGroups(a + b, parse) == ListedGroups(a, parse) + ListedGroups(b, parse)
  {
    hide Groups;
    forall g | g in ListedGroups(a, parse) + ListedGroups(b, parse) ensures g in ListedGroups(a + b, parse) {
      var e :| (e in a || e in b) && e.Read? && g in Groups(e.file, parse);
      assert e in a + b;
    }
  }

  /**
   * `watch_parent` from its start, through any number of rounds until the parent is gone or a stop is asked for.
   * Over the whole run no group is signalled after a probe found it dead; each is asked to terminate at most once,
   * killed only after that, and only after answering a probe. It raises exactly when the pid file or a signal is
   * refused or an id is listed that is no C integer; when it ends early otherwise, every group that the pid file ever
   * listed was found dead. In every round of watching and stopping each listed group is found dead or alive anew
   * before the next sleep of a tenth of a second.
   */
  method WatchParent(w: World, rounds: nat) returns (ending: Ending, ghost stop: Option<Stop>)
    requires w.log == []
    modifies w
    ensures NoSignalAfterDeath(w.log) && TermOnce(w.log) && SignalsEarned(w.log)
    ensures forall g :: g in Signalled(w.log) ==> g > 1
    ensures if ending == Raised then EndsRaising(w.log, ListedGroups(w.log, w.parse)) else Calm(w.log)
    ensures ending == Raised <==> Refused in w.log || Unrepresentable(ListedGroups(w.log, w.parse))
    ensures ending == Gone ==> forall g :: g in ListedGroups(w.log, w.parse) ==> g in Dead(w.log)
    ensures ending == TimedOut ==>
              forall g :: g in ListedGroups(w.log, w.parse) ==> g in Dead(w.log) || g in SentGroups(w.log, Kill)
    ensures Rounds(w.log, w.parse)
    ensures match stop
            case None => ending == Raised && forall e :: e in w.log ==> !e.Now?
            case Some(Stop(at, handed, given)) =>
              && at <= |w.log| && (forall e :: e in w.log[..at] ==> !e.Now?)
              && Punctual(w.log[at..], handed, given, w.parse)
  {
    hide Watching, NoSignalAfterDeath, TermOnce, SignalsEarned, Dead, ListedGroups, SentGroups, Signalled, Promises;
    hide Calm, EndsRaising, Unrepresentable, Quiet, Representable, Responsible, Rounds, Awake, Punctual, RoundDone;
    var known, retired: set<int> := {}, {};
    stop := None;
    NothingWatched(w.parse);
    for round := 0 to rounds
      invariant Watching(w.log, known, retired, w.parse)
      invariant Rounds(w.log, w.parse) && forall e :: e in w.log ==> !e.Now?
    {
      ghost var before := w.log;
      var groups := ReadProcessGroups(w);
      WatchedQuietly(before, known, retired, w.parse);
      if groups.None? {
        RoundsAppended(before, Refused, w.parse);
        WatchRaises(before, Refused, ListedGroups(w.log, w.parse), w.parse);
        WatchRaised(w.log, ListedGroups(w.log, w.parse));
        return Raised, None;
      }
      ghost var file :| w.log == before + [Read(file)] && groups.value == Groups(file, w.parse);
      WatchReads(before, known, retired, w.parse, file);
      RoundsAppended(before, Read(file), w.parse);
      var raised: bool;
      raised, known, retired := WatchListed(w, groups.value, known, retired);
      if raised {
        WatchRaised(w.log, ListedGroups(w.log, w.parse));
        return Raised, None;
      }
      known, retired := WatchKnown(w, known, retired);
      RoundsAppended(w.log, Slept(POLL_INTERVAL_MS), w.parse);
      WatchSleeps(w.log, known, retired, w.parse, POLL_INTERVAL_MS);
      w.Sleep(POLL_INTERVAL_MS);
    }
    WatchedQuietly(w.log, known, retired, w.parse);
    ghost var start := |w.log|;
    ghost var watched := w.log;
    ending := StopProcessGroups(w, known, retired);
    stop := Some(Stop(start, known, retired));
    ghost var part := w.log[start..];
    assert w.log[..start] == watched && w.log == watched + part;
    QuietStart(w.log, start, w.parse);
    StopKeepsSafety(w.log, start);
    DeadGrows(watched, w.log);
    PartDead(watched, part);
    StopAccounts(watched, part, known, retired, w.parse);
    StopRounds(watched, part, known, retired, w.parse);
    WholeRaising(watched, part, Responsible(known, retired, part, w.parse), ListedGroups(w.log, w.parse));
  }

  lemma WatchRaised(log: Log, groups: set<int>)
    requires EndsRaising(log, groups)
    ensures Refused in log || Unrepresentable(groups)
  {
    assert log[0..] == log;
    RaisedBecause(log, 0, groups);
  }

  lemma PartDead(a: Log, b: Log)
    ensures forall g :: g in Dead(b) ==> g in Dead(a + b)
  {
    assert forall e :: e in b ==> e in a + b;
  }

  /** What the whole log lists is what a stop is responsible for, up to groups that the watcher saw and that fit. */
  lemma StopAccounts(a: Log, b: Log, known: set<int>, retired: set<int>, parse: string -> Option<int>)
    requires forall g :: g in known ==> Representable(g)
    requires forall g :: g in retired ==> g in Dead(a) && Representable(g)
    requires forall g :: g in ListedGroups(a, parse) ==> g in known || g in retired
    ensures Unrepresentable(Responsible(known, retired, b, parse)) <==> Unrepresentable(ListedGroups(a + b, parse))
    ensures forall g :: g in Responsible(known, retired, b, parse) && !Representable(g) ==>
          g in ListedGroups(a + b, parse)
    ensures forall g :: g in ListedGroups(a + b, parse) ==> g in Responsible(known, retired, b, parse) || g in Dead(a)
  {
    hide ListedGroups, Representable, Dead;
    ListedParts(a, b, parse);
  }

  /** How the stop ended is how the whole run ended. */
  lemma WholeRaising(a: Log, b: Log, some: set<int>, all: set<int>)
    requires Calm(a) && forall g :: g in some && !Representable(g) ==> g in all
    ensures EndsRaising(b, some) ==> EndsRaising(a + b, all)
    ensures Calm(b) ==> Calm(a + b)
    ensures Refused in a + b <==> Refused in b
  {
    hide Representable;
    if b != [] {
      assert (a + b)[..|a + b| - 1] == a + b[..|b| - 1];
    }
  }

  lemma NothingWatched(parse: string -> Option<int>)
    ensures Watching([], {}, {}, parse) && Rounds([], parse)
  {
  }

  lemma StopKeepsSafety(log: Log, start: nat)
    requires start <= |log| && Promises(log, start)
    ensures NoSignalAfterDeath(log)
  {
  }

  lemma WatchReads(log: Log, known: set<int>, retired: set<int>, parse: string -> Option<int>, file: PidFile)
    requires Watching(log, known, retired, parse)
    ensures var next := log + [Read(file)];
            && Quiet(next)
            && retired == Dead(next) && known !! retired && (forall g :: g in known ==> g > 1 && Representable(g))
            && (forall g :: g in Groups(file, parse) ==> g in ListedGroups(next, parse))
            && forall g :: g in ListedGroups(next, parse) ==> g in known || g in retired || g in Groups(file, parse)
  {
    hide Dead, ListedGroups, Groups, Quiet, Representable;
    var e := Read(file);
    Appended(log, e, |log|);
    ListedAppended(log, e, parse);
    QuietAppended(log, e);
  }

  lemma WatchedQuietly(log: Log, known: set<int>, retired: set<int>, parse: string -> Option<int>)
    requires Watching(log, known, retired, parse)
    ensures Quiet(log) && Signalled(log) == {} && Calm(log)
    ensures NoSignalAfterDeath(log) && TermOnce(log) && SignalsEarned(log)
    ensures forall g :: g in Dead(log) ==> g in retired && g !in known
    ensures forall g :: g in retired ==> g in Dead(log) && Representable(g)
    ensures forall g :: g in known ==> g > 1 && Representable(g)
    ensures forall g :: g in ListedGroups(log, parse) ==> g in known || g in retired
  {
    hide Dead, ListedGroups, Representable, Fitting, Calm, NoSignalAfterDeath;
    QuietUnsignalled(log);
    DeadFit(log);
  }

  /** One line of a pid file is enough: an id beyond 2^31 - 1, and no other, makes every stop that reads it raise. */
  lemma LargeIdListed(line: string, parse: string -> Option<int>)
    requires parse(line).Some?
    ensures Unrepresentable(Groups(Lines([line]), parse)) <==> parse(line).value > 2147483647
  {
    assert line in Lines([line]).lines;
    if parse(line).value > 1 {
      assert parse(line).value in Groups(Lines([line]), parse);
    }
  }
}
