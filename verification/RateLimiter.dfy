/** The fixed-window rate limiter, and what it guarantees over whole runs. Times are in nanoseconds. */
module RateLimiter {

  const SECOND := 1_000_000_000
  /** The zero `time.Time`, relative to the Unix epoch. */
  const ZERO_TIME := -62_135_596_800 * SECOND

  datatype State = State(count: int, windowStart: int)

  datatype Decision = Decision(time: int, allowed: bool)

  function Decide(s: State, now: int, limit: int, window: int): (State, bool) {
    if now - s.windowStart >= window then (State(1, now), true)
    else (State(s.count + 1, s.windowStart), s.count + 1 <= limit)
  }

  /** The state after requests at the given times, and the decisions taken. */
  function Run(created: int, times: seq<int>, limit: int, window: int): (State, seq<Decision>) {
    if times == [] then (State(0, created), [])
    else
      var (s, decisions) := Run(created, times[..|times| - 1], limit, window);
      var now := times[|times| - 1];
      var (next, allowed) := Decide(s, now, limit, window);
      (next, decisions + [Decision(now, allowed)])
  }

  /** The clock does not run backwards. */
  predicate Monotone(created: int, times: seq<int>) {
    && (forall i :: 0 <= i < |times| ==> created <= times[i])
    && forall i, j :: 0 <= i < j < |times| ==> times[i] <= times[j]
  }

  /** How many requests were allowed in the half-open interval `[from, to)`. */
  function Allowed(decisions: seq<Decision>, from: int, to: int): nat {
    if decisions == [] then 0
    else
      var d := decisions[|decisions| - 1];
      Allowed(decisions[..|decisions| - 1], from, to) + if d.allowed && from <= d.time < to then 1 else 0
  }

  function AllowedDuring(decisions: seq<Decision>, from: int, window: int): nat {
    Allowed(decisions, from, from + window)
  }

  lemma AllowedSnoc(decisions: seq<Decision>, d: Decision)
    ensures forall from, to :: Allowed(decisions + [d], from, to) ==
              Allowed(decisions, from, to) + if d.allowed && from <= d.time < to then 1 else 0
  {
    assert (decisions + [d])[..|decisions|] == decisions;
  }

  lemma {:induction false} AllowedSplit(decisions: seq<Decision>, from: int, mid: int, to: int)
    requires from <= mid <= to
    ensures Allowed(decisions, from, to) == Allowed(decisions, from, mid) + Allowed(decisions, mid, to)
  {
    if decisions != [] {
      AllowedSplit(decisions[..|decisions| - 1], from, mid, to);
    }
  }

  lemma {:induction false} AllowedWithin(decisions: seq<Decision>, from: int, to: int, a: int, b: int)
    requires a <= from && forall d :: d in decisions ==> d.time < b
    ensures Allowed(decisions, from, to) <= Allowed(decisions, a, b)
    ensures from >= b ==> Allowed(decisions, from, to) == 0
    ensures to >= b ==> Allowed(decisions, from, to) == Allowed(decisions, from, b)
  {
    if decisions != [] {
      AllowedWithin(decisions[..|decisions| - 1], from, to, a, b);
    }
  }

  function AtLeastOne(limit: int): nat {
    if limit < 1 then 1 else limit
  }

  /**
   * What holds after every request: all decisions lie before the end of the current window, the current window has
   * allowed what its count says, and the stretch of one window before it has allowed at most a limit's worth.
   */
  ghost predicate Inv(s: State, decisions: seq<Decision>, limit: int, window: int) {
    var end := s.windowStart + window;
    && s.count >= 0
    && (forall d :: d in decisions ==> d.time < end)
    && Allowed(decisions, s.windowStart, end) <= AtLeastOne(limit)
    && (s.count <= limit ==> Allowed(decisions, s.windowStart, end) == s.count)
    && (limit >= 1 && s.count > limit ==> Allowed(decisions, s.windowStart, end) == limit)
    && (forall from :: from >= s.windowStart - window ==>
          Allowed(decisions, from, s.windowStart) <= AtLeastOne(limit))
    && forall from :: AllowedDuring(decisions, from, window) <= 2 * AtLeastOne(limit)
  }

  lemma {:induction false} NewWindowKeepsInv(s: State, decisions: seq<Decision>, now: int, limit: int, window: int)
    requires window > 0 && Inv(s, decisions, limit, window) && now - s.windowStart >= window
    ensures Inv(State(1, now), decisions + [Decision(now, true)], limit, window)
  {
    var end := s.windowStart + window;
    var all := decisions + [Decision(now, true)];
    AllowedSnoc(decisions, Decision(now, true));
    AllowedWithin(decisions, now, now + window, s.windowStart, end);
    assert Allowed(all, now, now + window) == 1;
    forall from | from >= now - window ensures Allowed(all, from, now) <= AtLeastOne(limit) {
      AllowedWithin(decisions, from, now, s.windowStart, end);
    }
    forall from ensures AllowedDuring(all, from, window) <= 2 * AtLeastOne(limit) {
      assert AllowedDuring(decisions, from, window) <= 2 * AtLeastOne(limit);
      if from <= now < from + window {
        AllowedWithin(decisions, from, from + window, s.windowStart, end);
      }
    }
  }

  lemma {:induction false} SameWindowKeepsInv(s: State, decisions: seq<Decision>, now: int, limit: int, window: int)
    requires window > 0 && Inv(s, decisions, limit, window) && s.windowStart <= now < s.windowStart + window
    ensures Inv(State(s.count + 1, s.windowStart), decisions + [Decision(now, s.count + 1 <= limit)], limit, window)
  {
    var end := s.windowStart + window;
    var d := Decision(now, s.count + 1 <= limit);
    var all := decisions + [d];
    AllowedSnoc(decisions, d);
    forall from | from >= s.windowStart - window ensures Allowed(all, from, s.windowStart) <= AtLeastOne(limit) {
    }
    forall from ensures AllowedDuring(all, from, window) <= 2 * AtLeastOne(limit) {
      assert AllowedDuring(decisions, from, window) <= 2 * AtLeastOne(limit);
      if d.allowed && from <= now < from + window {
        if from >= s.windowStart {
          AllowedWithin(decisions, from, from + window, s.windowStart, end);
        } else {
          AllowedSplit(decisions, from, s.windowStart, from + window);
          AllowedWithin(decisions, s.windowStart, from + window, s.windowStart, end);
        }
      }
    }
  }

  lemma {:induction false} RunKeepsInv(created: int, times: seq<int>, limit: int, window: int)
    requires window > 0 && Monotone(created, times)
    ensures var (s, decisions) := Run(created, times, limit, window);
            && Inv(s, decisions, limit, window) && created <= s.windowStart
            && (times != [] ==> s.windowStart <= times[|times| - 1])
            && (times == [] ==> s.windowStart == created)
  {
    hide Inv;
    if times == [] {
      assert Inv(State(0, created), [], limit, window) by { FreshInv(created, limit, window); }
    } else {
      var front, now := times[..|times| - 1], times[|times| - 1];
      RunKeepsInv(created, front, limit, window);
      var (s, decisions) := Run(created, front, limit, window);
      if now - s.windowStart >= window {
        NewWindowKeepsInv(s, decisions, now, limit, window);
      } else {
        SameWindowKeepsInv(s, decisions, now, limit, window);
      }
    }
  }

  lemma FreshInv(created: int, limit: int, window: int)
    ensures window > 0 ==> Inv(State(0, created), [], limit, window)
  {
  }

  /** With a limit below one only the first request of a new window passes. */
  ghost predicate InvBelowOne(s: State, decisions: seq<Decision>, window: int) {
    && s.count >= 0
    && (forall d :: d in decisions && d.allowed ==> d.time <= s.windowStart)
    && forall from :: AllowedDuring(decisions, from, window) <= 1
  }

  lemma {:induction false} NoneAllowed(decisions: seq<Decision>, from: int, to: int)
    requires forall d :: d in decisions && d.allowed ==> d.time < from
    ensures Allowed(decisions, from, to) == 0
  {
    if decisions != [] {
      NoneAllowed(decisions[..|decisions| - 1], from, to);
    }
  }

  lemma {:induction false} BelowOneStep(s: State, decisions: seq<Decision>, now: int, limit: int, window: int)
    requires window > 0 && limit < 1 && s.windowStart <= now && InvBelowOne(s, decisions, window)
    ensures var (next, allowed) := Decide(s, now, limit, window);
            InvBelowOne(next, decisions + [Decision(now, allowed)], window)
  {
    hide Allowed;
    var (next, allowed) := Decide(s, now, limit, window);
    AllowedSnoc(decisions, Decision(now, allowed));
    forall from ensures AllowedDuring(decisions + [Decision(now, allowed)], from, window) <= 1 {
      assert AllowedDuring(decisions, from, window) <= 1;
      if allowed && from <= now < from + window {
        NoneAllowed(decisions, from, from + window);
      }
    }
  }

  /** With a limit below one, any interval of one window's length holds at most one request. */
  lemma {:induction false} AtMostOneBelowOne(created: int, times: seq<int>, limit: int, window: int)
    requires window > 0 && limit < 1 && Monotone(created, times)
    ensures var (s, decisions) := Run(created, times, limit, window);
            && InvBelowOne(s, decisions, window)
            && (times != [] ==> s.windowStart <= times[|times| - 1]) && (times == [] ==> s.windowStart == created)
  {
    hide InvBelowOne;
    if times == [] {
      FreshBelowOne(created, window);
    } else {
      AtMostOneBelowOne(created, times[..|times| - 1], limit, window);
      var s := Run(created, times[..|times| - 1], limit, window);
      BelowOneStep(s.0, s.1, times[|times| - 1], limit, window);
    }
  }

  lemma FreshBelowOne(created: int, window: int)
    ensures InvBelowOne(State(0, created), [], window)
  {
  }

  /**
   * Any interval of one window's length holds at most twice the limit, and at most one request below a limit of
   * one.
   */
  lemma {:induction false} AtMostTwiceTheLimit(created: int, times: seq<int>, limit: int, window: int, from: int)
    requires Monotone(created, times)
    ensures AllowedDuring(Run(created, times, limit, window).1, from, window) <= if limit < 1 then 1 else 2 * limit
  {
    hide Allowed, Run;
    var decisions := Run(created, times, limit, window).1;
    if window <= 0 {
      NothingInEmptyInterval(decisions, from, from + window);
    } else if limit < 1 {
      AtMostOneBelowOne(created, times, limit, window);
    } else {
      RunKeepsInv(created, times, limit, window);
    }
  }

  lemma {:induction false} NothingInEmptyInterval(decisions: seq<Decision>, from: int, to: int)
    requires to <= from
    ensures Allowed(decisions, from, to) == 0
  {
    if decisions != [] {
      NothingInEmptyInterval(decisions[..|decisions| - 1], from, to);
    }
  }

  lemma RunSnoc(created: int, times: seq<int>, now: int, limit: int, window: int)
    ensures var (s, decisions) := Run(created, times, limit, window);
            var (next, allowed) := Decide(s, now, limit, window);
            Run(created, times + [now], limit, window) == (next, decisions + [Decision(now, allowed)])
  {
    assert (times + [now])[..|times|] == times;
  }

  lemma RunNothing(created: int, limit: int, window: int)
    ensures Run(created, [], limit, window) == (State(0, created), [])
    ensures forall from, to :: Allowed([], from, to) == 0
  {
  }

  /** With a limit below one, the first request of a new window passes all the same. */
  lemma {:induction false} OneRequestPasses(limit: int, window: int)
    requires window > 0 && limit < 1
    ensures Monotone(0, [window])
    ensures AllowedDuring(Run(0, [window], limit, window).1, window, window) == 1
  {
    hide Run, Allowed;
    RunNothing(0, limit, window);
    RunSnoc(0, [], window, limit, window);
    assert [] + [window] == [window];
    AllowedSnoc([], Decision(window, true));
    assert Allowed([] + [Decision(window, true)], window, window + window) == 1;
  }

  ghost predicate WithinTwice(limit: int, window: int) {
    forall created, times, from :: Monotone(created, times) ==>
      AllowedDuring(Run(created, times, limit, window).1, from, window) <= 2 * limit
  }

  /** No run exceeds twice the limit in an interval of one window exactly when the limit is at least one. */
  lemma {:induction false} WithinTwiceIff(limit: int, window: int)
    requires window > 0
    ensures WithinTwice(limit, window) <==> limit >= 1
  {
    hide Run, AllowedDuring;
    if limit >= 1 {
      forall created, times, from | Monotone(created, times)
        ensures AllowedDuring(Run(created, times, limit, window).1, from, window) <= 2 * limit
      {
        AtMostTwiceTheLimit(created, times, limit, window, from);
      }
    } else {
      OneRequestPasses(limit, window);
    }
  }

  function Repeat(time: int, n: nat): seq<int> {
    seq(n, _ => time)
  }

  /** `n` requests at one time, with room for all of them in the current window. */
  lemma {:induction false} AllPass(created: int, times: seq<int>, n: nat, now: int, limit: int, window: int, from: int)
    requires var s := Run(created, times, limit, window).0; now - s.windowStart < window && s.count + n <= limit
    requires from <= now < from + window
    ensures var (s, was) := Run(created, times, limit, window);
            var (t, all) := Run(created, times + Repeat(now, n), limit, window);
            && t == State(s.count + n, s.windowStart)
            && AllowedDuring(all, from, window) == AllowedDuring(was, from, window) + n
  {
    hide Run, Allowed;
    if n == 0 {
      assert times + Repeat(now, 0) == times;
    } else {
      AllPass(created, times, n - 1, now, limit, window, from);
      var before := times + Repeat(now, n - 1);
      assert times + Repeat(now, n) == before + [now];
      RunSnoc(created, before, now, limit, window);
      AllowedSnoc(Run(created, before, limit, window).1, Decision(now, true));
    }
  }

  /** For every limit the bound is met: a full window at its last instant, and the next one at its first. */
  lemma {:induction false} TwiceTheLimitHappens(limit: nat, window: int)
    requires window > 1 && limit >= 1
    ensures var times := Repeat(window - 1, limit) + Repeat(window, limit);
            && Monotone(0, times)
            && AllowedDuring(Run(0, times, limit, window).1, window - 1, window) == 2 * limit
  {
    hide Run, Allowed;
    var first := Repeat(window - 1, limit);
    RunNothing(0, limit, window);
    AllPass(0, [], limit, window - 1, limit, window, window - 1);
    assert [] + first == first;
    RunSnoc(0, first, window, limit, window);
    AllowedSnoc(Run(0, first, limit, window).1, Decision(window, true));
    AllPass(0, first + [window], limit - 1, window, limit, window, window - 1);
    assert first + [window] + Repeat(window, limit - 1) == first + Repeat(window, limit);
  }

  /**
   * A request is refused only inside the current window and only when that window has already allowed the limit;
   * a request a whole window after its start always passes.
   */
  lemma {:induction false} RefusedIff(created: int, times: seq<int>, now: int, limit: int, window: int)
    requires limit >= 1 && window > 0 && Monotone(created, times + [now])
    ensures var (s, decisions) := Run(created, times, limit, window);
            !Decide(s, now, limit, window).1 <==>
              && now < s.windowStart + window
              && Allowed(decisions, s.windowStart, s.windowStart + window) == limit
  {
    assert Monotone(created, times) by {
      assert forall i :: 0 <= i < |times| ==> (times + [now])[i] == times[i];
    }
    RunKeepsInv(created, times, limit, window);
  }

  /**
   * The limiter object; the clock is read by the caller. The ghost history is that since creation or the last
   * reset.
   */
  class Limiter {
    const limit: int
    const windowSeconds: int
    var count: int
    var windowStart: int
    ghost var history: seq<Decision>

    constructor (limit: int, windowSeconds: int, now: int)
      ensures this.limit == limit && this.windowSeconds == windowSeconds && Snapshot() == State(0, now)
      ensures history == [] && Faithful()
    {
      this.limit, this.windowSeconds, count, windowStart, history := limit, windowSeconds, 0, now, [];
      new;
      FreshInv(now, limit, Window());
    }

    function Window(): int {
      windowSeconds * SECOND
    }

    /** `State`. */
    function Snapshot(): State
      reads this
    {
      State(count, windowStart)
    }

    /** The fields describe the history. */
    ghost predicate Faithful()
      reads this
    {
      Window() > 0 ==> Inv(Snapshot(), history, limit, Window())
    }

    /**
     * `IsAllowed`, under a clock that has not run backwards: a request is refused iff it falls into the current window
     * and that window has already allowed the limit; no interval of one window ever holds more than twice the limit.
     */
    method IsAllowed(now: int) returns (allowed: bool)
      modifies this
      ensures (Snapshot(), allowed) == Decide(old(Snapshot()), now, limit, Window())
      ensures history == old(history) + [Decision(now, allowed)]
      ensures old(Faithful()) && old(windowStart) <= now ==> Faithful()
      ensures old(Faithful()) && old(windowStart) <= now && Window() > 0 && limit >= 1 ==>
                (!allowed <==> && now < old(windowStart) + windowSeconds * 1_000_000_000
                               && Allowed(old(history), old(windowStart), old(windowStart) + Window()) == limit)
      ensures old(Faithful()) && old(windowStart) <= now ==>
                forall from :: AllowedDuring(history, from, Window()) <= 2 * AtLeastOne(limit)
    {
      hide Inv, Allowed, AllowedDuring;
      assert old(Faithful()) && Window() > 0 && limit >= 1 ==> InvCount(Snapshot(), history, limit, Window()) by {
        UnfoldInv(Snapshot(), history, limit, Window());
      }
      if Window() > 0 && Faithful() && windowStart <= now {
        if now - windowStart >= Window() {
          NewWindowKeepsInv(Snapshot(), history, now, limit, Window());
        } else {
          SameWindowKeepsInv(Snapshot(), history, now, limit, Window());
        }
      }
      if now - windowStart >= Window() {
        windowStart := now;
        count := 1;
        allowed := true;
      } else {
        count := count + 1;
        allowed := count <= limit;
      }
      history := history + [Decision(now, allowed)];
      UnfoldInv(Snapshot(), history, limit, Window());
      EmptyWindows(history, Window());
    }

    /** `Reset`. The next request passes, as long as the clock is a window past the zero time. */
    method Reset()
      modifies this
      ensures count == 0 && history == [] && Faithful()
      ensures forall now :: now >= ZERO_TIME + Window() ==> Decide(Snapshot(), now, limit, Window()).1
    {
      count := 0;
      windowStart := ZERO_TIME;
      history := [];
      FreshInv(windowStart, limit, Window());
    }
  }

  /** How far the current window is used up. */
  predicate InvCount(s: State, decisions: seq<Decision>, limit: int, window: int) {
    s.count >= limit <==> Allowed(decisions, s.windowStart, s.windowStart + window) == limit
  }

  lemma UnfoldInv(s: State, decisions: seq<Decision>, limit: int, window: int)
    ensures Inv(s, decisions, limit, window) && limit >= 1 ==> InvCount(s, decisions, limit, window)
    ensures Inv(s, decisions, limit, window) ==>
              forall from :: AllowedDuring(decisions, from, window) <= 2 * AtLeastOne(limit)
  {
    hide Allowed, AllowedDuring;
  }

  lemma EmptyWindows(decisions: seq<Decision>, window: int)
    ensures window <= 0 ==> forall from :: AllowedDuring(decisions, from, window) == 0
  {
    if window <= 0 {
      forall from ensures AllowedDuring(decisions, from, window) == 0 {
        NothingInEmptyInterval(decisions, from, from + window);
      }
    }
  }
}
