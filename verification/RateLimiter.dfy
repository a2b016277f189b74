/**
 The sliding-window limiter shared by the tasks of one adapter. Each pass through the lock is one
 atomic poll, so a run is any sequence of polls, by any tasks, at nondecreasing clock readings.
 */
module RateLimiter {

  function WindowSeconds(per: string): real {
    if per == "second" then 1.0 else if per == "hour" then 3600.0 else 60.0
  }

  datatype Verdict = Admitted | Wait(sleep: real)

  // ---- one poll ----

  /** Dropping calls from the old end while they are older than the window. */
  function Evict(calls: seq<real>, window: real, now: real): seq<real> {
    if calls != [] && now - calls[0] > window then Evict(calls[1..], window, now) else calls
  }

  function VerdictFor(live: seq<real>, max: nat, window: real, now: real): Verdict {
    if |live| < max || max == 0 then Admitted else Wait(window - (now - live[0]))
  }

  class Limiter {
    const max: nat
    const window: real
    var calls: seq<real>

    constructor (configuredMax: int, per: string)
      ensures max == if configuredMax < 0 then 0 else configuredMax
      ensures (per == "second" ==> window == 1.0) && (per == "hour" ==> window == 3600.0)
      ensures per != "second" && per != "hour" ==> window == 60.0
      ensures calls == []
    {
      max := if configuredMax < 0 then 0 else configuredMax;
      window := WindowSeconds(per);
      calls := [];
    }

    method EvictOld(now: real)
      modifies this
      ensures calls == Evict(old(calls), window, now)
    {
      while calls != [] && now - calls[0] > window
        invariant Evict(calls, window, now) == Evict(old(calls), window, now)
        decreases |calls|
      {
        calls := calls[1..];
      }
    }

    /** The body of the waiting loop, under the lock. A limit of zero is no limit at all. */
    method Poll(now: real) returns (v: Verdict)
      modifies this
      ensures State(calls, v) == Step(old(calls), max, window, now)
    {
      if max == 0 { return Admitted; }
      EvictOld(now);
      if |calls| < max {
        calls := calls + [now];
        return Admitted;
      }
      return Wait(window - (now - calls[0]));
    }
  }

  datatype State = State(calls: seq<real>, verdict: Verdict)

  function Step(calls: seq<real>, max: nat, window: real, now: real): State {
    if max == 0 then State(calls, Admitted)
    else
      var live := Evict(calls, window, now);
      var v := VerdictFor(live, max, window, now);
      State(if v.Admitted? then live + [now] else live, v)
  }

  // ---- runs ----

  datatype Event = Event(task: nat, now: real)

  /** The deque and the times of all admissions so far. */
  datatype Run = Run(calls: seq<real>, admissions: seq<real>)

  ghost function RunOf(events: seq<Event>, max: nat, window: real): Run {
    if events == [] then Run([], [])
    else
      var before := RunOf(events[..|events| - 1], max, window);
      var now := events[|events| - 1].now;
      var s := Step(before.calls, max, window, now);
      Run(s.calls, if s.verdict.Admitted? then before.admissions + [now] else before.admissions)
  }

  ghost predicate ClockAdvances(events: seq<Event>) {
    forall i, j :: 0 <= i < j < |events| ==> events[i].now <= events[j].now
  }

  ghost predicate Sorted(times: seq<real>) {
    forall i, j :: 0 <= i < j < |times| ==> times[i] <= times[j]
  }

  /** Those of `times` no older than the window: the independent reading of the closed window. */
  ghost function Recent(times: seq<real>, window: real, now: real): seq<real> {
    if times == [] then []
    else
      var rest := Recent(times[1..], window, now);
      if now - times[0] <= window then [times[0]] + rest else rest
  }

  /** Any max+1 consecutive entries span strictly more than the window. */
  ghost predicate IsSpaced(times: seq<real>, max: nat, window: real) {
    forall i, j :: 0 <= i && i + max <= j < |times| ==> times[j] - times[i] > window
  }

  /** What every run keeps, `now` being no earlier than its last reading. */
  ghost predicate Inv(r: Run, max: nat, window: real, now: real) {
    && Sorted(r.admissions)
    && (forall a :: a in r.admissions ==> a <= now)
    && IsSpaced(r.admissions, max, window)
    && |r.calls| <= max
    && |r.calls| <= |r.admissions|
    && r.calls == r.admissions[|r.admissions| - |r.calls|..]
    && (forall i :: 0 <= i < |r.admissions| - |r.calls| ==> now - r.admissions[i] > window)
  }

  lemma {:induction false} EvictDrops(calls: seq<real>, window: real, now: real) returns (n: nat)
    requires Sorted(calls)
    ensures n <= |calls| && Evict(calls, window, now) == calls[n..]
    ensures forall i :: 0 <= i < n ==> now - calls[i] > window
    ensures forall i :: n <= i < |calls| ==> now - calls[i] <= window
  {
    if calls != [] && now - calls[0] > window {
      n := EvictDrops(calls[1..], window, now);
      n := n + 1;
    } else {
      n := 0;
    }
  }

  lemma {:induction false} RecentIsSuffix(times: seq<real>, window: real, now: real, n: nat)
    requires n <= |times|
    requires forall i :: 0 <= i < n ==> now - times[i] > window
    requires forall i :: n <= i < |times| ==> now - times[i] <= window
    ensures Recent(times, window, now) == times[n..]
  {
    if times == [] {
    } else {
      RecentIsSuffix(times[1..], window, now, if n == 0 then 0 else n - 1);
      if n == 0 {
        assert [times[0]] + times[1..] == times;
      }
    }
  }

  /** After eviction the deque holds exactly the admissions of age at most the window. */
  lemma EvictLeavesRecent(r: Run, max: nat, window: real, before: real, now: real)
    requires Inv(r, max, window, before) && before <= now
    ensures Evict(r.calls, window, now) == Recent(r.admissions, window, now)
    ensures Inv(Run(Evict(r.calls, window, now), r.admissions), max, window, now)
  {
    hide IsSpaced;
    var m := EvictSplit(r, max, window, before, now);
    RecentIsSuffix(r.admissions, window, now, m);
  }

  /** Where eviction cuts the list of all admissions. */
  lemma EvictSplit(r: Run, max: nat, window: real, before: real, now: real) returns (m: nat)
    requires Inv(r, max, window, before) && before <= now
    ensures |r.admissions| - |r.calls| <= m <= |r.admissions|
    ensures Evict(r.calls, window, now) == r.admissions[m..]
    ensures forall i :: 0 <= i < m ==> now - r.admissions[i] > window
    ensures forall i :: m <= i < |r.admissions| ==> now - r.admissions[i] <= window
  {
    hide IsSpaced, Evict;
    var k := |r.admissions| - |r.calls|;
    assert forall i :: k <= i < |r.admissions| ==> r.calls[i - k] == r.admissions[i];
    assert Sorted(r.calls);
    var n := EvictDrops(r.calls, window, now);
    m := k + n;
    assert r.calls[n..] == r.admissions[m..];
  }

  lemma AdmissionKeepsInv(r: Run, max: nat, window: real, now: real)
    requires Inv(r, max, window, now) && |r.calls| < max
    ensures Inv(Run(r.calls + [now], r.admissions + [now]), max, window, now)
  {
    var times := r.admissions + [now];
    forall i, j | 0 <= i && i + max <= j < |times|
      ensures times[j] - times[i] > window
    {
      if j == |r.admissions| {
        assert i < |r.admissions| - |r.calls|;
      }
    }
    assert forall i :: 0 <= i < |r.admissions| ==> r.admissions[i] in r.admissions;
    var k := |r.admissions| - |r.calls|;
    assert times[k..] == r.admissions[k..] + [now];
  }

  lemma {:induction false} RunKeepsInv(events: seq<Event>, max: nat, window: real, now: real)
    requires max > 0 && ClockAdvances(events)
    requires forall i :: 0 <= i < |events| ==> events[i].now <= now
    ensures Inv(RunOf(events, max, window), max, window, now)
    decreases |events|
  {
    hide Inv;
    if events == [] {
      EmptyRun(max, window, now);
    } else {
      var n := |events| - 1;
      var last := events[n].now;
      var before := RunOf(events[..n], max, window);
      RunKeepsInv(events[..n], max, window, last);
      EvictLeavesRecent(before, max, window, last, last);
      var live := Evict(before.calls, window, last);
      if |live| < max {
        AdmissionKeepsInv(Run(live, before.admissions), max, window, last);
      }
      LaterKeepsInv(RunOf(events, max, window), max, window, last, now);
    }
  }

  lemma EmptyRun(max: nat, window: real, now: real)
    ensures Inv(Run([], []), max, window, now)
  {
  }

  lemma LaterKeepsInv(r: Run, max: nat, window: real, before: real, now: real)
    requires Inv(r, max, window, before) && before <= now
    ensures Inv(r, max, window, now)
  {
  }

  /** Main result: over every run, no closed window ever holds more than `max` admissions. */
  lemma EveryRunIsSpaced(events: seq<Event>, max: nat, window: real)
    requires max > 0 && ClockAdvances(events)
    ensures Sorted(RunOf(events, max, window).admissions)
    ensures IsSpaced(RunOf(events, max, window).admissions, max, window)
  {
    if events == [] {
      EmptyRun(max, window, 0.0);
    } else {
      RunKeepsInv(events, max, window, events[|events| - 1].now);
    }
  }

  /** A limit of zero is no limit: every poll of every run is admitted and the deque is never touched. */
  lemma {:induction false} ZeroAdmitsEveryPoll(events: seq<Event>, window: real)
    ensures var r := RunOf(events, 0, window);
      && r.calls == [] && |r.admissions| == |events|
      && forall i :: 0 <= i < |events| ==> r.admissions[i] == events[i].now
    ensures forall calls, now :: Step(calls, 0, window, now) == State(calls, Admitted)
    decreases |events|
  {
    if events == [] {
    } else {
      ZeroAdmitsEveryPoll(events[..|events| - 1], window);
    }
  }

  /**
   No poll is refused without cause: it is admitted exactly when fewer than `max` admissions lie in
   the closed window ending now; otherwise the requested sleep is between zero and the window.
   */
  lemma AdmittedIffRoom(events: seq<Event>, task: nat, now: real, max: nat, window: real)
    requires max > 0 && ClockAdvances(events + [Event(task, now)])
    ensures var r := RunOf(events, max, window); var v := Step(r.calls, max, window, now).verdict;
      && (v.Admitted? <==> |Recent(r.admissions, window, now)| < max)
      && (v.Wait? ==> |Recent(r.admissions, window, now)| == max && 0.0 <= v.sleep <= window)
  {
    var all := events + [Event(task, now)];
    assert forall i :: 0 <= i < |events| ==> all[i] == events[i];
    forall i | 0 <= i < |events|
      ensures events[i].now <= now
    {
      assert all[i].now <= all[|events|].now;
    }
    RunKeepsInv(events, max, window, now);
    var r := RunOf(events, max, window);
    EvictLeavesRecent(r, max, window, now, now);
    var live := Evict(r.calls, window, now);
    if |live| >= max {
      var n := EvictDrops(r.calls, window, now);
      assert live[0] == r.calls[n];
      assert live[0] in r.admissions;
    }
  }

  /**
   The sleep is the exact threshold: with no other poll in between, the waiting task is admitted on
   its next poll if and only if that comes strictly later than the moment it slept until.
   */
  lemma SleepIsExactThreshold(events: seq<Event>, task: nat, now: real, next: real, max: nat, window: real)
    requires max > 0 && ClockAdvances(events + [Event(task, now)]) && now <= next
    requires Step(RunOf(events, max, window).calls, max, window, now).verdict.Wait?
    ensures var first := Step(RunOf(events, max, window).calls, max, window, now);
      Step(first.calls, max, window, next).verdict.Admitted? <==> next > now + first.verdict.sleep
  {
    AdmittedIffRoom(events, task, now, max, window);
    var r := RunOf(events, max, window);
    var all := events + [Event(task, now)];
    assert forall i :: 0 <= i < |events| ==> all[i] == events[i];
    assert forall i :: 0 <= i < |events| ==> all[i].now <= all[|events|].now;
    RunKeepsInv(events, max, window, now);
    EvictLeavesRecent(r, max, window, now, now);
    var live := Evict(r.calls, window, now);
    EvictShrinks(live, window, next);
    var s := Step(r.calls, max, window, now);
    assert s.calls == live && s.verdict == Wait(window - (now - live[0]));
    assert |live| == max;
  }

  lemma {:induction false} EvictShrinks(calls: seq<real>, window: real, now: real)
    ensures |Evict(calls, window, now)| <= |calls|
    ensures calls != [] ==> (|Evict(calls, window, now)| < |calls| <==> now - calls[0] > window)
  {
    if calls == [] {
    } else if now - calls[0] > window {
      EvictShrinks(calls[1..], window, now);
    }
  }
}
