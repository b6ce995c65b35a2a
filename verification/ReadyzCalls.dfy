/** `readyz.Gate` by the time of the probe calls themselves: how close they may come, exactly. */
module ReadyzCalls {
  import opened Wrappers
  import opened Readyz

  ghost predicate Reachable(s: State, interval: real) {
    exists steps :: Execute(steps, interval) == s
  }

  /** No caller was held up longer than `h` between reading the clock and calling its probe. */
  predicate HeldUpAtMost(s: State, h: real) {
    forall i :: 0 <= i < |s.shared.starts| ==> s.shared.starts[i].at - s.shared.starts[i].reading <= h
  }

  /** Successive calls are at least `d` apart. */
  predicate CallsAtLeast(s: State, d: real) {
    forall i :: 0 < i < |s.shared.starts| ==> s.shared.starts[i].at - s.shared.starts[i - 1].at >= d
  }

  /** What hold-ups of up to `h` leave of the interval. */
  function Slack(interval: real, h: real): real {
    if h <= interval then interval - h else 0.0
  }

  function Times(k: nat, interval: real): real {
    k as real * interval
  }

  lemma TimesAdds(k: nat, interval: real)
    ensures Times(k + 1, interval) == Times(k, interval) + interval
    ensures Times(0, interval) == 0.0 && Times(1, interval) == interval
  {
  }

  // --- runs that come this close ------------------------------------------------

  lemma ReachStep(s: State, step: Step, interval: real) returns (s': State)
    requires Reachable(s, interval)
    ensures Reachable(s', interval)
    ensures (s'.shared, s'.PhaseOf(step.thread)) ==
            Act(Tick(s.shared, step.tick), step.thread, s.PhaseOf(step.thread), step.outcome, interval)
  {
    hide Act;
    s' := Next(s, step, interval);
    var steps :| Execute(steps, interval) == s;
    assert (steps + [step])[..|steps|] == steps;
    assert Execute(steps + [step], interval) == s';
  }

  /** A call after waiting for `wait`, held up for `hold` before its probe, which raises. */
  lemma HeldCall(s: State, t: Thread, wait: Duration, hold: Duration, interval: real) returns (s': State)
    requires Reachable(s, interval) && s.shared.lock.None? && s.PhaseOf(t).Outside?
    requires s.shared.last.Some? ==> s.shared.clock + wait - s.shared.last.value >= interval
    ensures Reachable(s', interval) && s'.shared.lock.None? && s'.PhaseOf(t).Outside?
    ensures
      var now := s.shared.clock + wait;
      && s'.shared.last == Some(now) && s'.shared.clock == now + hold
      && s'.shared.starts == s.shared.starts + [Start(now, now + hold)]
  {
    hide Reachable;
    var now := s.shared.clock + wait;
    var s1 := ReachStep(s, Step(t, wait, Raised), interval);
    var s2 := ReachStep(s1, Step(t, 0.0, Raised), interval);
    var s3 := ReachStep(s2, Step(t, 0.0, Raised), interval);
    var s4 := ReachStep(s3, Step(t, 0.0, Raised), interval);
    assert s4.PhaseOf(t) == Admitted(now) && s4.shared.clock == now;
    var s5 := ReachStep(s4, Step(t, hold, Raised), interval);
    var s6 := ReachStep(s5, Step(t, 0.0, Raised), interval);
    s' := ReachStep(s6, Step(t, 0.0, Raised), interval);
  }

  /** `n` calls, the first held up for `hold`, the others not, and each admitted as soon as it may be. */
  predicate Crowded(s: State, n: nat, hold: real, interval: real) {
    && |s.shared.starts| == n
    && (forall i :: 0 <= i < n ==>
          s.shared.starts[i] == Start(Times(i, interval), if i == 0 then hold else Times(i, interval)))
  }

  lemma {:induction false} CrowdedRun(n: nat, hold: Duration, interval: real) returns (s: State)
    requires 0.0 < interval && hold <= interval && n > 0
    ensures Reachable(s, interval) && s.shared.lock.None? && s.PhaseOf(0).Outside?
    ensures Crowded(s, n, hold, interval) && s.shared.last == Some(Times(n - 1, interval))
    ensures s.shared.clock == if n == 1 then hold else Times(n - 1, interval)
    decreases n
  {
    hide Reachable, Times;
    TimesAdds(0, interval);
    if n == 1 {
      InitialIsReachable(interval);
      s := HeldCall(Initial(), 0, 0.0, hold, interval);
    } else {
      var before := CrowdedRun(n - 1, hold, interval);
      TimesAdds(n - 2, interval);
      s := HeldCall(before, 0, if n == 2 then interval - hold else interval, 0.0, interval);
      assert s.shared.starts == before.shared.starts + [Start(Times(n - 1, interval), Times(n - 1, interval))];
    }
  }

  lemma InitialIsReachable(interval: real)
    ensures Reachable(Initial(), interval)
  {
    assert Execute([], interval) == Initial();
  }

  lemma CrowdedIsHeldUp(s: State, n: nat, hold: real, interval: real)
    requires Crowded(s, n, hold, interval) && 0.0 <= hold
    ensures HeldUpAtMost(s, hold)
  {
  }

  // --- the promise, and exactly when it holds -------------------------------------

  lemma ReachableIsSpaced(s: State, interval: real)
    requires Reachable(s, interval)
    ensures Spaced(s.shared.starts, interval)
  {
    var steps :| Execute(steps, interval) == s;
    ExecuteKeepsInv(steps, interval);
    hide Execute, OnlyHolder;
  }

  /** Whatever the callers do, calls stay as far apart as their hold-ups leave of the interval. */
  lemma CallsKeepSlack(s: State, interval: real, h: real)
    requires Reachable(s, interval) && HeldUpAtMost(s, h)
    ensures CallsAtLeast(s, Slack(interval, h))
  {
    ReachableIsSpaced(s, interval);
  }

  ghost predicate AlwaysAtLeast(interval: real, h: real, d: real) {
    forall s :: Reachable(s, interval) && HeldUpAtMost(s, h) ==> CallsAtLeast(s, d)
  }

  /** Over all runs in which no caller is held up longer than `h`, how far apart successive calls are sure to be: the
      interval less `h`, and nothing at all once `h` is the whole interval. */
  lemma GapsIff(interval: real, h: real, d: real)
    requires 0.0 < interval && 0.0 <= h
    ensures AlwaysAtLeast(interval, h, d) <==> d <= Slack(interval, h)
  {
    hide Reachable, Times;
    TimesAdds(0, interval);
    if d <= Slack(interval, h) {
      forall s | Reachable(s, interval) && HeldUpAtMost(s, h)
        ensures CallsAtLeast(s, d)
      {
        CallsKeepSlack(s, interval, h);
      }
    }
    if AlwaysAtLeast(interval, h, d) {
      var hold := if h <= interval then h else interval;
      var s := CrowdedRun(2, hold, interval);
      CrowdedIsHeldUp(s, 2, hold, interval);
      assert CallsAtLeast(s, d);
      assert s.shared.starts[1].at - s.shared.starts[0].at == interval - hold;
    }
  }

  /** The class promises a probe no more often than the interval. By the time of the calls that is kept exactly where no
      caller is held up at all between reading the clock and calling its probe. */
  lemma PromiseKeptIff(interval: real, h: real)
    requires 0.0 < interval && 0.0 <= h
    ensures AlwaysAtLeast(interval, h, interval) <==> h == 0.0
  {
    GapsIff(interval, h, interval);
    hide AlwaysAtLeast;
  }

  /** A run in which it is broken outright: two probes are called at the same time. */
  lemma CallsMayCrowd(interval: real)
    requires interval > 0.0
    ensures exists s ::
      && Reachable(s, interval)
      && |s.shared.starts| == 2
      && s.shared.starts[0].at == s.shared.starts[1].at
  {
    hide Reachable, Times;
    TimesAdds(0, interval);
    var s := CrowdedRun(2, interval, interval);
    assert |s.shared.starts| == 2;
  }

  /** The calls from `i` on, `n` of them, fall within `length`. */
  predicate Fit(s: State, i: nat, n: nat, length: real) {
    0 < n && i + n <= |s.shared.starts| && s.shared.starts[i + n - 1].at - s.shared.starts[i].at <= length
  }

  ghost predicate MayFit(interval: real, h: real, n: nat, length: real) {
    exists s, i: nat :: Reachable(s, interval) && HeldUpAtMost(s, h) && Fit(s, i, n, length)
  }

  /** The reading after a call comes late enough. */
  lemma NextReading(s: State, i: nat, interval: real, h: real)
    requires Reachable(s, interval) && HeldUpAtMost(s, h) && i + 1 < |s.shared.starts|
    ensures s.shared.starts[i + 1].reading - s.shared.starts[i].at >= Slack(interval, h)
  {
    ReachableIsSpaced(s, interval);
    hide Reachable;
    var starts := s.shared.starts;
    assert starts[i + 1].reading - starts[i].reading >= interval;
    assert starts[i + 1].reading >= starts[i].at;
  }

  lemma LastReading(s: State, i: nat, j: nat, interval: real)
    requires Reachable(s, interval) && i <= j < |s.shared.starts|
    ensures s.shared.starts[j].at - s.shared.starts[i].reading >= Times(j - i, interval)
  {
    ReachableIsSpaced(s, interval);
    hide Reachable;
    ReadingsApart(s.shared.starts, interval, i, j);
  }

  lemma FittingIsLong(s: State, i: nat, interval: real, h: real, n: nat, length: real)
    requires Reachable(s, interval) && HeldUpAtMost(s, h) && n >= 2 && Fit(s, i, n, length)
    ensures Times(n - 2, interval) + Slack(interval, h) <= length
  {
    hide Reachable, HeldUpAtMost, Times, Slack;
    NextReading(s, i, interval, h);
    LastReading(s, i + 1, i + n - 1, interval);
  }

  /** How many calls a window has room for: `n` of them, two or more, fit into `length` exactly when all but one of the
      intervals between them do, together with what hold-ups of up to `h` leave of the first. Without hold-ups that is
      the `n - 1` intervals of the promise; from `h == interval` on, one interval less. */
  lemma CallsFitIff(interval: real, h: real, n: nat, length: real)
    requires 0.0 < interval && 0.0 <= h && n >= 2
    ensures MayFit(interval, h, n, length) <==> Times(n - 2, interval) + Slack(interval, h) <= length
  {
    hide Reachable, Times;
    if MayFit(interval, h, n, length) {
      var s, i: nat :| Reachable(s, interval) && HeldUpAtMost(s, h) && Fit(s, i, n, length);
      FittingIsLong(s, i, interval, h, n, length);
    }
    if Times(n - 2, interval) + Slack(interval, h) <= length {
      var hold := if h <= interval then h else interval;
      var s := CrowdedRun(n, hold, interval);
      CrowdedIsHeldUp(s, n, hold, interval);
      TimesAdds(n - 2, interval);
      assert s.shared.starts[n - 1].at == Times(n - 1, interval);
      assert Fit(s, 0, n, length);
    }
  }

  lemma {:induction false} TimesGrows(k: nat, m: nat, interval: real)
    requires k <= m && 0.0 < interval
    ensures Times(k, interval) <= Times(m, interval)
    decreases m
  {
    hide Times;
    if k < m {
      TimesGrows(k, m - 1, interval);
      TimesAdds(m - 1, interval);
    }
  }

  /** In a window of `length` the promise leaves room for one probe more than the `k` whole intervals the window holds.
      That is kept exactly when hold-ups leave more of the interval than the window has over; otherwise there is a run
      with one probe more, and never with two. */
  lemma WindowPromiseIff(interval: real, h: real, k: nat, length: real)
    requires 0.0 < interval && 0.0 <= h
    requires Times(k, interval) <= length < Times(k + 1, interval)
    ensures (forall n: nat :: MayFit(interval, h, n, length) ==> n <= k + 1) <==>
              length < Times(k, interval) + Slack(interval, h)
    ensures MayFit(interval, h, k + 2, length) <==> length >= Times(k, interval) + Slack(interval, h)
    ensures forall n: nat :: MayFit(interval, h, n, length) ==> n <= k + 2
  {
    hide Times, Slack, MayFit;
    CallsFitIff(interval, h, k + 2, length);
    forall n: nat | MayFit(interval, h, n, length)
      ensures n <= k + 2
    {
      if n > k + 2 {
        CallsFitIff(interval, h, n, length);
        TimesGrows(k + 1, n - 2, interval);
        SlackIsNoDebt(interval, h);
      }
    }
  }

  lemma SlackIsNoDebt(interval: real, h: real)
    ensures Slack(interval, h) >= 0.0
  {
  }
}
