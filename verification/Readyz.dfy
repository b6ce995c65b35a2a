/** `readyz.Gate`: one probe at a time, no more often than the interval, and a cached verdict, under every
    interleaving of any number of callers. */
module Readyz {
  import opened Wrappers

  /** How far the clock moves before a step: it never runs backwards. */
  type Duration = r: real | 0.0 <= r witness 0.0

  // --- threads, step by step ----------------------------------------------

  type Thread = nat

  /** Where a caller stands in `ready`. Each step between two phases is one read or write of shared state. */
  datatype Phase =
    | Outside
    | Refused                                     // the lock was taken; the verdict is read next
    | Holding                                     // acquired; the clock is read next
    | Timed(now: real)                            // the interval is checked next
    | Due(now: real)                              // `_last` is written next
    | Admitted(now: real)                         // the probe is called next
    | Probing                                     // the probe runs
    | Ended(outcome: bool)                        // `_verdict` is written next
    | Deciding(own: Option<bool>)                 // `_verdict` is read for the return value next
    | Leaving(answer: Answer)                     // the lock is released next
    | Failing                                     // the exception propagates; the lock is released next

  /** A probe call: the reading that admitted it, and the time at which it was made. */
  datatype Start = Start(reading: real, at: real)

  /** An answer: what it says, the outcome of the caller's own probe if it ran one, and how many outcomes had been
      recorded when it was read. */
  datatype Answer = Answer(ready: bool, own: Option<bool>, seen: nat)

  /** What the callers share, and what has happened so far. */
  datatype Shared = Shared(
    clock: real,
    lock: Option<Thread>,
    last: Option<real>,
    verdict: bool,
    starts: seq<Start>,      // the probes called, in order
    finished: seq<Outcome>,  // how they ended, in order
    recorded: seq<bool>,     // the values written to `_verdict`, in order
    answers: seq<Answer>)    // the answers returned, in order

  datatype State = State(shared: Shared, phases: map<Thread, Phase>) {
    function PhaseOf(t: Thread): Phase {
      if t in phases then phases[t] else Outside
    }
  }

  function Initial(): State {
    State(Shared(0.0, None, None, false, [], [], [], []), map[])
  }

  /** One step of one caller: the clock has moved by `tick` since the last step of anyone, and `outcome` is what the
      probe does if this is the step that ends it. */
  datatype Step = Step(thread: Thread, tick: Duration, outcome: Outcome)

  /** What a caller at `p` does next, and where it then stands. */
  function Act(g: Shared, t: Thread, p: Phase, outcome: Outcome, interval: real): (Shared, Phase) {
    match p
    case Outside => if g.lock.None? then (g.(lock := Some(t)), Holding) else (g, Refused)
    case Refused => (g.(answers := g.answers + [Answer(g.verdict, None, |g.recorded|)]), Outside)
    case Holding => (g, Timed(g.clock))
    case Timed(now) => (g, if g.last.Some? && now - g.last.value < interval then Deciding(None) else Due(now))
    case Due(now) => (g.(last := Some(now)), Admitted(now))
    case Admitted(now) => (g.(starts := g.starts + [Start(now, g.clock)]), Probing)
    case Probing =>
      (g.(finished := g.finished + [outcome]), if outcome.Answered? then Ended(outcome.ready) else Failing)
    case Ended(b) => (g.(verdict := b, recorded := g.recorded + [b]), Deciding(Some(b)))
    case Deciding(own) => (g, Leaving(Answer(g.verdict, own, |g.recorded|)))
    case Leaving(answer) => (g.(lock := None, answers := g.answers + [answer]), Outside)
    case Failing => (g.(lock := None), Outside)
  }

  function Tick(g: Shared, tick: Duration): Shared {
    g.(clock := g.clock + tick)
  }

  function Next(s: State, step: Step, interval: real): State {
    var (g, p) := Act(Tick(s.shared, step.tick), step.thread, s.PhaseOf(step.thread), step.outcome, interval);
    State(g, s.phases[step.thread := p])
  }

  /** The state after any interleaving of any number of callers. */
  function Execute(steps: seq<Step>, interval: real): State {
    if steps == [] then Initial() else Next(Execute(steps[..|steps| - 1], interval), steps[|steps| - 1], interval)
  }

  // --- the invariant ----------------------------------------------------

  predicate Inside(p: Phase) {
    !p.Outside? && !p.Refused?
  }

  /** Only the holder of the lock is past it. */
  predicate OnlyHolder(s: State) {
    && (forall t :: t in s.phases && Inside(s.phases[t]) ==> s.shared.lock == Some(t))
    && (s.shared.lock.Some? ==> Inside(s.PhaseOf(s.shared.lock.value)))
  }

  /** Where the holder stands; `Outside` when the lock is free. */
  function HolderPhase(s: State): Phase {
    if s.shared.lock.Some? then s.PhaseOf(s.shared.lock.value) else Outside
  }

  /** Readings come at least the interval apart, each call follows its reading, and the next reading follows the call.
      */
  predicate Spaced(starts: seq<Start>, interval: real) {
    && (forall i :: 0 <= i < |starts| ==> starts[i].reading <= starts[i].at)
    && (forall i :: 0 < i < |starts| ==> starts[i].reading - starts[i - 1].reading >= interval)
    && (forall i :: 0 < i < |starts| ==> starts[i].reading >= starts[i - 1].at)
  }

  function LastReading(starts: seq<Start>): Option<real> {
    if starts == [] then None else Some(starts[|starts| - 1].reading)
  }

  /** A reading that may be followed by a probe: it comes after the last one was called, and late enough. */
  predicate MayStart(starts: seq<Start>, now: real, interval: real) {
    starts != [] ==> now - starts[|starts| - 1].reading >= interval
  }

  predicate NoLater(starts: seq<Start>, clock: real) {
    starts != [] ==> starts[|starts| - 1].at <= clock
  }

  /** `_last` is the reading of the last probe called, but for the holder about to call the next one. */
  predicate Timing(g: Shared, p: Phase, interval: real) {
    && (if p.Admitted? then g.last == Some(p.now) else g.last == LastReading(g.starts))
    && (p.Due? || p.Admitted? ==> MayStart(g.starts, p.now, interval))
    && (p.Timed? || p.Due? || p.Admitted? ==> NoLater(g.starts, p.now) && p.now <= g.clock)
  }

  /** The outcomes of the probes that did not raise. */
  function Verdicts(finished: seq<Outcome>): seq<bool> {
    if finished == [] then []
    else
      var n := |finished| - 1;
      Verdicts(finished[..n]) + (if finished[n].Answered? then [finished[n].ready] else [])
  }

  /** The verdict after these outcomes: the last of them, and false before the first. */
  function VerdictOf(recorded: seq<bool>): bool {
    recorded != [] && recorded[|recorded| - 1]
  }

  /** Every probe called ended, but for the one running; every outcome was recorded, but for the one about to be. */
  predicate Accounted(g: Shared, p: Phase) {
    && |g.starts| == |g.finished| + (if p.Probing? then 1 else 0)
    && Verdicts(g.finished) == g.recorded + (if p.Ended? then [p.outcome] else [])
    && g.verdict == VerdictOf(g.recorded)
  }

  /** An answer is the verdict recorded last when it was read, and the outcome of the caller's own probe if it ran one.
      */
  predicate AnswerOk(a: Answer, recorded: seq<bool>) {
    && a.seen <= |recorded|
    && a.ready == VerdictOf(recorded[..a.seen])
    && (a.own.Some? ==> a.ready == a.own.value)
  }

  predicate Pending(g: Shared, p: Phase) {
    && (p.Deciding? && p.own.Some? ==> g.verdict == p.own.value)
    && (p.Leaving? ==> AnswerOk(p.answer, g.recorded) && p.answer.seen == |g.recorded|)
  }

  predicate AllOk(answers: seq<Answer>, recorded: seq<bool>) {
    forall i :: 0 <= i < |answers| ==> AnswerOk(answers[i], recorded)
  }

  /** All that does not mention the threads, given where the holder stands. */
  predicate SharedInv(g: Shared, h: Phase, interval: real) {
    && Spaced(g.starts, interval)
    && NoLater(g.starts, g.clock)
    && Timing(g, h, interval)
    && Accounted(g, h)
    && Pending(g, h)
    && AllOk(g.answers, g.recorded)
  }

  predicate Inv(s: State, interval: real) {
    OnlyHolder(s) && SharedInv(s.shared, HolderPhase(s), interval)
  }

  // --- every step keeps it ------------------------------------------------

  /** Where the holder stands after a caller moves from `p` to `p'`, when it stood at `h`. */
  function HolderAfter(h: Phase, p: Phase, p': Phase): Phase {
    if Inside(p') then p' else if Inside(p) then Outside else h
  }

  /** A caller at `p` may move while the holder stands at `h`. */
  predicate Fits(g: Shared, p: Phase, h: Phase) {
    && (Inside(p) ==> h == p)
    && (g.lock.None? ==> h.Outside?)
  }

  lemma NextKeepsHolder(s: State, step: Step, interval: real)
    requires OnlyHolder(s)
    ensures
      var p, s' := s.PhaseOf(step.thread), Next(s, step, interval);
      && OnlyHolder(s')
      && Fits(s.shared, p, HolderPhase(s))
      && HolderPhase(s') == HolderAfter(HolderPhase(s), p, s'.PhaseOf(step.thread))
  {
    var g, p := Tick(s.shared, step.tick), s.PhaseOf(step.thread);
    ActMovesLock(g, step.thread, p, step.outcome, interval);
    hide Act;
  }

  /** The lock is taken by entering, given up by leaving, and not touched otherwise. */
  lemma ActMovesLock(g: Shared, t: Thread, p: Phase, outcome: Outcome, interval: real)
    ensures
      var (g', p') := Act(g, t, p, outcome, interval);
      && (Inside(p') && !Inside(p) ==> g.lock == None && g'.lock == Some(t))
      && (Inside(p) && !Inside(p') ==> g'.lock == None)
      && (Inside(p) == Inside(p') ==> g'.lock == g.lock)
  {
  }

  lemma AppendSpaced(starts: seq<Start>, start: Start, interval: real)
    requires Spaced(starts, interval) && MayStart(starts, start.reading, interval)
    requires NoLater(starts, start.reading) && start.reading <= start.at
    ensures Spaced(starts + [start], interval) && LastReading(starts + [start]) == Some(start.reading)
  {
    var more := starts + [start];
    forall i | 0 <= i < |more|
      ensures more[i].reading <= more[i].at
      ensures i > 0 ==> more[i].reading - more[i - 1].reading >= interval && more[i].reading >= more[i - 1].at
    {
      if i < |starts| {
        assert more[i] == starts[i] && (i > 0 ==> more[i - 1] == starts[i - 1]);
      } else if i > 0 {
        assert more[i - 1] == starts[i - 1];
      }
    }
  }

  lemma ActKeepsTiming(g: Shared, t: Thread, p: Phase, h: Phase, outcome: Outcome, interval: real)
    requires Fits(g, p, h) && Spaced(g.starts, interval) && NoLater(g.starts, g.clock) && Timing(g, h, interval)
    ensures
      var (g', p') := Act(g, t, p, outcome, interval);
      && Spaced(g'.starts, interval) && NoLater(g'.starts, g'.clock)
      && Timing(g', HolderAfter(h, p, p'), interval)
  {
    if p.Admitted? {
      AppendSpaced(g.starts, Start(p.now, g.clock), interval);
    }
    hide Spaced;
  }

  lemma AppendVerdicts(finished: seq<Outcome>, outcome: Outcome)
    ensures Verdicts(finished + [outcome]) ==
            Verdicts(finished) + (if outcome.Answered? then [outcome.ready] else [])
  {
    assert (finished + [outcome])[..|finished|] == finished;
  }

  lemma ActKeepsAccount(g: Shared, t: Thread, p: Phase, h: Phase, outcome: Outcome, interval: real)
    requires Fits(g, p, h) && Accounted(g, h)
    ensures
      var (g', p') := Act(g, t, p, outcome, interval);
      Accounted(g', HolderAfter(h, p, p'))
  {
    AppendVerdicts(g.finished, outcome);
    hide Verdicts;
  }

  lemma StaysOk(a: Answer, recorded: seq<bool>, b: bool)
    requires AnswerOk(a, recorded)
    ensures AnswerOk(a, recorded + [b])
  {
    assert (recorded + [b])[..a.seen] == recorded[..a.seen];
  }

  lemma AllStayOk(answers: seq<Answer>, recorded: seq<bool>, b: bool)
    requires AllOk(answers, recorded)
    ensures AllOk(answers, recorded + [b])
  {
    hide AnswerOk;
    forall i | 0 <= i < |answers|
      ensures AnswerOk(answers[i], recorded + [b])
    {
      StaysOk(answers[i], recorded, b);
    }
  }

  lemma AppendOk(answers: seq<Answer>, a: Answer, recorded: seq<bool>)
    requires AllOk(answers, recorded) && AnswerOk(a, recorded)
    ensures AllOk(answers + [a], recorded)
  {
    hide AnswerOk;
  }

  /** What is read from `_verdict` now is an answer in order. */
  lemma ReadNowIsOk(g: Shared, own: Option<bool>)
    requires g.verdict == VerdictOf(g.recorded) && (own.Some? ==> g.verdict == own.value)
    ensures AnswerOk(Answer(g.verdict, own, |g.recorded|), g.recorded)
  {
    assert g.recorded[..|g.recorded|] == g.recorded;
  }

  lemma ActKeepsAnswers(g: Shared, t: Thread, p: Phase, h: Phase, outcome: Outcome, interval: real)
    requires Fits(g, p, h) && Accounted(g, h) && Pending(g, h) && AllOk(g.answers, g.recorded)
    ensures
      var (g', p') := Act(g, t, p, outcome, interval);
      Pending(g', HolderAfter(h, p, p')) && AllOk(g'.answers, g'.recorded)
  {
    hide Verdicts, AllOk, AnswerOk, VerdictOf;
    match p
    case Deciding(own) => ReadNowIsOk(g, own);
    case Leaving(answer) => AppendOk(g.answers, answer, g.recorded);
    case Ended(b) =>
      AllStayOk(g.answers, g.recorded, b);
    case Refused =>
      ReadNowIsOk(g, None);
      AppendOk(g.answers, Answer(g.verdict, None, |g.recorded|), g.recorded);
    case _ =>
  }

  lemma TickKeepsInv(g: Shared, h: Phase, tick: Duration, interval: real)
    requires SharedInv(g, h, interval)
    ensures SharedInv(Tick(g, tick), h, interval)
  {
    hide Spaced, AllOk, AnswerOk, Verdicts, VerdictOf;
  }

  /** Every step of every caller keeps the invariant. */
  lemma NextKeepsInv(s: State, step: Step, interval: real)
    requires Inv(s, interval)
    ensures Inv(Next(s, step, interval), interval)
  {
    var g, p, h := Tick(s.shared, step.tick), s.PhaseOf(step.thread), HolderPhase(s);
    TickKeepsInv(s.shared, h, step.tick, interval);
    NextKeepsHolder(s, step, interval);
    ActKeepsTiming(g, step.thread, p, h, step.outcome, interval);
    ActKeepsAccount(g, step.thread, p, h, step.outcome, interval);
    ActKeepsAnswers(g, step.thread, p, h, step.outcome, interval);
    hide OnlyHolder, Spaced, NoLater, Timing, Accounted, Pending, AllOk, HolderPhase, HolderAfter, Act;
  }

  lemma InitialInv(interval: real)
    ensures Inv(Initial(), interval)
  {
  }

  lemma {:induction false} ExecuteKeepsInv(steps: seq<Step>, interval: real)
    ensures Inv(Execute(steps, interval), interval)
  {
    hide Inv, Next;
    if steps == [] {
      InitialInv(interval);
    } else {
      ExecuteKeepsInv(steps[..|steps| - 1], interval);
      NextKeepsInv(Execute(steps[..|steps| - 1], interval), steps[|steps| - 1], interval);
    }
  }

  // --- what every interleaving keeps ------------------------------------------

  /** At most one probe is in flight. */
  lemma OneProbeAtATime(steps: seq<Step>, interval: real, t: Thread, u: Thread)
    requires Execute(steps, interval).PhaseOf(t).Probing? && Execute(steps, interval).PhaseOf(u).Probing?
    ensures t == u
  {
    ExecuteKeepsInv(steps, interval);
    hide Execute, SharedInv;
  }

  /** The lock is never leaked: once no caller is past it, it is free, whether or not their probes raised. */
  lemma LockIsGivenBack(steps: seq<Step>, interval: real)
    requires forall t :: t in Execute(steps, interval).phases ==> !Inside(Execute(steps, interval).phases[t])
    ensures Execute(steps, interval).shared.lock == None
  {
    ExecuteKeepsInv(steps, interval);
    hide Execute, SharedInv;
  }

  lemma {:induction false} ReadingsApart(starts: seq<Start>, interval: real, i: nat, j: nat)
    requires Spaced(starts, interval) && i <= j < |starts|
    ensures starts[j].reading - starts[i].reading >= (j - i) as real * interval
    decreases j
  {
    if i < j {
      ReadingsApart(starts, interval, i, j - 1);
      assert starts[j].reading - starts[j - 1].reading >= interval;
      assert (j - i) as real * interval == (j - 1 - i) as real * interval + interval;
    }
  }

  lemma PositiveProduct(x: real, y: real)
    requires x > 0.0 && y > 0.0
    ensures x * y > 0.0
  {
  }

  lemma DivideCount(n: nat, interval: real, length: real)
    requires interval > 0.0 && n as real * interval <= length
    ensures n as real <= length / interval
  {
    var q := length / interval;
    assert q * interval == length;
    if n as real > q {
      PositiveProduct(n as real - q, interval);
      assert false;
    }
  }

  /** A window of the clock that holds the readings of probes `i` to `j` is long enough for all of them. */
  lemma WindowOfReadings(steps: seq<Step>, interval: real, i: nat, j: nat, length: real)
    requires interval > 0.0
    requires i <= j < |Execute(steps, interval).shared.starts|
    requires
      var starts := Execute(steps, interval).shared.starts;
      starts[j].reading - starts[i].reading <= length
    ensures (j - i + 1) as real <= length / interval + 1.0
  {
    ExecuteKeepsInv(steps, interval);
    hide Execute, OnlyHolder;
    ReadingsApart(Execute(steps, interval).shared.starts, interval, i, j);
    DivideCount(j - i, interval, length);
  }

  /** What an answer says when it is given: the outcome of the last probe to have ended without raising, but for one
      that has ended and whose outcome is not yet written; false before any; never anything else. */
  lemma AnswersTellTheLastProbe(steps: seq<Step>, interval: real, step: Step)
    ensures
      var s, s' := Execute(steps, interval), Next(Execute(steps, interval), step, interval);
      || s'.shared.answers == s.shared.answers
      || exists a: Answer ::
           && s'.shared.answers == s.shared.answers + [a]
           && a.seen == |s.shared.recorded|
           && a.ready == VerdictOf(s.shared.recorded)
           && (a.own.Some? ==> a.ready == a.own.value)
  {
    var s := Execute(steps, interval);
    ExecuteKeepsInv(steps, interval);
    hide Execute, Spaced, Timing, AllOk;
    var g, p := s.shared, s.PhaseOf(step.thread);
    assert g.recorded[..|g.recorded|] == g.recorded;
    var s' := Next(s, step, interval);
    if p.Refused? {
      assert s'.shared.answers == g.answers + [Answer(g.verdict, None, |g.recorded|)];
    } else if p.Leaving? {
      assert HolderPhase(s) == p;
      assert s'.shared.answers == g.answers + [p.answer];
    }
  }

  /** And it stays true of every answer, however much later: it is the verdict recorded last at that time. */
  lemma AnswersWereRecorded(steps: seq<Step>, interval: real, i: nat)
    requires i < |Execute(steps, interval).shared.answers|
    ensures
      var g := Execute(steps, interval).shared;
      var a := g.answers[i];
      && (a.ready ==> 0 < a.seen <= |g.recorded| && g.recorded[a.seen - 1])
      && (!a.ready ==> a.seen <= |g.recorded| && (a.seen > 0 ==> !g.recorded[a.seen - 1]))
  {
    ExecuteKeepsInv(steps, interval);
    hide Execute, OnlyHolder, Spaced, Timing;
    var g := Execute(steps, interval).shared;
    assert AnswerOk(g.answers[i], g.recorded);
  }

  /** Probes are neither lost nor counted twice: each one called has ended but for at most the one in flight, and the
      recorded verdicts are the outcomes of those that did not raise but for at most the last. */
  lemma ProbesAreAccountedFor(steps: seq<Step>, interval: real)
    ensures
      var g := Execute(steps, interval).shared;
      && |g.finished| <= |g.starts| <= |g.finished| + 1
      && g.recorded <= Verdicts(g.finished) && |Verdicts(g.finished)| <= |g.recorded| + 1
      && (g.lock.None? ==> |g.starts| == |g.finished| && Verdicts(g.finished) == g.recorded)
  {
    ExecuteKeepsInv(steps, interval);
    hide Execute, OnlyHolder, Spaced, Timing, AllOk, Pending;
  }

  // --- one call, undisturbed ------------------------------------------------

  /** A call's effect on `_last` and `_verdict`, and its result: the verdict, or the exception the probe raised. */
  datatype Call = Call(last: Option<real>, verdict: bool, result: Option<bool>)

  /** What a call does whose steps nobody comes between. */
  function CallOf(locked: bool, last: Option<real>, verdict: bool, now: real, outcome: Outcome, interval: real): Call {
    if locked || (last.Some? && now - last.value < interval) then Call(last, verdict, Some(verdict))
    else if outcome.Answered? then Call(Some(now), outcome.ready, Some(outcome.ready))
    else Call(Some(now), verdict, None)
  }

  /** `Gate` itself, called by one thread at a time. */
  class Gate {
    const interval: real
    var locked: bool
    var verdict: bool
    var last: Option<real>

    constructor (interval: real)
      ensures this.interval == interval && !locked && !verdict && last == None
    {
      this.interval := interval;
      locked, verdict, last := false, false, None;
    }

    /** `now` is what the clock reads and `outcome` what the probe does, if they are asked. `None` is the exception. */
    method Ready(now: real, outcome: Outcome) returns (result: Option<bool>)
      modifies this
      ensures locked == old(locked)
      ensures Call(last, verdict, result) == CallOf(old(locked), old(last), old(verdict), now, outcome, interval)
    {
      if locked {
        return Some(verdict);
      }
      locked := true;
      if last.Some? && now - last.value < interval {
        result := Some(verdict);
      } else {
        last := Some(now);
        match outcome
        case Answered(b) =>
          verdict := b;
          result := Some(verdict);
        case Raised =>
          result := None;
      }
      locked := false;
    }
  }

  /** The same caller, `n` times in a row, with the clock standing still. */
  function Repeat(s: State, t: Thread, outcome: Outcome, interval: real, n: nat): State
    decreases n
  {
    if n == 0 then s else Repeat(Next(s, Step(t, 0.0, outcome), interval), t, outcome, interval, n - 1)
  }

  /** How many steps of the machine such a call takes. */
  function CallLength(s: State, outcome: Outcome, interval: real): nat {
    if s.shared.lock.Some? then 2
    else if s.shared.last.Some? && s.shared.clock - s.shared.last.value < interval then 5
    else if outcome.Answered? then 9 else 7
  }

  /** A caller's steps alone, without the table of callers. */
  function Solo(g: Shared, t: Thread, p: Phase, outcome: Outcome, interval: real, n: nat): (Shared, Phase)
    decreases n
  {
    if n == 0 then (g, p)
    else
      var (g', p') := Act(g, t, p, outcome, interval);
      Solo(g', t, p', outcome, interval, n - 1)
  }

  lemma {:induction false} RepeatIsSolo(s: State, t: Thread, outcome: Outcome, interval: real, n: nat)
    ensures
      var s' := Repeat(s, t, outcome, interval, n);
      (s'.shared, s'.PhaseOf(t)) == Solo(s.shared, t, s.PhaseOf(t), outcome, interval, n)
    decreases n
  {
    if n > 0 {
      var s1 := Next(s, Step(t, 0.0, outcome), interval);
      assert Tick(s.shared, 0.0) == s.shared;
      assert (s1.shared, s1.PhaseOf(t)) == Act(s.shared, t, s.PhaseOf(t), outcome, interval);
      RepeatIsSolo(s1, t, outcome, interval, n - 1);
    }
    hide Act;
  }

  lemma {:induction false} SoloAdds(g: Shared, t: Thread, p: Phase, outcome: Outcome, interval: real, n: nat, m: nat)
    ensures
      var (g', p') := Solo(g, t, p, outcome, interval, n);
      Solo(g, t, p, outcome, interval, n + m) == Solo(g', t, p', outcome, interval, m)
    decreases n
  {
    hide Act;
    if n > 0 {
      var (g', p') := Act(g, t, p, outcome, interval);
      SoloAdds(g', t, p', outcome, interval, n - 1, m);
    }
  }

  /** From acquiring the lock to having compared the clock. */
  lemma SoloChecks(g: Shared, t: Thread, outcome: Outcome, interval: real)
    requires g.lock.None?
    ensures Solo(g, t, Outside, outcome, interval, 3) ==
            (g.(lock := Some(t)),
             if g.last.Some? && g.clock - g.last.value < interval then Deciding(None) else Due(g.clock))
  {
    var g1 := g.(lock := Some(t));
    assert Solo(g1, t, Timed(g.clock), outcome, interval, 1) == Act(g1, t, Timed(g.clock), outcome, interval);
    assert Solo(g1, t, Holding, outcome, interval, 2) == Solo(g1, t, Timed(g.clock), outcome, interval, 1);
  }

  /** From the verdict's last read to having left. */
  lemma SoloLeaves(g: Shared, t: Thread, own: Option<bool>, outcome: Outcome, interval: real)
    ensures Solo(g, t, Deciding(own), outcome, interval, 2) ==
            (g.(lock := None, answers := g.answers + [Answer(g.verdict, own, |g.recorded|)]), Outside)
  {
    var leaving := Leaving(Answer(g.verdict, own, |g.recorded|));
    assert Solo(g, t, leaving, outcome, interval, 1) == Act(g, t, leaving, outcome, interval);
  }

  /** From being due to the probe's end and what follows at once. */
  lemma SoloProbes(g: Shared, t: Thread, now: real, outcome: Outcome, interval: real)
    ensures
      var (g', p') := Solo(g, t, Due(now), outcome, interval, 4);
      && g'.last == Some(now) && g'.answers == g.answers
      && (outcome.Answered? ==> p' == Deciding(Some(outcome.ready)) && g'.verdict == outcome.ready)
      && (outcome.Raised? ==> p' == Outside && g'.verdict == g.verdict && g'.lock == None)
  {
    var (g1, p1) := Act(g, t, Due(now), outcome, interval);
    var (g2, p2) := Act(g1, t, p1, outcome, interval);
    var (g3, p3) := Act(g2, t, p2, outcome, interval);
    var (g4, p4) := Act(g3, t, p3, outcome, interval);
    assert Solo(g3, t, p3, outcome, interval, 1) == (g4, p4);
    assert Solo(g2, t, p2, outcome, interval, 2) == (g4, p4);
    assert Solo(g1, t, p1, outcome, interval, 3) == (g4, p4);
  }

  lemma SoloRefused(g: Shared, t: Thread, outcome: Outcome, interval: real)
    requires g.lock.Some?
    ensures Solo(g, t, Outside, outcome, interval, 2) ==
            (g.(answers := g.answers + [Answer(g.verdict, None, |g.recorded|)]), Outside)
  {
    assert Solo(g, t, Refused, outcome, interval, 1) == Act(g, t, Refused, outcome, interval);
  }

  /** The method is the step machine run without interruption: the same `_last` and `_verdict`, the lock given back,
      and one answer returned, or none if the probe raised. */
  lemma UndisturbedCall(s: State, t: Thread, outcome: Outcome, interval: real)
    requires s.PhaseOf(t).Outside?
    ensures
      var s' := Repeat(s, t, outcome, interval, CallLength(s, outcome, interval));
      var g, g' := s.shared, s'.shared;
      var call := CallOf(g.lock.Some?, g.last, g.verdict, g.clock, outcome, interval);
      && s'.PhaseOf(t).Outside?
      && g'.lock == g.lock && g'.last == call.last && g'.verdict == call.verdict
      && |g'.answers| == |g.answers| + (if call.result.Some? then 1 else 0)
      && (call.result.Some? ==> g'.answers[|g.answers|].ready == call.result.value)
  {
    var g := s.shared;
    RepeatIsSolo(s, t, outcome, interval, CallLength(s, outcome, interval));
    hide Act, Solo, Repeat;
    if g.lock.Some? {
      SoloRefused(g, t, outcome, interval);
    } else {
      SoloChecks(g, t, outcome, interval);
      var (g3, p3) := Solo(g, t, Outside, outcome, interval, 3);
      SoloAdds(g, t, Outside, outcome, interval, 3, CallLength(s, outcome, interval) - 3);
      if p3.Deciding? {
        SoloLeaves(g3, t, None, outcome, interval);
      } else {
        SoloProbes(g3, t, g.clock, outcome, interval);
        if outcome.Answered? {
          var (g7, p7) := Solo(g3, t, p3, outcome, interval, 4);
          SoloAdds(g3, t, p3, outcome, interval, 4, 2);
          SoloLeaves(g7, t, Some(outcome.ready), outcome, interval);
        }
      }
    }
  }
}
