/** `healthcheck`: readiness proven in stages behind marker files, without spending rate-limited logins. */
module Healthcheck {
  import opened Wrappers

  /** The marker files that exist. */
  datatype Boot = Boot(ready: bool, login: bool)

  /** What the world does during one check: how each probe would answer, if asked, and whether the marker files can be
      created and removed. `status` is `None` when asking raises. */
  datatype Tick = Tick(
    login: Outcome,
    status: Option<int>,
    fleet: Outcome,
    loginWritable: bool,
    readyWritable: bool,
    removable: bool)

  /** The requests a check sends. */
  datatype Asked = Asked(login: bool, v2: bool, fleet: bool)

  const NOTHING := Asked(false, false, false)

  predicate Rejected(status: int) {
    status == 401 || status == 403
  }

  predicate V2Settled(status: int) {
    200 <= status < 500
  }

  // --- one check --------------------------------------------------------

  datatype Checked = Checked(boot: Boot, result: Outcome, asked: Asked)

  /** The stages after the login, once it is proven. */
  function LaterStages(login: bool, t: Tick, needsFleet: bool): (bool, Outcome) {
    if t.status.None? then (login, Raised)
    else if Rejected(t.status.value) then (login && !t.removable, Answered(false))
    else if !V2Settled(t.status.value) then (login, Answered(false))
    else (login, if needsFleet then t.fleet else Answered(true))
  }

  function StagedOf(login: bool, t: Tick, needsFleet: bool): Checked {
    if !login && t.login != Answered(true) then
      Checked(Boot(false, false), t.login, Asked(true, false, false))
    else
      var (login', result) := LaterStages(login || t.loginWritable, t, needsFleet);
      var fleet := needsFleet && t.status.Some? && !Rejected(t.status.value) && V2Settled(t.status.value);
      Checked(Boot(false, login'), result, Asked(!login, true, fleet))
  }

  function Check(b: Boot, t: Tick, needsFleet: bool): Checked {
    if b.ready then Checked(b, Answered(true), NOTHING)
    else
      var c := StagedOf(b.login, t, needsFleet);
      c.(boot := Boot(c.result == Answered(true) && t.readyWritable, c.boot.login))
  }

  /** The marker files, and the two gates that use them. */
  class MarkerFiles {
    var ready: bool
    var login: bool

    /** As an entrypoint leaves them when it clears the boot's state. */
    constructor ()
      ensures Files() == Boot(false, false)
    {
      ready, login := false, false;
    }

    function Files(): Boot
      reads this
    {
      Boot(ready, login)
    }

    /** `marker_gate` around the login probe. */
    method GateLogin(t: Tick) returns (result: Outcome, asked: bool)
      modifies this`login
      ensures asked == !old(login)
      ensures result == if old(login) then Answered(true) else t.login
      ensures login == (old(login) || (t.login == Answered(true) && t.loginWritable))
    {
      if login {
        return Answered(true), false;
      }
      asked, result := true, t.login;
      if result == Answered(true) && t.loginWritable {
        login := true;
      }
    }

    method Staged(t: Tick, needsFleet: bool) returns (result: Outcome, asked: Asked)
      modifies this`login
      ensures
        var c := StagedOf(old(login), t, needsFleet);
        login == c.boot.login && result == c.result && asked == c.asked
    {
      var proven, loggedIn := GateLogin(t);
      asked := NOTHING.(login := loggedIn);
      if proven != Answered(true) {
        return proven, asked;
      }
      asked := asked.(v2 := true);
      if t.status.None? {
        return Raised, asked;
      }
      var status := t.status.value;
      if status in {401, 403} {
        Forget(t.removable);
        return Answered(false), asked;
      }
      if !(200 <= status < 500) {
        return Answered(false), asked;
      }
      if !needsFleet {
        return Answered(true), asked;
      }
      return t.fleet, asked.(fleet := true);
    }

    method Forget(removable: bool)
      modifies this`login
      ensures login == (old(login) && !removable)
    {
      if login && removable {
        login := false;
      }
    }

    /** `marker_gate` around the staged probe: what each image's health check runs. */
    method HealthCheck(t: Tick, needsFleet: bool) returns (result: Outcome, asked: Asked)
      modifies this
      ensures Checked(Files(), result, asked) == Check(old(Files()), t, needsFleet)
    {
      if ready {
        return Answered(true), NOTHING;
      }
      result, asked := Staged(t, needsFleet);
      if result == Answered(true) && t.readyWritable {
        ready := true;
      }
    }
  }

  // --- runs of a boot -------------------------------------------------------

  /** The markers after these checks, from cleared state. */
  function After(ticks: seq<Tick>, needsFleet: bool): Boot {
    if ticks == [] then Boot(false, false)
    else
      var n := |ticks| - 1;
      Check(After(ticks[..n], needsFleet), ticks[n], needsFleet).boot
  }

  function CheckAt(ticks: seq<Tick>, needsFleet: bool, k: nat): Checked
    requires k < |ticks|
  {
    Check(After(ticks[..k], needsFleet), ticks[k], needsFleet)
  }

  // --- one check ----------------------------------------------------------------

  /** The login is in force when the status is asked for: it was proven before or has just worked. */
  predicate IsIn(b: Boot, t: Tick) {
    b.login || t.login == Answered(true)
  }

  /** A status that is neither refused nor unsettled. */
  predicate IsServed(status: Option<int>) {
    status.Some? && 200 <= status.value < 500 && status.value != 401 && status.value != 403
  }

  /** A check is ready for good once the marker is there, and before that exactly when the login is in force, the status
      is served, and the fleet, where it is required, is there. */
  lemma ReadyIff(b: Boot, t: Tick, needsFleet: bool)
    ensures Check(b, t, needsFleet).result == Answered(true) <==>
              b.ready || (IsIn(b, t) && IsServed(t.status) && (needsFleet ==> t.fleet == Answered(true)))
  {
  }

  /** It raises exactly when a request it gets to raises. */
  lemma RaisesIff(b: Boot, t: Tick, needsFleet: bool)
    ensures Check(b, t, needsFleet).result == Raised <==>
              && !b.ready
              && (|| (!b.login && t.login == Raised)
                  || (IsIn(b, t) && (t.status.None? || (IsServed(t.status) && needsFleet && t.fleet == Raised))))
  {
  }

  /** It asks for nothing once ready; else for a login unless one is proven, for the status unless that failed, and for
      the fleet, where it is required, once the status is served. */
  lemma AsksFor(b: Boot, t: Tick, needsFleet: bool)
    ensures Check(b, t, needsFleet).asked ==
            Asked(!b.ready && !b.login, !b.ready && IsIn(b, t),
                  !b.ready && IsIn(b, t) && IsServed(t.status) && needsFleet)
  {
  }

  /** The ready marker is written behind the first ready answer, if it can be; the login marker behind a login that
      worked, if it can be, and it is removed behind a 401 or 403, if it can be. */
  lemma MarkersAre(b: Boot, t: Tick, needsFleet: bool)
    ensures
      var c := Check(b, t, needsFleet);
      && c.boot.ready == (b.ready || (c.result == Answered(true) && t.readyWritable))
      && c.boot.login ==
         (if b.ready then b.login
          else
            && (b.login || (t.login == Answered(true) && t.loginWritable))
            && !(IsIn(b, t) && (t.status == Some(401) || t.status == Some(403)) && t.removable))
  {
  }

  predicate LoggedIn(c: Checked, t: Tick) {
    c.asked.login && t.login == Answered(true)
  }

  predicate Refused(c: Checked, t: Tick) {
    c.asked.v2 && t.status.Some? && Rejected(t.status.value)
  }

  datatype Event = SuccessfulLogin | UnmarkedLogin | Refusal | Drop

  /** Whether a check is counted: it logged in; it logged in and could not write the marker; the v2 surface refused its
      session; that refusal removed a marker. */
  predicate Happens(e: Event, c: Checked, t: Tick) {
    match e
    case SuccessfulLogin => LoggedIn(c, t)
    case UnmarkedLogin => LoggedIn(c, t) && !t.loginWritable
    case Refusal => Refused(c, t)
    case Drop => Refused(c, t) && t.removable && !(LoggedIn(c, t) && !t.loginWritable)
  }

  /** How often that happened over a run. */
  function Count(e: Event, ticks: seq<Tick>, needsFleet: bool): nat {
    if ticks == [] then 0
    else
      var n := |ticks| - 1;
      Count(e, ticks[..n], needsFleet) + (if Happens(e, CheckAt(ticks, needsFleet, n), ticks[n]) then 1 else 0)
  }

  /** What one check does to the login marker: created by a login, removed by a refusal. */
  lemma MarkerBalance(b: Boot, t: Tick, needsFleet: bool)
    ensures
      var c := Check(b, t, needsFleet);
      (if b.login then 1 else 0) + (if Happens(SuccessfulLogin, c, t) then 1 else 0) ==
      (if c.boot.login then 1 else 0) + (if Happens(UnmarkedLogin, c, t) then 1 else 0) +
      (if Happens(Drop, c, t) then 1 else 0)
  {
  }

  /** Every successful login is the one in force, or was dropped after a refusal, or could not be marked. */
  lemma {:induction false} LoginsAreAccountedFor(ticks: seq<Tick>, needsFleet: bool)
    ensures Count(SuccessfulLogin, ticks, needsFleet) ==
            Count(Drop, ticks, needsFleet) + Count(UnmarkedLogin, ticks, needsFleet) +
            (if After(ticks, needsFleet).login then 1 else 0)
  {
    if ticks != [] {
      var n := |ticks| - 1;
      LoginsAreAccountedFor(ticks[..n], needsFleet);
      MarkerBalance(After(ticks[..n], needsFleet), ticks[n], needsFleet);
    }
    hide Check, Happens;
  }

  lemma {:induction false} DropsAreRefusals(ticks: seq<Tick>, needsFleet: bool)
    ensures Count(Drop, ticks, needsFleet) <= Count(Refusal, ticks, needsFleet)
  {
    if ticks != [] {
      DropsAreRefusals(ticks[..|ticks| - 1], needsFleet);
    }
    hide Check, LoggedIn, Refused;
  }

  lemma {:induction false} NoneUnmarked(ticks: seq<Tick>, needsFleet: bool)
    requires forall t :: t in ticks ==> t.loginWritable
    ensures Count(UnmarkedLogin, ticks, needsFleet) == 0
  {
    hide Check, LoggedIn, Refused;
    if ticks != [] {
      NoneUnmarked(ticks[..|ticks| - 1], needsFleet);
    }
  }

  /** Extending readiness costs no extra login: with a writable marker, a boot logs in once, and once more for each
      time the v2 surface answered 401 or 403. */
  lemma LoginsAreFew(ticks: seq<Tick>, needsFleet: bool)
    requires forall t :: t in ticks ==> t.loginWritable
    ensures Count(SuccessfulLogin, ticks, needsFleet) <= 1 + Count(Refusal, ticks, needsFleet)
  {
    LoginsAreAccountedFor(ticks, needsFleet);
    DropsAreRefusals(ticks, needsFleet);
    NoneUnmarked(ticks, needsFleet);
    hide Count;
  }

  /** One more check of a run. */
  lemma AfterNext(ticks: seq<Tick>, needsFleet: bool, n: nat)
    requires n < |ticks|
    ensures After(ticks[..n + 1], needsFleet) == CheckAt(ticks, needsFleet, n).boot
  {
    assert ticks[..n + 1][..n] == ticks[..n];
  }

  /** The ready marker means that some check said ready. */
  lemma {:induction false} MarkerWasEarned(ticks: seq<Tick>, needsFleet: bool, n: nat)
    requires n <= |ticks| && After(ticks[..n], needsFleet).ready
    ensures exists k :: 0 <= k < n && CheckAt(ticks, needsFleet, k).result == Answered(true)
    decreases n
  {
    if n > 0 {
      AfterNext(ticks, needsFleet, n - 1);
      hide StagedOf, After;
      if After(ticks[..n - 1], needsFleet).ready {
        MarkerWasEarned(ticks, needsFleet, n - 1);
      } else {
        assert CheckAt(ticks, needsFleet, n - 1).result == Answered(true);
      }
    }
  }

  /** The first check of a boot to say ready has seen all of it. */
  lemma FirstReady(ticks: seq<Tick>, needsFleet: bool, k: nat)
    requires k < |ticks|
    requires CheckAt(ticks, needsFleet, k).result == Answered(true)
    requires forall i :: 0 <= i < k ==> CheckAt(ticks, needsFleet, i).result != Answered(true)
    ensures
      var t := ticks[k];
      && (After(ticks[..k], needsFleet).login || t.login == Answered(true))
      && (t.loginWritable ==> CheckAt(ticks, needsFleet, k).boot.login)
      && t.status.Some? && 200 <= t.status.value < 500 && t.status.value != 401 && t.status.value != 403
      && (needsFleet ==> t.fleet == Answered(true))
  {
    if After(ticks[..k], needsFleet).ready {
      MarkerWasEarned(ticks, needsFleet, k);
    }
    ReadyIff(After(ticks[..k], needsFleet), ticks[k], needsFleet);
    MarkersAre(After(ticks[..k], needsFleet), ticks[k], needsFleet);
    hide After, Check;
  }

  lemma {:induction false} MarkerStays(ticks: seq<Tick>, needsFleet: bool, k: nat)
    requires k <= |ticks| && After(ticks[..k], needsFleet).ready
    ensures After(ticks, needsFleet).ready
    decreases |ticks| - k
  {
    hide StagedOf;
    if k < |ticks| {
      assert ticks[..k + 1][..k] == ticks[..k];
      MarkerStays(ticks, needsFleet, k + 1);
    } else {
      assert ticks[..k] == ticks;
    }
  }

  /** Once a check has said ready and could say so in the file, every later one does, and asks nobody. */
  lemma ReadyForGood(ticks: seq<Tick>, needsFleet: bool, k: nat, later: nat)
    requires k < later < |ticks|
    requires CheckAt(ticks, needsFleet, k).result == Answered(true) && ticks[k].readyWritable
    ensures CheckAt(ticks, needsFleet, later) == Checked(After(ticks[..later], needsFleet), Answered(true), NOTHING)
  {
    assert ticks[..k + 1][..k] == ticks[..k];
    assert After(ticks[..k + 1], needsFleet) == CheckAt(ticks, needsFleet, k).boot;
    assert ticks[..later][..k + 1] == ticks[..k + 1];
    hide StagedOf, After;
    MarkerStays(ticks[..later], needsFleet, k + 1);
  }

  predicate HappensAt(e: Event, ticks: seq<Tick>, needsFleet: bool, k: nat)
    requires k < |ticks|
  {
    Happens(e, CheckAt(ticks, needsFleet, k), ticks[k])
  }

  /** Check `j` logged in, and no check from then until the `n`th dropped that login. */
  predicate InForceSince(ticks: seq<Tick>, needsFleet: bool, j: nat, n: nat)
    requires n <= |ticks|
  {
    && j < n && HappensAt(SuccessfulLogin, ticks, needsFleet, j)
    && forall i :: j <= i < n ==> !HappensAt(Drop, ticks, needsFleet, i)
  }

  /** The login marker stands for a login that succeeded and that no refusal has dropped since. */
  lemma {:induction false} LoginMarkerMeans(ticks: seq<Tick>, needsFleet: bool, n: nat)
    requires n <= |ticks| && After(ticks[..n], needsFleet).login
    ensures exists j :: InForceSince(ticks, needsFleet, j, n)
    decreases n
  {
    if n > 0 {
      AfterNext(ticks, needsFleet, n - 1);
      MarkerBalance(After(ticks[..n - 1], needsFleet), ticks[n - 1], needsFleet);
      hide After, Check, Happens;
      assert !HappensAt(Drop, ticks, needsFleet, n - 1);
      if HappensAt(SuccessfulLogin, ticks, needsFleet, n - 1) {
        assert InForceSince(ticks, needsFleet, n - 1, n);
      } else {
        LoginMarkerMeans(ticks, needsFleet, n - 1);
        var j :| InForceSince(ticks, needsFleet, j, n - 1);
        assert InForceSince(ticks, needsFleet, j, n);
      }
    }
  }

  // --- how many devices make a fleet -----------------------------------------

  /** The counts that parse as integers, added up. */
  function Total(counts: seq<Option<int>>): int {
    if counts == [] then 0
    else
      var n := |counts| - 1;
      Total(counts[..n]) + (if counts[n].Some? then counts[n].value else 0)
  }

  /** `override` and `counts` are the environment's strings as `int` reads them; `None` where it raises or the variable
      is unset and has no default. */
  method ExpectedFleet(override: Option<int>, counts: seq<Option<int>>) returns (total: int)
    ensures total == if override.Some? then override.value else Total(counts)
  {
    if override.Some? {
      return override.value;
    }
    total := 0;
    for i := 0 to |counts|
      invariant total == Total(counts[..i])
    {
      assert counts[..i + 1][..i] == counts[..i];
      if counts[i].Some? {
        total := total + counts[i].value;
      }
    }
    assert counts[..|counts|] == counts;
  }

  /** Garbling a count takes exactly that count off the expectation: a typo can open the gate early, and never wedges
      it shut. */
  lemma {:induction false} GarbledUndercounts(counts: seq<Option<int>>, k: nat)
    requires k < |counts| && counts[k].Some?
    ensures Total(counts[k := None]) == Total(counts) - counts[k].value
  {
    var n := |counts| - 1;
    if k == n {
      assert counts[k := None][..n] == counts[..n];
    } else {
      assert counts[k := None][..n] == counts[..n][k := None];
      GarbledUndercounts(counts[..n], k);
    }
  }

  /** Where no count parses nothing is expected. */
  lemma {:induction false} NothingExpected(counts: seq<Option<int>>)
    requires forall k :: 0 <= k < |counts| ==> counts[k].None?
    ensures Total(counts) == 0
  {
    if counts != [] {
      NothingExpected(counts[..|counts| - 1]);
    }
  }
}
