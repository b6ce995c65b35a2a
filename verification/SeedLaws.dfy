/** What the seeding keeps over one run, and over any number of boots, whatever the console answers. */
module SeedLaws {
  import opened Wrappers
  import opened Chars
  import opened Lines
  import opened Sequences
  import opened Consoles

  lemma TotalThen(m: Measure, w: World, e: Event)
    ensures Total(m, w.Then(e).trace) == Total(m, w.trace) + Weight(m, e)
  {
    assert w.Then(e).trace[..|w.trace|] == w.trace;
  }

  // --- each loop --------------------------------------------------------------

  /** The API is polled until it answers, or for all the attempts. */
  lemma {:induction false} WaitForApiDoes(script: Script, w: World, attempts: nat)
    ensures
      var (w', answered) := WaitForApi(script, w, attempts);
      && w'.file == w.file && w.trace <= w'.trace
      && (if answered then SystemAsked(true) in w'.trace else |w'.trace| == |w.trace| + 2 * attempts)
      && Total(Seconds, w'.trace) <= Total(Seconds, w.trace) + attempts * POLL_SECONDS
      && forall m :: m != Seconds ==> Total(m, w'.trace) == Total(m, w.trace)
    decreases attempts
  {
    hide Total;
    if attempts > 0 {
      var answered := w.Reply(script).answered;
      var w1 := w.Then(SystemAsked(answered));
      assert w1.trace[|w.trace|] == SystemAsked(answered);
      forall m ensures Total(m, w1.trace) == Total(m, w.trace) {
        TotalThen(m, w, SystemAsked(answered));
      }
      if !answered {
        var w2 := w1.Then(Slept(POLL_SECONDS));
        forall m ensures Total(m, w2.trace) == Total(m, w1.trace) + Weight(m, Slept(POLL_SECONDS)) {
          TotalThen(m, w1, Slept(POLL_SECONDS));
        }
        WaitForApiDoes(script, w2, attempts - 1);
      }
    }
  }

  /** The owner's id is asked for until there is one, or for all the attempts. */
  lemma {:induction false} WaitForOwnerDoes(script: Script, w: World, attempts: nat)
    ensures
      var (w', owner) := WaitForOwnerId(script, w, attempts);
      && w'.file == w.file && w.trace <= w'.trace
      && (if owner != [] then OwnerAsked(owner) in w'.trace else |w'.trace| == |w.trace| + 2 * attempts)
      && Total(Seconds, w'.trace) + (if owner == [] then 0 else POLL_SECONDS) <=
           Total(Seconds, w.trace) + attempts * POLL_SECONDS
      && forall m :: m != Seconds ==> Total(m, w'.trace) == Total(m, w.trace)
    decreases attempts
  {
    hide Total;
    if attempts > 0 {
      var owner := w.Reply(script).id;
      var w1 := w.Then(OwnerAsked(owner));
      assert w1.trace[|w.trace|] == OwnerAsked(owner);
      forall m ensures Total(m, w1.trace) == Total(m, w.trace) {
        TotalThen(m, w, OwnerAsked(owner));
      }
      if owner == [] {
        var w2 := w1.Then(Slept(POLL_SECONDS));
        forall m ensures Total(m, w2.trace) == Total(m, w1.trace) + Weight(m, Slept(POLL_SECONDS)) {
          TotalThen(m, w1, Slept(POLL_SECONDS));
        }
        WaitForOwnerDoes(script, w2, attempts - 1);
      }
    }
  }

  /** A verdict is the console's own word: 200 for a key that works, 401 or 403 for one refused, and without either
      there is no verdict. */
  predicate VerdictIsHeard(verdict: Verdict, key: Text, trace: seq<Event>) {
    match verdict
    case KeyOk => KeyProbed(key, 200) in trace
    case KeyRejected => KeyProbed(key, 401) in trace || KeyProbed(key, 403) in trace
    case NoVerdict => true
  }

  /** The probing stops at the first verdict, and gives up after all its attempts without one. */
  lemma {:induction false} KeyCheckDoes(script: Script, w: World, key: Text, attempts: nat)
    ensures
      var (w', verdict) := KeyCheck(script, w, key, attempts);
      && w'.file == w.file && w.trace <= w'.trace
      && VerdictIsHeard(verdict, key, w'.trace)
      && Total(Probes, w'.trace) <= Total(Probes, w.trace) + attempts
      && (verdict.NoVerdict? ==> Total(Probes, w'.trace) == Total(Probes, w.trace) + attempts)
      && Total(Verdicts, w'.trace) == Total(Verdicts, w.trace) + (if verdict.NoVerdict? then 0 else 1)
      && Total(Seconds, w'.trace) + (if verdict.NoVerdict? then 0 else POLL_SECONDS) <=
           Total(Seconds, w.trace) + attempts * POLL_SECONDS
      && forall m :: m != Seconds && m != Probes && m != Verdicts ==> Total(m, w'.trace) == Total(m, w.trace)
    decreases attempts
  {
    hide Total;
    if attempts > 0 {
      var code := w.Reply(script).status;
      var w1 := w.Then(KeyProbed(key, code));
      assert w1.trace[|w.trace|] == KeyProbed(key, code);
      forall m ensures Total(m, w1.trace) == Total(m, w.trace) + Weight(m, KeyProbed(key, code)) {
        TotalThen(m, w, KeyProbed(key, code));
      }
      if code != 200 && code != 401 && code != 403 {
        var w2 := w1.Then(Slept(POLL_SECONDS));
        forall m ensures Total(m, w2.trace) == Total(m, w1.trace) + Weight(m, Slept(POLL_SECONDS)) {
          TotalThen(m, w1, Slept(POLL_SECONDS));
        }
        KeyCheckDoes(script, w2, key, attempts - 1);
      }
    }
  }

  // --- the owner ----------------------------------------------------------------

  lemma LoginDoes(script: Script, w: World)
    ensures
      var (w', code) := TryLogin(script, w);
      && w'.file == w.file && w.trace <= w'.trace
      && forall m :: Total(m, w'.trace) == Total(m, w.trace) + (if m == Evidence && code == 200 then 1 else 0)
  {
    hide Total;
    var (w', code) := TryLogin(script, w);
    forall m ensures Total(m, w'.trace) == Total(m, w.trace) + (if m == Evidence && code == 200 then 1 else 0) {
      TotalThen(m, w, LoginTried(code));
    }
  }

  lemma PostSetupDoes(script: Script, w: World)
    ensures
      var (w', done) := PostSetup(script, w);
      && w'.file == w.file && w.trace <= w'.trace
      && Total(Posts, w'.trace) == Total(Posts, w.trace) + 1
      && (done <==> Total(Evidence, w'.trace) > Total(Evidence, w.trace))
      && Total(Evidence, w'.trace) >= Total(Evidence, w.trace)
      && forall m :: m != Posts && m != Evidence ==> Total(m, w'.trace) == Total(m, w.trace)
  {
    hide Total;
    var a := w.Reply(script);
    var w1 := w.Then(SetupPosted(a.status, a.alreadySetup));
    forall m ensures Total(m, w1.trace) == Total(m, w.trace) + Weight(m, SetupPosted(a.status, a.alreadySetup)) {
      TotalThen(m, w, SetupPosted(a.status, a.alreadySetup));
    }
    LoginDoes(script, w1);
  }

  lemma {:induction false} TrySetupDoes(script: Script, w: World, attempts: nat)
    ensures
      var (w', done) := TrySetup(script, w, attempts);
      && w'.file == w.file && w.trace <= w'.trace
      && Total(Posts, w.trace) <= Total(Posts, w'.trace) <= Total(Posts, w.trace) + attempts
      && (!done ==> Total(Posts, w'.trace) == Total(Posts, w.trace) + attempts)
      && Total(Seconds, w'.trace) <=
           Total(Seconds, w.trace) + (if attempts == 0 then 0 else (attempts - 1) * SETUP_RETRY_SECONDS)
      && (done <==> Total(Evidence, w'.trace) > Total(Evidence, w.trace))
      && Total(Evidence, w'.trace) >= Total(Evidence, w.trace)
      && Total(Mints, w'.trace) == Total(Mints, w.trace)
      && Total(Publications, w'.trace) == Total(Publications, w.trace)
    decreases attempts
  {
    hide Total, PostSetup;
    if attempts > 0 {
      PostSetupDoes(script, w);
      var (w1, done) := PostSetup(script, w);
      if !done && attempts == 1 {
        TrySetupDoes(script, w1, 0);
      } else if !done {
        var w2 := w1.Then(Slept(SETUP_RETRY_SECONDS));
        forall m ensures Total(m, w2.trace) == Total(m, w1.trace) + Weight(m, Slept(SETUP_RETRY_SECONDS)) {
          TotalThen(m, w1, Slept(SETUP_RETRY_SECONDS));
        }
        TrySetupDoes(script, w2, attempts - 1);
      }
    }
  }

  /** The owner is taken to exist exactly on the console's word for it. */
  lemma EnsureOwnerDoes(script: Script, w: World)
    ensures
      var (w', owned) := EnsureOwner(script, w);
      && w'.file == w.file && w.trace <= w'.trace
      && (owned <==> Total(Evidence, w'.trace) > Total(Evidence, w.trace))
      && Total(Evidence, w'.trace) >= Total(Evidence, w.trace)
      && Total(Posts, w.trace) <= Total(Posts, w'.trace) <= Total(Posts, w.trace) + SETUP_ATTEMPTS
      && Total(Seconds, w'.trace) <= Total(Seconds, w.trace) + 60
      && Total(Mints, w'.trace) == Total(Mints, w.trace)
      && Total(Publications, w'.trace) == Total(Publications, w.trace)
  {
    hide Total, TrySetup;
    LoginDoes(script, w);
    var (w1, code) := TryLogin(script, w);
    var isSetup := w1.Reply(script).isSetup;
    var w2 := w1.Then(UlpAsked(isSetup));
    forall m ensures Total(m, w2.trace) == Total(m, w1.trace) + Weight(m, UlpAsked(isSetup)) {
      TotalThen(m, w1, UlpAsked(isSetup));
    }
    TrySetupDoes(script, w2, SETUP_ATTEMPTS);
  }

  /** Setups are only ever posted after a login that failed and a ULP that knows of no setup. */
  ghost predicate PostsAreJustified(trace: seq<Event>) {
    Total(Posts, trace) > 0 ==>
      exists i :: SetupUnknownAt(trace, i) && Total(Posts, trace[..i + 2]) == 0
  }

  predicate SetupUnknownAt(trace: seq<Event>, i: int) {
    0 <= i < |trace| - 1 && trace[i].LoginTried? && trace[i].status != 200 && trace[i + 1] == UlpAsked(false)
  }

  lemma EnsureOwnerJustifies(script: Script, w: World)
    requires Total(Posts, w.trace) == 0
    ensures PostsAreJustified(EnsureOwner(script, w).0.trace)
  {
    hide Total, TrySetup;
    LoginDoes(script, w);
    var (w1, code) := TryLogin(script, w);
    var isSetup := w1.Reply(script).isSetup;
    var w2 := w1.Then(UlpAsked(isSetup));
    TotalThen(Posts, w1, UlpAsked(isSetup));
    TrySetupDoes(script, w2, SETUP_ATTEMPTS);
    var (w3, _) := EnsureOwner(script, w);
    if code != 200 && !isSetup {
      var i := |w.trace|;
      assert w3.trace[..i + 2] == w2.trace;
      assert SetupUnknownAt(w3.trace, i);
    }
  }

  lemma JustifiedExtends(trace: seq<Event>, more: seq<Event>)
    requires PostsAreJustified(trace) && trace <= more && Total(Posts, more) == Total(Posts, trace)
    ensures PostsAreJustified(more)
  {
    hide Total;
    if Total(Posts, trace) > 0 {
      var i :| SetupUnknownAt(trace, i) && Total(Posts, trace[..i + 2]) == 0;
      assert more[..i + 2] == trace[..i + 2];
      assert SetupUnknownAt(more, i);
    }
  }

  // --- the key ----------------------------------------------------------------

  /** The key file changes only to a key minted in this run that answered 200 in this run. */
  ghost predicate FileIsProven(before: Option<Text>, after: World) {
    || after.file == before
    || exists key ::
         && key != [] && after.file == Some(Published(key))
         && KeyMinted(key) in after.trace && KeyProbed(key, 200) in after.trace
  }

  lemma MintDoes(script: Script, w: World)
    ensures
      var (w', key) := MintKey(script, w);
      && w'.file == w.file && w.trace <= w'.trace && KeyMinted(key) in w'.trace
      && forall m :: Total(m, w'.trace) == Total(m, w.trace) + (if m == Mints then 1 else 0)
  {
    hide Total;
    var (w', key) := MintKey(script, w);
    assert w'.trace[|w.trace|] == KeyMinted(key);
    forall m ensures Total(m, w'.trace) == Total(m, w.trace) + (if m == Mints then 1 else 0) {
      TotalThen(m, w, KeyMinted(key));
    }
  }

  lemma PublishDoes(script: Script, w: World, key: Text)
    ensures
      var (w', ok) := PublishKey(script, w, key);
      && w.trace <= w'.trace
      && (if ok then w'.file == Some(Published(key)) else w'.file == w.file)
      && forall m :: Total(m, w'.trace) == Total(m, w.trace) + (if m == Publications && ok then 1 else 0)
  {
    hide Total;
    var (w', ok) := PublishKey(script, w, key);
    forall m ensures Total(m, w'.trace) == Total(m, w.trace) + (if m == Publications && ok then 1 else 0) {
      TotalThen(m, w, if ok then KeyPublished(key) else PublishFailed(key));
    }
  }

  lemma InExtends(e: Event, trace: seq<Event>, more: seq<Event>)
    requires e in trace && trace <= more
    ensures e in more
  {
    var i :| 0 <= i < |trace| && trace[i] == e;
    assert more[i] == e;
  }

  lemma ReplaceDoes(script: Script, w: World)
    ensures
      var (w', ok) := Replace(script, w);
      && w.trace <= w'.trace
      && Total(Seconds, w'.trace) <= Total(Seconds, w.trace) + 475
      && Total(Mints, w'.trace) <= Total(Mints, w.trace) + 1
      && Total(Posts, w'.trace) == Total(Posts, w.trace)
      && Total(Evidence, w'.trace) == Total(Evidence, w.trace)
      && FileIsProven(w.file, w')
      && (!ok ==> w'.file == w.file)
      && (ok ==> exists key :: key != [] && w'.file == Some(Published(key)) && KeyProbed(key, 200) in w'.trace)
  {
    hide Total, WaitForOwnerId, KeyCheck, MintKey, PublishKey;
    WaitForOwnerDoes(script, w, OWNER_WAIT_ATTEMPTS);
    var (w1, owner) := WaitForOwnerId(script, w, OWNER_WAIT_ATTEMPTS);
    if owner != [] {
      MintDoes(script, w1);
      var (w2, key) := MintKey(script, w1);
      if key != [] {
        KeyCheckDoes(script, w2, key, KEY_CHECK_ATTEMPTS);
        var (w3, verdict) := KeyCheck(script, w2, key, KEY_CHECK_ATTEMPTS);
        InExtends(KeyMinted(key), w2.trace, w3.trace);
        if verdict.KeyOk? {
          PublishDoes(script, w3, key);
          var (w4, _) := PublishKey(script, w3, key);
          InExtends(KeyMinted(key), w3.trace, w4.trace);
          InExtends(KeyProbed(key, 200), w3.trace, w4.trace);
        }
      }
    }
  }

  /** Why a run may mint: it read no key, or could not read, or the console refused the key it read. */
  ghost predicate MintIsCalledFor(trace: seq<Event>) {
    || KeyRead([]) in trace
    || ReadFailed in trace
    || exists key :: KeyRead(key) in trace && VerdictIsHeard(KeyRejected, key, trace)
  }

  /** What the file holds answered 200 in this run: the key it held already, or the one just published. */
  ghost predicate KeyInForce(before: Option<Text>, after: World) {
    exists key ::
      && key != [] && KeyProbed(key, 200) in after.trace
      && (after.file == Some(Published(key)) ||
          (after.file == before && before.Some? && key == KeyIn(before.value)))
  }

  /** No key was found: there was none to read, or reading failed. */
  predicate NothingRead(w: World, trace: seq<Event>) {
    || ReadFailed in trace
    || (KeyRead([]) in trace && (w.file.Some? ==> KeyIn(w.file.value) == []))
  }

  lemma ReadDoes(script: Script, w: World)
    ensures
      var (w', key) := ReadKey(script, w);
      && w'.file == w.file && w.trace <= w'.trace
      && (key == [] ==> NothingRead(w, w'.trace))
      && (key != [] ==> KeyRead(key) in w'.trace && w.file.Some? && key == KeyIn(w.file.value))
      && forall m :: Total(m, w'.trace) == Total(m, w.trace)
  {
    hide Total;
    var (w', key) := ReadKey(script, w);
    var e := w'.trace[|w.trace|];
    assert e in w'.trace && w' == w.Then(e);
    forall m ensures Total(m, w'.trace) == Total(m, w.trace) {
      TotalThen(m, w, e);
    }
  }

  lemma NothingReadCalls(w: World, trace: seq<Event>, more: seq<Event>)
    requires NothingRead(w, trace) && trace <= more
    ensures NothingRead(w, more) && MintIsCalledFor(trace) && MintIsCalledFor(more)
  {
    if ReadFailed in trace {
      InExtends(ReadFailed, trace, more);
    } else {
      InExtends(KeyRead([]), trace, more);
    }
  }

  /** Why a run with this file mints: no key was found, or the console refused the one in the file. */
  predicate FileCallsForMint(w: World, trace: seq<Event>) {
    NothingRead(w, trace) || (w.file.Some? && VerdictIsHeard(KeyRejected, KeyIn(w.file.value), trace))
  }

  lemma EnsureApiKeyDoes(script: Script, w: World)
    ensures
      var (w', ok) := EnsureApiKey(script, w);
      && w.trace <= w'.trace
      && Total(Seconds, w'.trace) <= Total(Seconds, w.trace) + 650
      && Total(Mints, w'.trace) <= Total(Mints, w.trace) + 1
      && (Total(Mints, w'.trace) > Total(Mints, w.trace) ==>
            MintIsCalledFor(w'.trace) && FileCallsForMint(w, w'.trace))
      && Total(Posts, w'.trace) == Total(Posts, w.trace)
      && Total(Evidence, w'.trace) == Total(Evidence, w.trace)
      && FileIsProven(w.file, w')
      && (!ok ==> w'.file == w.file)
      && (ok ==> KeyInForce(w.file, w'))
  {
    hide Total, KeyCheck, ReadKey, Replace, KeyIn, FileIsProven, NothingRead;
    ReadDoes(script, w);
    var (w1, existing) := ReadKey(script, w);
    var (w', _) := EnsureApiKey(script, w);
    if existing == [] {
      ReplaceDoes(script, w1);
      NothingReadCalls(w, w1.trace, w'.trace);
    } else {
      KeyCheckDoes(script, w1, existing, KEY_CHECK_ATTEMPTS);
      var (w2, verdict) := KeyCheck(script, w1, existing, KEY_CHECK_ATTEMPTS);
      InExtends(KeyRead(existing), w1.trace, w2.trace);
      SameFileIsProven(w2);
      if verdict.KeyRejected? {
        ReplaceDoes(script, w2);
        InExtends(KeyRead(existing), w2.trace, w'.trace);
        RejectionExtends(existing, w2.trace, w'.trace);
      }
    }
  }

  lemma SameFileIsProven(w: World)
    ensures FileIsProven(w.file, w)
  {
  }

  lemma RejectionExtends(key: Text, trace: seq<Event>, more: seq<Event>)
    requires VerdictIsHeard(KeyRejected, key, trace) && trace <= more
    ensures VerdictIsHeard(KeyRejected, key, more)
  {
    if KeyProbed(key, 401) in trace {
      InExtends(KeyProbed(key, 401), trace, more);
    } else {
      InExtends(KeyProbed(key, 403), trace, more);
    }
  }

  /** How a key's seeding ended, as its last event tells: a key accepted and kept, or one published. */
  predicate EndsWell(trace: seq<Event>) {
    trace != [] && var e := trace[|trace| - 1];
    e.KeyPublished? || (e.KeyProbed? && e.status == 200)
  }

  lemma {:induction false} KeyCheckEnds(script: Script, w: World, key: Text, attempts: nat)
    requires attempts > 0
    ensures
      var (w', verdict) := KeyCheck(script, w, key, attempts);
      EndsWell(w'.trace) <==> verdict.KeyOk?
    decreases attempts
  {
    var w1 := w.Then(KeyProbed(key, w.Reply(script).status)).Then(Slept(POLL_SECONDS));
    if attempts > 1 {
      KeyCheckEnds(script, w1, key, attempts - 1);
    }
  }

  lemma {:induction false} WaitForOwnerEnds(script: Script, w: World, attempts: nat)
    requires attempts > 0
    ensures !EndsWell(WaitForOwnerId(script, w, attempts).0.trace)
    decreases attempts
  {
    var w1 := w.Then(OwnerAsked(w.Reply(script).id)).Then(Slept(POLL_SECONDS));
    if attempts > 1 {
      WaitForOwnerEnds(script, w1, attempts - 1);
    }
  }

  lemma ReplaceEnds(script: Script, w: World)
    ensures
      var (w', ok) := Replace(script, w);
      EndsWell(w'.trace) <==> ok
  {
    hide WaitForOwnerId, KeyCheck, MintKey, PublishKey, EndsWell;
    WaitForOwnerEnds(script, w, OWNER_WAIT_ATTEMPTS);
    var (w1, owner) := WaitForOwnerId(script, w, OWNER_WAIT_ATTEMPTS);
    var (w2, key) := MintKey(script, w1);
    KeyCheckEnds(script, w2, key, KEY_CHECK_ATTEMPTS);
    MintAndPublishEnd(script, w1, key);
    MintAndPublishEnd(script, KeyCheck(script, w2, key, KEY_CHECK_ATTEMPTS).0, key);
  }

  lemma MintAndPublishEnd(script: Script, w: World, key: Text)
    ensures !EndsWell(MintKey(script, w).0.trace)
    ensures EndsWell(PublishKey(script, w, key).0.trace) <==> PublishKey(script, w, key).1
  {
  }

  /** The seeding of a key succeeds exactly when it ends on a 200 for the key there was, or on a publication. */
  lemma SuccessIff(script: Script, w: World)
    ensures
      var (w', ok) := EnsureApiKey(script, w);
      EndsWell(w'.trace) <==> ok
  {
    var (w1, existing) := ReadKey(script, w);
    KeyCheckEnds(script, w1, existing, KEY_CHECK_ATTEMPTS);
    hide KeyCheck, Replace, ReadKey;
    ReplaceEnds(script, w1);
    ReplaceEnds(script, KeyCheck(script, w1, existing, KEY_CHECK_ATTEMPTS).0);
  }

  // --- no mint without a reason heard before --------------------------------------

  /** Every key was minted for a reason the trace gives before it. */
  ghost predicate MintsAreJustified(trace: seq<Event>) {
    forall i :: 0 <= i < |trace| && trace[i].KeyMinted? ==> MintIsCalledFor(trace[..i])
  }

  lemma ReasonExtends(trace: seq<Event>, more: seq<Event>)
    requires MintIsCalledFor(trace) && trace <= more
    ensures MintIsCalledFor(more)
  {
    hide VerdictIsHeard;
    if KeyRead([]) in trace {
      InExtends(KeyRead([]), trace, more);
    } else if ReadFailed in trace {
      InExtends(ReadFailed, trace, more);
    } else {
      var key :| KeyRead(key) in trace && VerdictIsHeard(KeyRejected, key, trace);
      InExtends(KeyRead(key), trace, more);
      RejectionExtends(key, trace, more);
    }
  }

  lemma {:induction false} TotalGrows(m: Measure, trace: seq<Event>, more: seq<Event>)
    requires trace <= more
    ensures Total(m, trace) <= Total(m, more)
    decreases |more|
  {
    hide Weight;
    if trace == more {
    } else {
      TotalGrows(m, trace, more[..|more| - 1]);
    }
  }

  /** What mints nothing needs no reason. */
  lemma {:induction false} JustifiedOn(trace: seq<Event>, more: seq<Event>)
    requires MintsAreJustified(trace) && trace <= more && Total(Mints, more) == Total(Mints, trace)
    ensures MintsAreJustified(more)
    decreases |more|
  {
    hide MintIsCalledFor;
    if trace == more {
    } else {
      var n := |more| - 1;
      TotalGrows(Mints, trace, more[..n]);
      assert !more[n].KeyMinted?;
      JustifiedOn(trace, more[..n]);
      forall i | 0 <= i < |more| && more[i].KeyMinted?
        ensures MintIsCalledFor(more[..i])
      {
        assert more[..n][..i] == more[..i];
      }
    }
  }

  lemma MintIsJustified(w: World, key: Text)
    requires MintsAreJustified(w.trace) && MintIsCalledFor(w.trace)
    ensures MintsAreJustified(w.Then(KeyMinted(key)).trace)
  {
    hide MintIsCalledFor;
    var trace := w.Then(KeyMinted(key)).trace;
    forall i | 0 <= i < |trace| && trace[i].KeyMinted?
      ensures MintIsCalledFor(trace[..i])
    {
      assert trace[..i] == w.trace[..i];
      assert w.trace[..|w.trace|] == w.trace;
    }
  }

  lemma ReplaceJustifies(script: Script, w: World)
    requires MintsAreJustified(w.trace) && MintIsCalledFor(w.trace)
    ensures MintsAreJustified(Replace(script, w).0.trace)
  {
    hide Total, WaitForOwnerId, KeyCheck, PublishKey, MintIsCalledFor, MintsAreJustified;
    WaitForOwnerDoes(script, w, OWNER_WAIT_ATTEMPTS);
    var (w1, owner) := WaitForOwnerId(script, w, OWNER_WAIT_ATTEMPTS);
    JustifiedOn(w.trace, w1.trace);
    ReasonExtends(w.trace, w1.trace);
    var (w2, key) := MintKey(script, w1);
    MintIsJustified(w1, key);
    KeyCheckDoes(script, w2, key, KEY_CHECK_ATTEMPTS);
    var (w3, _) := KeyCheck(script, w2, key, KEY_CHECK_ATTEMPTS);
    JustifiedOn(w2.trace, w3.trace);
    PublishDoes(script, w3, key);
    JustifiedOn(w3.trace, PublishKey(script, w3, key).0.trace);
  }

  lemma EnsureApiKeyJustifies(script: Script, w: World)
    requires MintsAreJustified(w.trace)
    ensures MintsAreJustified(EnsureApiKey(script, w).0.trace)
  {
    hide Total, KeyCheck, ReadKey, Replace, MintsAreJustified, NothingRead;
    ReadDoes(script, w);
    var (w1, existing) := ReadKey(script, w);
    JustifiedOn(w.trace, w1.trace);
    if existing == [] {
      NothingReadCalls(w, w1.trace, w1.trace);
      ReplaceJustifies(script, w1);
    } else {
      KeyCheckDoes(script, w1, existing, KEY_CHECK_ATTEMPTS);
      var (w2, verdict) := KeyCheck(script, w1, existing, KEY_CHECK_ATTEMPTS);
      JustifiedOn(w1.trace, w2.trace);
      if verdict.KeyRejected? {
        InExtends(KeyRead(existing), w1.trace, w2.trace);
        ReplaceJustifies(script, w2);
      }
    }
  }

  // --- one run ------------------------------------------------------------------

  lemma StartIsEmpty(m: Measure, file: Option<Text>)
    ensures Total(m, World([], file).trace) == 0
  {
  }

  /** Over one boot, whatever the console answers: at most five setups, and only where nothing told of an owner; a
      success has seen the console tell of one; at most 1310 seconds asleep. */
  lemma RunIsBounded(script: Script, file: Option<Text>, seedApiKey: bool)
    ensures
      var (w, ok) := Run(script, file, seedApiKey);
      && Total(Posts, w.trace) <= 5 && PostsAreJustified(w.trace)
      && (ok ==> Total(Evidence, w.trace) > 0)
      && (!seedApiKey ==> (ok <==> Total(Evidence, w.trace) > 0))
      && Total(Seconds, w.trace) <= 1310
  {
    hide Total, WaitForApi, EnsureOwner, EnsureApiKey, PostsAreJustified, FileIsProven, KeyInForce;
    forall m ensures Total(m, World([], file).trace) == 0 {
      StartIsEmpty(m, file);
    }
    WaitForApiDoes(script, World([], file), API_WAIT_ATTEMPTS);
    var (w0, _) := WaitForApi(script, World([], file), API_WAIT_ATTEMPTS);
    EnsureOwnerDoes(script, w0);
    EnsureOwnerJustifies(script, w0);
    var (w1, _) := EnsureOwner(script, w0);
    EnsureApiKeyDoes(script, w1);
    var (w2, _) := EnsureApiKey(script, w1);
    JustifiedExtends(w1.trace, w2.trace);
  }

  /** Over one boot, whatever the console answers: at most one key is minted, and only after none was read or the one
      read was refused with 401 or 403; the file changes only to a key minted and accepted in this run; a run that
      fails leaves it alone; a run that seeds a key and succeeds leaves one there that answered 200. */
  lemma RunKeepsCustody(script: Script, file: Option<Text>, seedApiKey: bool)
    ensures
      var (w, ok) := Run(script, file, seedApiKey);
      && Total(Mints, w.trace) <= 1
      && MintsAreJustified(w.trace)
      && (Total(Mints, w.trace) > 0 ==> MintIsCalledFor(w.trace))
      && FileIsProven(file, w)
      && (!ok ==> w.file == file)
      && (ok && seedApiKey ==> KeyInForce(file, w))
      && (!seedApiKey ==> w.file == file && Total(Mints, w.trace) == 0)
  {
    hide Total, WaitForApi, EnsureOwner, EnsureApiKey, FileIsProven, KeyInForce, MintIsCalledFor;
    StartIsEmpty(Mints, file);
    assert MintsAreJustified(World([], file).trace);
    hide MintsAreJustified;
    WaitForApiDoes(script, World([], file), API_WAIT_ATTEMPTS);
    var (w0, _) := WaitForApi(script, World([], file), API_WAIT_ATTEMPTS);
    EnsureOwnerDoes(script, w0);
    var (w1, _) := EnsureOwner(script, w0);
    SameFileIsProven(w1);
    EnsureApiKeyDoes(script, w1);
    JustifiedOn(World([], file).trace, w0.trace);
    JustifiedOn(w0.trace, w1.trace);
    EnsureApiKeyJustifies(script, w1);
  }

  lemma {:induction false} MintedCounts(key: Text, trace: seq<Event>)
    requires KeyMinted(key) in trace
    ensures Total(Mints, trace) > 0
  {
    var n := |trace| - 1;
    if trace[n] != KeyMinted(key) {
      assert trace == trace[..n] + [trace[n]];
      MintedCounts(key, trace[..n]);
    }
  }

  // --- a key in the file ------------------------------------------------------

  /** A run mints in spite of a key in the file only if that key drew a 401 or 403, or could not be read. */
  lemma KeyInFileIsReplaced(script: Script, file: Option<Text>, seedApiKey: bool)
    requires file.Some? && KeyIn(file.value) != []
    requires Total(Mints, Run(script, file, seedApiKey).0.trace) > 0
    ensures
      var trace := Run(script, file, seedApiKey).0.trace;
      ReadFailed in trace || VerdictIsHeard(KeyRejected, KeyIn(file.value), trace)
  {
    hide Total, WaitForApi, EnsureOwner, EnsureApiKey, KeyIn, FileIsProven, KeyInForce, MintIsCalledFor;
    StartIsEmpty(Mints, file);
    WaitForApiDoes(script, World([], file), API_WAIT_ATTEMPTS);
    var (w0, _) := WaitForApi(script, World([], file), API_WAIT_ATTEMPTS);
    EnsureOwnerDoes(script, w0);
    var (w1, _) := EnsureOwner(script, w0);
    EnsureApiKeyDoes(script, w1);
  }

  /** A console that accepts everything and mints `id`, and a key file that cannot be read while it can be written. */
  function UnreadableFile(id: Text): Script {
    n => Answer(true, 200, false, true, id, n != 2)
  }

  lemma UnreadableOwner(file: Option<Text>, id: Text)
    ensures
      var s := UnreadableFile(id);
      var (w, _) := WaitForApi(s, World([], file), API_WAIT_ATTEMPTS);
      EnsureOwner(s, w) == (World([SystemAsked(true), LoginTried(200)], file), true)
  {
    hide TrySetup;
    assert World([], file).Then(SystemAsked(true)).Then(LoginTried(200)).trace == [SystemAsked(true), LoginTried(200)];
  }

  lemma UnreadableReplaced(w: World, id: Text)
    requires |w.trace| >= 3 && id != []
    ensures
      Replace(UnreadableFile(id), w) ==
      (World(w.trace + [OwnerAsked(id), KeyMinted(id), KeyProbed(id, 200), KeyPublished(id)], Some(Published(id))),
       true)
  {
    var s := UnreadableFile(id);
    var w1 := w.Then(OwnerAsked(id));
    assert WaitForOwnerId(s, w, OWNER_WAIT_ATTEMPTS) == (w1, id);
    var w2 := w1.Then(KeyMinted(id));
    assert MintKey(s, w1) == (w2, id);
    var w3 := w2.Then(KeyProbed(id, 200));
    assert KeyCheck(s, w2, id, KEY_CHECK_ATTEMPTS) == (w3, KeyOk);
    hide WaitForOwnerId, KeyCheck, MintKey;
    assert w3.trace + [KeyPublished(id)] ==
           w.trace + [OwnerAsked(id), KeyMinted(id), KeyProbed(id, 200), KeyPublished(id)];
  }

  function UnreadableTrace(id: Text): seq<Event> {
    [SystemAsked(true), LoginTried(200), ReadFailed, OwnerAsked(id), KeyMinted(id), KeyProbed(id, 200),
     KeyPublished(id)]
  }

  lemma UnreadableRead(w: World, id: Text)
    requires w.trace == [SystemAsked(true), LoginTried(200)] && w.file.Some?
    ensures ReadKey(UnreadableFile(id), w) == (w.Then(ReadFailed), [])
  {
  }

  lemma UnreadableRun(contents: Text, id: Text)
    requires id != []
    ensures Run(UnreadableFile(id), Some(contents), true) ==
            (World(UnreadableTrace(id), Some(Published(id))), true)
  {
    hide Replace, WaitForApi, EnsureOwner, UnreadableFile, ReadKey, KeyCheck;
    UnreadableOwner(Some(contents), id);
    var w := World([SystemAsked(true), LoginTried(200)], Some(contents));
    UnreadableRead(w, id);
    UnreadableReplaced(w.Then(ReadFailed), id);
    assert w.Then(ReadFailed).trace + [OwnerAsked(id), KeyMinted(id), KeyProbed(id, 200), KeyPublished(id)] ==
           UnreadableTrace(id);
  }

  /** A key that merely cannot be read is replaced too, without the console ever being asked about it. */
  lemma UnreadableKeyIsReplaced(contents: Text, id: Text)
    requires id != [] && id != KeyIn(contents)
    ensures
      var (w, ok) := Run(UnreadableFile(id), Some(contents), true);
      && ok && w.file == Some(Published(id)) && Total(Mints, w.trace) > 0
      && forall status :: KeyProbed(KeyIn(contents), status) !in w.trace
  {
    UnreadableRun(contents, id);
    UnreadableMints(id);
    UnreadableIsNotTried(KeyIn(contents), id);
    hide Run, KeyIn, UnreadableFile, UnreadableTrace, Total;
  }

  lemma UnreadableMints(id: Text)
    ensures Total(Mints, UnreadableTrace(id)) > 0
  {
    hide Total;
    assert UnreadableTrace(id)[4] == KeyMinted(id);
    MintedCounts(id, UnreadableTrace(id));
  }

  lemma UnreadableIsNotTried(key: Text, id: Text)
    requires id != key
    ensures forall status :: KeyProbed(key, status) !in UnreadableTrace(id)
  {
  }

  /** With this key file, whatever the console answers, a run mints only if the key in the file drew a 401 or 403. Runs
      in which reading the file fails are looked at only if `mayFail`. */
  ghost predicate OnlyRejections(contents: Text, mayFail: bool) {
    forall script: Script, seedApiKey: bool ::
      var trace := Run(script, Some(contents), seedApiKey).0.trace;
      (ReadFailed in trace ==> mayFail) && Total(Mints, trace) > 0 ==>
        VerdictIsHeard(KeyRejected, KeyIn(contents), trace)
  }

  /** Only a rejection is meant to justify a replacement key. That holds exactly as long as the file can be read. */
  lemma OnlyRejectionsIff(contents: Text, mayFail: bool)
    requires KeyIn(contents) != []
    ensures OnlyRejections(contents, mayFail) <==> !mayFail
  {
    hide Run, Total, KeyIn;
    if mayFail {
      var id: Text := if KeyIn(contents) == [0x6E] then [0x6F] else [0x6E];
      UnreadableKeyIsReplaced(contents, id);
    } else {
      forall script: Script, seedApiKey: bool |
        ReadFailed !in Run(script, Some(contents), seedApiKey).0.trace &&
        Total(Mints, Run(script, Some(contents), seedApiKey).0.trace) > 0
        ensures VerdictIsHeard(KeyRejected, KeyIn(contents), Run(script, Some(contents), seedApiKey).0.trace)
      {
        KeyInFileIsReplaced(script, Some(contents), seedApiKey);
      }
    }
  }

  // --- any number of boots ----------------------------------------------------

  /** A boot: what the console and the file system answer during it, and whether a key is asked for. */
  datatype Boot = Boot(script: Script, seedApiKey: bool)

  /** The key file outlives the boots. */
  function FileAfter(boots: seq<Boot>, file: Option<Text>): Option<Text> {
    if boots == [] then file
    else
      var n := |boots| - 1;
      Run(boots[n].script, FileAfter(boots[..n], file), boots[n].seedApiKey).0.file
  }

  function RunAt(boots: seq<Boot>, file: Option<Text>, k: nat): (World, bool)
    requires k < |boots|
  {
    Run(boots[k].script, FileAfter(boots[..k], file), boots[k].seedApiKey)
  }

  lemma FileAfterNext(boots: seq<Boot>, file: Option<Text>, n: nat)
    requires n < |boots|
    ensures FileAfter(boots[..n + 1], file) == RunAt(boots, file, n).0.file
  {
    assert boots[..n + 1][..n] == boots[..n];
  }

  /** Run `k` published this key, minted and accepted in that same run, and succeeded. */
  predicate PublishedAt(boots: seq<Boot>, file: Option<Text>, k: nat, key: Text) {
    && k < |boots| && key != []
    && var (w, ok) := RunAt(boots, file, k);
       ok && w.file == Some(Published(key)) && KeyMinted(key) in w.trace && KeyProbed(key, 200) in w.trace
  }

  ghost predicate HoldsPublished(contents: Option<Text>, boots: seq<Boot>, file: Option<Text>, n: nat) {
    exists k: nat, key: Text :: k < n && PublishedAt(boots, file, k, key) && contents == Some(Published(key))
  }

  lemma RunPublishes(boots: seq<Boot>, file: Option<Text>, n: nat) returns (key: Text)
    requires n < |boots| && RunAt(boots, file, n).0.file != FileAfter(boots[..n], file)
    ensures PublishedAt(boots, file, n, key) && RunAt(boots, file, n).0.file == Some(Published(key))
  {
    RunKeepsCustody(boots[n].script, FileAfter(boots[..n], file), boots[n].seedApiKey);
    hide Run, Total, FileAfter, MintsAreJustified, MintIsCalledFor;
    var (w, ok) := RunAt(boots, file, n);
    key :| key != [] && w.file == Some(Published(key)) && KeyMinted(key) in w.trace && KeyProbed(key, 200) in w.trace;
  }

  lemma HoldsOn(contents: Option<Text>, boots: seq<Boot>, file: Option<Text>, n: nat)
    requires HoldsPublished(contents, boots, file, n)
    ensures HoldsPublished(contents, boots, file, n + 1)
  {
    hide PublishedAt;
  }

  /** After any number of boots the file is as it was at first, or holds a key that one of the boots minted, saw
      accepted, and published. */
  lemma {:induction false} CustodyOverBoots(boots: seq<Boot>, file: Option<Text>, n: nat)
    requires n <= |boots|
    ensures FileAfter(boots[..n], file) == file || HoldsPublished(FileAfter(boots[..n], file), boots, file, n)
    decreases n
  {
    hide *;
    if n == 0 {
      NoBoots(boots, file);
    } else {
      FileAfterNext(boots, file, n - 1);
      var before := FileAfter(boots[..n - 1], file);
      CustodyOverBoots(boots, file, n - 1);
      if RunAt(boots, file, n - 1).0.file != before {
        var key := RunPublishes(boots, file, n - 1);
        HoldsNow(boots, file, n - 1, key);
      } else if before != file {
        HoldsOn(before, boots, file, n - 1);
      }
    }
  }

  lemma NoBoots(boots: seq<Boot>, file: Option<Text>)
    ensures FileAfter(boots[..0], file) == file
  {
  }

  lemma HoldsNow(boots: seq<Boot>, file: Option<Text>, k: nat, key: Text)
    requires PublishedAt(boots, file, k, key)
    ensures HoldsPublished(Some(Published(key)), boots, file, k + 1)
  {
    hide PublishedAt;
  }

  /** Boots that had a reason to mint. */
  ghost function Reasons(boots: seq<Boot>, file: Option<Text>, n: nat): nat
    requires n <= |boots|
  {
    if n == 0 then 0
    else Reasons(boots, file, n - 1) + (if MintIsCalledFor(RunAt(boots, file, n - 1).0.trace) then 1 else 0)
  }

  function MintsOver(boots: seq<Boot>, file: Option<Text>, n: nat): nat
    requires n <= |boots|
  {
    if n == 0 then 0 else MintsOver(boots, file, n - 1) + Total(Mints, RunAt(boots, file, n - 1).0.trace)
  }

  /** No duplicates: over any number of boots no more keys are minted than boots found no key or had theirs refused. A
      console that is slow, or rate-limits, or answers nonsense, never costs a key. */
  lemma {:induction false} MintsNeedReasons(boots: seq<Boot>, file: Option<Text>, n: nat)
    requires n <= |boots|
    ensures MintsOver(boots, file, n) <= Reasons(boots, file, n)
    decreases n
  {
    hide Run, Total, FileAfter, MintIsCalledFor;
    if n > 0 {
      MintsNeedReasons(boots, file, n - 1);
      RunKeepsCustody(boots[n - 1].script, FileAfter(boots[..n - 1], file), boots[n - 1].seedApiKey);
    }
  }

  lemma NoMintNoChange(script: Script, file: Option<Text>, seedApiKey: bool)
    requires !MintIsCalledFor(Run(script, file, seedApiKey).0.trace)
    ensures Run(script, file, seedApiKey).0.file == file
  {
    RunKeepsCustody(script, file, seedApiKey);
    hide Run, Total, MintIsCalledFor;
    var (w, _) := Run(script, file, seedApiKey);
    if w.file != file {
      var key :| key != [] && w.file == Some(Published(key)) && KeyMinted(key) in w.trace;
      MintedCounts(key, w.trace);
    }
  }

  /** Without a reason to, no boot touches the file. */
  lemma {:induction false} KeyIsKept(boots: seq<Boot>, file: Option<Text>, n: nat)
    requires n <= |boots|
    requires forall k :: 0 <= k < n ==> !MintIsCalledFor(RunAt(boots, file, k).0.trace)
    ensures FileAfter(boots[..n], file) == file
    decreases n
  {
    if n > 0 {
      FileAfterNext(boots, file, n - 1);
      KeyIsKept(boots, file, n - 1);
      NoMintNoChange(boots[n - 1].script, file, boots[n - 1].seedApiKey);
      hide Run, Total, FileAfter, MintIsCalledFor;
    }
  }

  // --- the key a later boot reads ---------------------------------------------

  lemma {:induction false} LeftIsSlice(s: Text)
    ensures forall c :: c in DropSpacesLeft(s) ==> c in s
    ensures DropSpacesLeft(s) == [] || !IsSpace(DropSpacesLeft(s)[0])
  {
    if s != [] && IsSpace(s[0]) {
      LeftIsSlice(s[1..]);
    }
  }

  lemma {:induction false} RightIsPrefix(s: Text)
    ensures DropSpacesRight(s) <= s
    ensures DropSpacesRight(s) == [] || !IsSpace(DropSpacesRight(s)[|DropSpacesRight(s)| - 1])
  {
    if s != [] && IsSpace(s[|s| - 1]) {
      RightIsPrefix(s[..|s| - 1]);
    }
  }

  /** Every character `str.isspace` holds of. */
  const SPACES: seq<int> := [
    0x09, 0x0A, 0x0B, 0x0C, 0x0D, 0x1C, 0x1D, 0x1E, 0x1F, 0x20, 0x85, 0xA0, 0x1680, 0x2000, 0x2001, 0x2002, 0x2003,
    0x2004, 0x2005, 0x2006, 0x2007, 0x2008, 0x2009, 0x200A, 0x2028, 0x2029, 0x202F, 0x205F, 0x3000]

  lemma IsSpaceIff(c: CodePoint)
    ensures IsSpace(c) <==> c in SPACES
  {
  }

  predicate AllSpaces(s: Text) {
    forall i :: 0 <= i < |s| ==> s[i] in SPACES
  }

  predicate IsStripped(s: Text, t: Text, a: Text, b: Text) {
    s == a + t + b && AllSpaces(a) && AllSpaces(b) && (t != [] ==> t[0] !in SPACES && t[|t| - 1] !in SPACES)
  }

  /** Stripping takes the spaces off both ends and leaves everything between them. */
  lemma StripKeepsMiddle(s: Text) returns (a: Text, b: Text)
    ensures IsStripped(s, Strip(s), a, b)
  {
    a := LeftSpaces(s);
    var left := DropSpacesLeft(s);
    b := RightSpaces(left);
    LeftIsSlice(s);
    RightIsPrefix(left);
    var t := Strip(s);
    hide DropSpacesLeft, DropSpacesRight;
    Associates(a, t, b);
    if t != [] {
      IsSpaceIff(t[0]);
      IsSpaceIff(t[|t| - 1]);
    }
    hide IsSpace;
  }

  lemma {:induction false} LeftSpaces(s: Text) returns (a: Text)
    ensures s == a + DropSpacesLeft(s) && AllSpaces(a)
  {
    hide IsSpace, AllSpaces, DropSpacesLeft;
    LeftStep(s);
    if s != [] && IsSpace(s[0]) {
      var more := LeftSpaces(s[1..]);
      a := [s[0]] + more;
      Associates([s[0]], more, DropSpacesLeft(s[1..]));
      assert s == [s[0]] + s[1..];
      OneSpaceMore(s[0], more);
    } else {
      a := [];
      NoSpaces(s);
    }
  }

  lemma LeftStep(s: Text)
    ensures DropSpacesLeft(s) == if s != [] && IsSpace(s[0]) then DropSpacesLeft(s[1..]) else s
  {
    hide IsSpace;
  }

  lemma {:induction false} RightSpaces(s: Text) returns (b: Text)
    ensures s == DropSpacesRight(s) + b && AllSpaces(b)
  {
    hide IsSpace, AllSpaces, DropSpacesRight;
    RightStep(s);
    if s != [] && IsSpace(s[|s| - 1]) {
      var init, last := s[..|s| - 1], s[|s| - 1];
      var more := RightSpaces(init);
      b := more + [last];
      Associates(DropSpacesRight(init), more, [last]);
      assert s == init + [last];
      OneMoreSpace(more, last);
    } else {
      b := [];
      NoSpaces(s);
    }
  }

  lemma RightStep(s: Text)
    ensures DropSpacesRight(s) == if s != [] && IsSpace(s[|s| - 1]) then DropSpacesRight(s[..|s| - 1]) else s
  {
    hide IsSpace;
  }

  lemma NoSpaces(s: Text)
    ensures AllSpaces([]) && [] + s == s && s + [] == s
  {
  }

  lemma OneSpaceMore(c: CodePoint, s: Text)
    requires AllSpaces(s) && IsSpace(c)
    ensures AllSpaces([c] + s)
  {
    IsSpaceIff(c);
    hide IsSpace;
  }

  lemma OneMoreSpace(s: Text, c: CodePoint)
    requires AllSpaces(s) && IsSpace(c)
    ensures AllSpaces(s + [c])
  {
    IsSpaceIff(c);
    hide IsSpace;
  }

  /** No space stands at either end. */
  predicate Trimmed(s: Text) {
    s != [] ==> !IsSpace(s[0]) && !IsSpace(s[|s| - 1])
  }

  lemma StripTrims(s: Text)
    ensures Trimmed(Strip(s)) && forall c :: c in Strip(s) ==> c in s
  {
    LeftIsSlice(s);
    RightIsPrefix(DropSpacesLeft(s));
  }

  lemma StripsBack(key: Text)
    requires Trimmed(key) && key != []
    ensures Strip(key + [LF]) == key
  {
    assert DropSpacesLeft(key + [LF]) == key + [LF];
    assert (key + [LF])[..|key|] == key;
    assert DropSpacesRight(key) == key;
  }

  /** A published key comes back as it was exactly when it has no space at either end and no carriage return. */
  lemma ReadBackIff(key: Text)
    ensures KeyIn(Published(key)) == key <==> Trimmed(key) && CR !in key
  {
    NormalizedHasNoCr(key + [LF]);
    StripTrims(NormalizeEol(key + [LF]));
    if Trimmed(key) && CR !in key {
      NormalizeWithoutCr(key + [LF]);
      hide NormalizeEol;
      if key != [] {
        StripsBack(key);
      } else {
        assert key + [LF] == [LF];
        StripsNewline();
      }
    }
  }

  lemma StripsNewline()
    ensures Strip([LF]) == []
  {
    var newline: Text := [LF];
    var none: Text := [];
    assert newline[1..] == none && IsSpace(newline[0]);
    assert DropSpacesLeft(newline) == DropSpacesLeft(none) == none;
    assert DropSpacesRight(none) == none;
  }
}
