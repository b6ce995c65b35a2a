/** A boot's seeding told by the console's answers alone: what is asked next after each of them, and what the key file
    holds in the end. The `n`th thing done is answered by `script(n)`. */
module SeedSteps {
  import opened Wrappers
  import opened Chars
  import opened Consoles
  import opened SeedLaws

  // --- polling --------------------------------------------------------------------

  /** From `at` on, every other thing being a sleep, none of `n` polls hits. */
  predicate Misses(hits: nat -> bool, at: nat, n: nat) {
    forall k :: 0 <= k < n ==> !hits(at + 2 * k)
  }

  /** The `j`th poll from `at` on is the first that hits. */
  predicate First(hits: nat -> bool, at: nat, j: nat) {
    hits(at + 2 * j) && Misses(hits, at, j)
  }

  function Answers(script: Script): nat -> bool {
    (i: nat) => script(i).answered
  }

  function HasId(script: Script): nat -> bool {
    (i: nat) => script(i).id != []
  }

  function IsVerdict(script: Script): nat -> bool {
    (i: nat) => script(i).status == 200 || script(i).status == 401 || script(i).status == 403
  }

  /** From `at` on `n` times something is asked and then slept over for five seconds. */
  predicate Polls(trace: seq<Event>, at: nat, n: nat, asked: nat -> Event) {
    && at + 2 * n <= |trace|
    && forall k :: 0 <= k < n ==> trace[at + 2 * k] == asked(at + 2 * k) && trace[at + 2 * k + 1] == Slept(5)
  }

  /** `n` polls without a hit, and then, if they were not all the attempts, one that hits. */
  predicate Polled(hits: nat -> bool, asked: nat -> Event, w: World, w': World, attempts: nat, n: nat) {
    var at := |w.trace|;
    && n <= attempts && w.trace <= w'.trace && w'.file == w.file
    && Misses(hits, at, n) && Polls(w'.trace, at, n, asked)
    && (if n < attempts then
          hits(at + 2 * n) && |w'.trace| == at + 2 * n + 1 && w'.trace[at + 2 * n] == asked(at + 2 * n)
        else |w'.trace| == at + 2 * n)
  }

  function SystemAskedAt(script: Script): nat -> Event {
    (i: nat) => SystemAsked(script(i).answered)
  }

  function OwnerAskedAt(script: Script): nat -> Event {
    (i: nat) => OwnerAsked(script(i).id)
  }

  function KeyProbedAt(script: Script, key: Text): nat -> Event {
    (i: nat) => KeyProbed(key, script(i).status)
  }

  lemma NoAttempt(hits: nat -> bool, asked: nat -> Event, w: World)
    ensures Polled(hits, asked, w, w, 0, 0)
  {
  }

  lemma HitAtOnce(hits: nat -> bool, asked: nat -> Event, w: World, attempts: nat)
    requires attempts > 0 && hits(|w.trace|)
    ensures Polled(hits, asked, w, w.Then(asked(|w.trace|)), attempts, 0)
  {
  }

  lemma MissThen(hits: nat -> bool, asked: nat -> Event, w: World, w': World, attempts: nat, n: nat)
    requires !hits(|w.trace|)
    requires Polled(hits, asked, w.Then(asked(|w.trace|)).Then(Slept(5)), w', attempts, n)
    ensures Polled(hits, asked, w, w', attempts + 1, n + 1)
  {
    var at := |w.trace|;
    var w1 := w.Then(asked(at)).Then(Slept(5));
    assert w1.trace[at] == asked(at) && w1.trace[at + 1] == Slept(5);
    assert w'.trace[at] == w1.trace[at] && w'.trace[at + 1] == w1.trace[at + 1];
    OneMoreMiss(hits, at, n);
    OneMorePoll(w'.trace, at, n, asked);
    hide Misses, Polls;
  }

  lemma OneMoreMiss(hits: nat -> bool, at: nat, n: nat)
    requires !hits(at) && Misses(hits, at + 2, n)
    ensures Misses(hits, at, n + 1)
  {
    forall k | 0 <= k < n + 1
      ensures !hits(at + 2 * k)
    {
      assert k > 0 ==> !hits(at + 2 + 2 * (k - 1));
    }
  }

  lemma OneMorePoll(trace: seq<Event>, at: nat, n: nat, asked: nat -> Event)
    requires at + 1 < |trace| && trace[at] == asked(at) && trace[at + 1] == Slept(5)
    requires Polls(trace, at + 2, n, asked)
    ensures Polls(trace, at, n + 1, asked)
  {
    forall k | 0 <= k < n + 1
      ensures trace[at + 2 * k] == asked(at + 2 * k) && trace[at + 2 * k + 1] == Slept(5)
    {
      assert k > 0 ==> trace[at + 2 + 2 * (k - 1)] == asked(at + 2 + 2 * (k - 1));
    }
  }

  /** The API is asked until it answers, five seconds apart, for at most so many attempts. */
  lemma {:induction false} ApiIsPolled(script: Script, w: World, attempts: nat) returns (n: nat)
    ensures
      var (w', answered) := WaitForApi(script, w, attempts);
      Polled(Answers(script), SystemAskedAt(script), w, w', attempts, n) && (answered <==> n < attempts)
    decreases attempts
  {
    hide Polled;
    n := 0;
    var hits, asked := Answers(script), SystemAskedAt(script);
    if attempts == 0 {
      NoAttempt(hits, asked, w);
    } else if script(|w.trace|).answered {
      HitAtOnce(hits, asked, w, attempts);
    } else {
      var w1 := w.Then(SystemAsked(false)).Then(Slept(5));
      var m := ApiIsPolled(script, w1, attempts - 1);
      MissThen(hits, asked, w, WaitForApi(script, w1, attempts - 1).0, attempts - 1, m);
      n := m + 1;
    }
  }

  /** ULP is asked for the owner until it has one. */
  lemma {:induction false} OwnerIsPolled(script: Script, w: World, attempts: nat) returns (n: nat)
    ensures
      var (w', owner) := WaitForOwnerId(script, w, attempts);
      && Polled(HasId(script), OwnerAskedAt(script), w, w', attempts, n) && (owner != [] <==> n < attempts)
    decreases attempts
  {
    hide Polled;
    n := 0;
    var hits, asked := HasId(script), OwnerAskedAt(script);
    if attempts == 0 {
      NoAttempt(hits, asked, w);
    } else if script(|w.trace|).id != [] {
      HitAtOnce(hits, asked, w, attempts);
    } else {
      var w1 := w.Then(OwnerAsked(script(|w.trace|).id)).Then(Slept(5));
      var m := OwnerIsPolled(script, w1, attempts - 1);
      MissThen(hits, asked, w, WaitForOwnerId(script, w1, attempts - 1).0, attempts - 1, m);
      n := m + 1;
    }
  }

  /** A key is probed until there is a verdict on it: 200 that it works, 401 or 403 that it is refused. */
  lemma {:induction false} KeyIsProbed(script: Script, w: World, key: Text, attempts: nat) returns (n: nat)
    ensures
      var (w', verdict) := KeyCheck(script, w, key, attempts);
      && Polled(IsVerdict(script), KeyProbedAt(script, key), w, w', attempts, n)
      && verdict == (if n == attempts then NoVerdict
                     else if script(|w.trace| + 2 * n).status == 200 then KeyOk else KeyRejected)
    decreases attempts
  {
    hide Polled;
    n := 0;
    var hits, asked := IsVerdict(script), KeyProbedAt(script, key);
    if attempts == 0 {
      NoAttempt(hits, asked, w);
    } else if IsVerdict(script)(|w.trace|) {
      HitAtOnce(hits, asked, w, attempts);
    } else {
      var w1 := w.Then(KeyProbed(key, script(|w.trace|).status)).Then(Slept(5));
      var m := KeyIsProbed(script, w1, key, attempts - 1);
      MissThen(hits, asked, w, KeyCheck(script, w1, key, attempts - 1).0, attempts - 1, m);
      n := m + 1;
    }
  }

  /** There is only one first hit. */
  lemma FirstIsUnique(hits: nat -> bool, at: nat, n: nat, attempts: nat)
    requires n <= attempts && Misses(hits, at, n) && (n < attempts ==> hits(at + 2 * n))
    ensures forall j: nat :: j < attempts && First(hits, at, j) ==> j == n
    ensures n < attempts ==> First(hits, at, n)
  {
  }

  // --- a replacement ----------------------------------------------------------------

  /** What becomes of a replacement that starts at `at`, by the answers: an id within 60 polls leads to a key being
      minted, and without one nothing more is done. */
  ghost predicate Replaced(script: Script, at: nat, before: Option<Text>, w: World, ok: bool) {
    && (forall j: nat :: j < 60 && First(HasId(script), at, j) ==> ReplacedBehind(script, at, j, before, w, ok))
    && (Misses(HasId(script), at, 60) ==>
          !ok && w.file == before && |w.trace| == at + 120 && Polls(w.trace, at, 60, OwnerAskedAt(script)))
  }

  /** The `j`th poll for the owner has an id: a key is minted next, and unless there is none it is proven. */
  ghost predicate ReplacedBehind(script: Script, at: nat, j: nat, before: Option<Text>, w: World, ok: bool) {
    var m := at + 2 * j + 1;
    && m < |w.trace| && Polls(w.trace, at, j, OwnerAskedAt(script)) && w.trace[m - 1] == OwnerAsked(script(m - 1).id)
    && w.trace[m] == KeyMinted(script(m).id)
    && (if script(m).id == [] then !ok && w.file == before && |w.trace| == m + 1
        else Proven(script, m + 1, script(m).id, before, w, ok))
  }

  /** A minted key that has a verdict within 36 probes and is accepted is written; without one, or refused, it is not.
      */
  ghost predicate Proven(script: Script, at: nat, key: Text, before: Option<Text>, w: World, ok: bool) {
    && (forall k: nat :: k < 36 && First(IsVerdict(script), at, k) ==>
          ProvenBehind(script, at, k, key, before, w, ok))
    && (Misses(IsVerdict(script), at, 36) ==>
          !ok && w.file == before && |w.trace| == at + 72 && Polls(w.trace, at, 36, KeyProbedAt(script, key)))
  }

  /** The `k`th probe has a verdict. Only a key that answers 200 is written, followed by a line feed, and the run
      succeeds exactly if that works. */
  ghost predicate ProvenBehind(script: Script, at: nat, k: nat, key: Text, before: Option<Text>, w: World, ok: bool) {
    var p := at + 2 * k;
    && Polls(w.trace, at, k, KeyProbedAt(script, key))
    && p < |w.trace| && w.trace[p] == KeyProbed(key, script(p).status)
    && (if script(p).status == 200 then
          && |w.trace| == p + 2 && ok == script(p + 1).io
          && w.trace[p + 1] == (if ok then KeyPublished(key) else PublishFailed(key))
          && w.file == (if ok then Some(key + [0x0A]) else before)
        else !ok && w.file == before && |w.trace| == p + 1)
  }

  lemma PollsOn(trace: seq<Event>, more: seq<Event>, at: nat, n: nat, asked: nat -> Event)
    requires Polls(trace, at, n, asked) && trace <= more
    ensures Polls(more, at, n, asked)
  {
    forall k | 0 <= k < n
      ensures more[at + 2 * k] == asked(at + 2 * k) && more[at + 2 * k + 1] == Slept(5)
    {
      assert trace[at + 2 * k] == asked(at + 2 * k) && trace[at + 2 * k + 1] == Slept(5);
    }
  }

  lemma PublishIs(script: Script, at: nat, k: nat, key: Text, w: World)
    requires |w.trace| == at + 2 * k + 1 && Polls(w.trace, at, k, KeyProbedAt(script, key))
    requires w.trace[at + 2 * k] == KeyProbed(key, script(at + 2 * k).status) && script(at + 2 * k).status == 200
    ensures
      var (w', ok) := PublishKey(script, w, key);
      ProvenBehind(script, at, k, key, w.file, w', ok)
  {
    var (w', ok) := PublishKey(script, w, key);
    PollsOn(w.trace, w'.trace, at, k, KeyProbedAt(script, key));
    hide Polls;
  }

  /** The end of a replacement: the minted key is probed, and published if it is accepted. */
  function ProveAndPublish(script: Script, w: World, key: Text): (World, bool) {
    var (w1, verdict) := KeyCheck(script, w, key, KEY_CHECK_ATTEMPTS);
    if !verdict.KeyOk? then (w1, false) else PublishKey(script, w1, key)
  }

  lemma ProvenIs(script: Script, w: World, key: Text)
    ensures
      var (w', ok) := ProveAndPublish(script, w, key);
      w.trace <= w'.trace && Proven(script, |w.trace|, key, w.file, w', ok)
  {
    var at := |w.trace|;
    var k := KeyIsProbed(script, w, key, KEY_CHECK_ATTEMPTS);
    var (w1, verdict) := KeyCheck(script, w, key, KEY_CHECK_ATTEMPTS);
    FirstIsUnique(IsVerdict(script), at, k, KEY_CHECK_ATTEMPTS);
    hide KeyCheck, Polls, Misses, First;
    if k < KEY_CHECK_ATTEMPTS && script(at + 2 * k).status == 200 {
      PublishIs(script, at, k, key, w1);
    }
    if k < KEY_CHECK_ATTEMPTS {
      MissesEnd(IsVerdict(script), at, k, KEY_CHECK_ATTEMPTS);
    }
    var (w', ok) := ProveAndPublish(script, w, key);
    assert k < KEY_CHECK_ATTEMPTS ==> ProvenBehind(script, at, k, key, w.file, w', ok);
    assert k == KEY_CHECK_ATTEMPTS ==> forall j: nat :: !(j < 36 && First(IsVerdict(script), at, j)) by {
      if k == KEY_CHECK_ATTEMPTS {
        NoneFirst(IsVerdict(script), at, KEY_CHECK_ATTEMPTS);
      }
    }
  }

  lemma MissesEnd(hits: nat -> bool, at: nat, n: nat, attempts: nat)
    requires n < attempts && hits(at + 2 * n)
    ensures !Misses(hits, at, attempts)
  {
  }

  lemma NoneFirst(hits: nat -> bool, at: nat, attempts: nat)
    requires Misses(hits, at, attempts)
    ensures forall j: nat :: j < attempts ==> !First(hits, at, j)
  {
  }

  lemma NoneReplaced(script: Script, w: World, w1: World)
    requires Polled(HasId(script), OwnerAskedAt(script), w, w1, 60, 60)
    ensures w.trace <= w1.trace && Replaced(script, |w.trace|, w.file, w1, false)
  {
    NoneFirst(HasId(script), |w.trace|, 60);
    hide Misses, First, Polls, ReplacedBehind;
  }

  lemma OneReplaced(script: Script, at: nat, j: nat, before: Option<Text>, w: World, ok: bool)
    requires j < 60 && HasId(script)(at + 2 * j) && Misses(HasId(script), at, j)
    requires ReplacedBehind(script, at, j, before, w, ok)
    ensures Replaced(script, at, before, w, ok)
  {
    FirstIsUnique(HasId(script), at, j, 60);
    MissesEnd(HasId(script), at, j, 60);
    hide Misses, First, ReplacedBehind, Polls;
  }

  lemma PolledHits(hits: nat -> bool, asked: nat -> Event, w: World, w': World, attempts: nat, n: nat)
    requires Polled(hits, asked, w, w', attempts, n)
    ensures n <= attempts && Misses(hits, |w.trace|, n) && (n < attempts ==> hits(|w.trace| + 2 * n))
  {
    hide Misses, Polls;
  }

  lemma ReplaceIs(script: Script, w: World)
    ensures
      var (w', ok) := Replace(script, w);
      w.trace <= w'.trace && Replaced(script, |w.trace|, w.file, w', ok)
  {
    hide *;
    var j := OwnerIsPolled(script, w, 60);
    var (w1, owner) := WaitForOwnerId(script, w, 60);
    PolledHits(HasId(script), OwnerAskedAt(script), w, w1, 60, j);
    if j == 60 {
      ReplaceEnds(script, w);
      NoneReplaced(script, w, w1);
    } else {
      MintedBehind(script, w, w1, j);
      var (w', ok) := Replace(script, w);
      OneReplaced(script, |w.trace|, j, w.file, w', ok);
    }
  }

  lemma MintedBehind(script: Script, w: World, w1: World, j: nat)
    requires Polled(HasId(script), OwnerAskedAt(script), w, w1, 60, j) && j < 60
    requires WaitForOwnerId(script, w, 60).0 == w1
    requires WaitForOwnerId(script, w, 60).1 != []
    ensures
      var (w', ok) := Replace(script, w);
      w.trace <= w'.trace && ReplacedBehind(script, |w.trace|, j, w.file, w', ok)
  {
    ReplaceEnds(script, w);
    var w2 := w1.Then(KeyMinted(script(|w1.trace|).id));
    assert MintKey(script, w1) == (w2, script(|w1.trace|).id);
    ProvenIs(script, w2, script(|w1.trace|).id);
    var (w', ok) := Replace(script, w);
    hide WaitForOwnerId, ProveAndPublish, Proven, Polled, Replace, MintKey;
    BehindIs(script, w, w1, j, w', ok);
  }

  lemma BehindIs(script: Script, w: World, w1: World, j: nat, w': World, ok: bool)
    requires Polled(HasId(script), OwnerAskedAt(script), w, w1, 60, j) && j < 60
    requires
      var key := script(|w1.trace|).id;
      var w2 := w1.Then(KeyMinted(key));
      if key == [] then (w', ok) == (w2, false)
      else w2.trace <= w'.trace && Proven(script, |w2.trace|, key, w2.file, w', ok)
    ensures w.trace <= w'.trace && ReplacedBehind(script, |w.trace|, j, w.file, w', ok)
  {
    hide Proven;
    var m := |w1.trace|;
    var minted := w1.trace + [KeyMinted(script(m).id)];
    assert minted <= w'.trace && minted[m] == KeyMinted(script(m).id);
    assert w'.trace[m] == minted[m] && w'.trace[m - 1] == minted[m - 1] == w1.trace[m - 1];
    PollsOn(w1.trace, w'.trace, |w.trace|, j, OwnerAskedAt(script));
    hide Polls, Misses;
  }

  lemma ReplaceEnds(script: Script, w: World)
    ensures
      var (w1, owner) := WaitForOwnerId(script, w, 60);
      var (w2, key) := MintKey(script, w1);
      Replace(script, w) ==
      if owner == [] then (w1, false) else if key == [] then (w2, false) else ProveAndPublish(script, w2, key)
  {
    hide WaitForOwnerId, KeyCheck, PublishKey;
  }

  // --- the key --------------------------------------------------------------------

  /** What is read first, and where it leads: a key that was read is tried, and everything else is a reason to replace.
      */
  ghost predicate KeyStage(script: Script, at: nat, before: Option<Text>, w: World, ok: bool) {
    && at < |w.trace|
    && w.trace[at] == (if before.None? then KeyRead([])
                       else if script(at).io then KeyRead(KeyIn(before.value)) else ReadFailed)
    && (if before.None? || !script(at).io || KeyIn(before.value) == [] then Replaced(script, at + 1, before, w, ok)
        else Tried(script, at + 1, KeyIn(before.value), before, w, ok))
  }

  /** The key in the file is probed until there is a verdict on it, and without one the run fails and keeps it. */
  ghost predicate Tried(script: Script, at: nat, key: Text, before: Option<Text>, w: World, ok: bool) {
    && (forall k: nat :: k < 36 && First(IsVerdict(script), at, k) ==> TriedBehind(script, at, k, key, before, w, ok))
    && (Misses(IsVerdict(script), at, 36) ==>
          !ok && w.file == before && |w.trace| == at + 72 && Polls(w.trace, at, 36, KeyProbedAt(script, key)))
  }

  /** The `k`th probe has a verdict: a key that works is kept, and one that is refused is replaced. */
  ghost predicate TriedBehind(script: Script, at: nat, k: nat, key: Text, before: Option<Text>, w: World, ok: bool) {
    var p := at + 2 * k;
    && Polls(w.trace, at, k, KeyProbedAt(script, key))
    && p < |w.trace| && w.trace[p] == KeyProbed(key, script(p).status)
    && (if script(p).status == 200 then ok && w.file == before && |w.trace| == p + 1
        else Replaced(script, p + 1, before, w, ok))
  }

  /** The key in the file is tried, and replaced if it is refused. */
  function TryAndReplace(script: Script, w: World, key: Text): (World, bool) {
    var (w1, verdict) := KeyCheck(script, w, key, KEY_CHECK_ATTEMPTS);
    match verdict
    case KeyOk => (w1, true)
    case NoVerdict => (w1, false)
    case KeyRejected => Replace(script, w1)
  }

  lemma TriedIs(script: Script, w: World, key: Text)
    ensures
      var (w', ok) := TryAndReplace(script, w, key);
      w.trace <= w'.trace && Tried(script, |w.trace|, key, w.file, w', ok)
  {
    var at := |w.trace|;
    var k := KeyIsProbed(script, w, key, KEY_CHECK_ATTEMPTS);
    var (w1, verdict) := KeyCheck(script, w, key, KEY_CHECK_ATTEMPTS);
    FirstIsUnique(IsVerdict(script), at, k, KEY_CHECK_ATTEMPTS);
    var (w', ok) := TryAndReplace(script, w, key);
    ReplaceIs(script, w1);
    hide KeyCheck, Replace, Replaced, Misses, First;
    if k == KEY_CHECK_ATTEMPTS {
      NoneFirst(IsVerdict(script), at, KEY_CHECK_ATTEMPTS);
    } else {
      MissesEnd(IsVerdict(script), at, k, KEY_CHECK_ATTEMPTS);
      PollsOn(w1.trace, w'.trace, at, k, KeyProbedAt(script, key));
      assert w'.trace[at + 2 * k] == w1.trace[at + 2 * k];
      assert TriedBehind(script, at, k, key, w.file, w', ok) by {
        hide Polls;
      }
    }
  }

  /** The key stage, by the answers. */
  lemma KeyStageIs(script: Script, w: World)
    ensures
      var (w', ok) := EnsureApiKey(script, w);
      w.trace <= w'.trace && KeyStage(script, |w.trace|, w.file, w', ok)
  {
    var (w1, existing) := ReadKey(script, w);
    ReadIs(script, w);
    ReplaceIs(script, w1);
    TriedIs(script, w1, existing);
    EnsureIs(script, w);
    hide ReadKey, Replace, TryAndReplace, Replaced, Tried, EnsureApiKey, KeyIn;
    var (w', ok) := EnsureApiKey(script, w);
    assert w'.trace[|w.trace|] == w1.trace[|w.trace|];
  }

  lemma ReadIs(script: Script, w: World)
    ensures
      var (w', key) := ReadKey(script, w);
      var at := |w.trace|;
      && w.trace <= w'.trace && w'.file == w.file && |w'.trace| == at + 1
      && w'.trace[at] == (if w.file.None? then KeyRead([])
                          else if script(at).io then KeyRead(KeyIn(w.file.value)) else ReadFailed)
      && key == (if w.file.None? || !script(at).io then [] else KeyIn(w.file.value))
  {
    hide KeyIn;
  }

  lemma EnsureIs(script: Script, w: World)
    ensures
      var (w1, existing) := ReadKey(script, w);
      EnsureApiKey(script, w) ==
      if existing == [] then Replace(script, w1) else TryAndReplace(script, w1, existing)
  {
    hide ReadKey, KeyCheck, Replace;
  }

  // --- the owner ------------------------------------------------------------------

  /** Setups are over at `e`, and the owner exists or does not. */
  datatype Over = Over(e: nat, owned: bool)

  /** What a setup that is posted at `i`, the `n`th of at most five, leads to: a login behind a 200; on a login that
      works, or an answer that all is set up already, the end; and else fifteen seconds of sleep and the next setup,
      unless it was the last. */
  predicate SetupLeads(script: Script, trace: seq<Event>, i: nat, n: nat, over: Over) {
    var end := if script(i).status == 200 then i + 2 else i + 1;
    && end <= |trace| && trace[i] == SetupPosted(script(i).status, script(i).alreadySetup)
    && (script(i).status == 200 ==> trace[i + 1] == LoginTried(script(i + 1).status))
    && (if (script(i).status == 200 && script(i + 1).status == 200) || script(i).alreadySetup then
          over == Over(end, true)
        else if n < 5 then
          end + 1 < |trace| && trace[end] == Slept(15) && trace[end + 1].SetupPosted?
        else over == Over(end, false))
  }

  /** Each of the setups posted from `at` on leads where it should. */
  ghost predicate SetupsLead(script: Script, trace: seq<Event>, at: nat, over: Over) {
    forall i :: at <= i < |trace| && i < over.e && trace[i].SetupPosted? ==>
      SetupLeads(script, trace, i, Total(Posts, trace[..i + 1]), over)
  }

  lemma LeadsOn(script: Script, trace: seq<Event>, more: seq<Event>, i: nat, n: nat, over: Over)
    requires SetupLeads(script, trace, i, n, over) && trace <= more
    ensures SetupLeads(script, more, i, n, over)
  {
  }

  lemma SetupsLeadOn(script: Script, trace: seq<Event>, more: seq<Event>, at: nat, over: Over)
    requires SetupsLead(script, trace, at, over) && trace <= more && over.e <= |trace|
    ensures SetupsLead(script, more, at, over)
  {
    hide SetupLeads, Total;
    forall i | at <= i < |more| && i < over.e && more[i].SetupPosted?
      ensures SetupLeads(script, more, i, Total(Posts, more[..i + 1]), over)
    {
      assert more[..i + 1] == trace[..i + 1] && more[i] == trace[i];
      LeadsOn(script, trace, more, i, Total(Posts, trace[..i + 1]), over);
    }
  }

  lemma TotalSame(m: Measure, trace: seq<Event>, e: Event)
    ensures Total(m, trace + [e]) == Total(m, trace) + Weight(m, e)
  {
    assert (trace + [e])[..|trace|] == trace;
  }

  /** A setup and the login behind it, if there is one. */
  lemma PostIs(script: Script, w: World)
    ensures
      var (w', done) := PostSetup(script, w);
      var i := |w.trace|;
      var end := if script(i).status == 200 then i + 2 else i + 1;
      && w.trace <= w'.trace && w'.file == w.file && |w'.trace| == end
      && w'.trace[i] == SetupPosted(script(i).status, script(i).alreadySetup)
      && (script(i).status == 200 ==> w'.trace[i + 1] == LoginTried(script(i + 1).status))
      && (done <==> (script(i).status == 200 && script(i + 1).status == 200) || script(i).alreadySetup)
      && Total(Posts, w'.trace[..i + 1]) == Total(Posts, w.trace) + 1
      && Total(Posts, w'.trace) == Total(Posts, w.trace) + 1
  {
    var i := |w.trace|;
    var e := SetupPosted(script(i).status, script(i).alreadySetup);
    var (w', _) := PostSetup(script, w);
    assert w'.trace[..i + 1] == w.trace + [e];
    TotalSame(Posts, w.trace, e);
    TotalSame(Posts, w.trace + [e], LoginTried(script(i + 1).status));
    hide Total;
  }

  lemma {:induction false} SetupsAre(script: Script, w: World, attempts: nat)
    requires attempts > 0 && Total(Posts, w.trace) + attempts == 5
    ensures
      var (w', owned) := TrySetup(script, w, attempts);
      && w.trace <= w'.trace && w'.file == w.file
      && |w.trace| < |w'.trace| && w'.trace[|w.trace|].SetupPosted?
      && SetupsLead(script, w'.trace, |w.trace|, Over(|w'.trace|, owned))
    decreases attempts
  {
    hide *;
    var (w1, done) := PostSetup(script, w);
    var (w', owned) := TrySetup(script, w, attempts);
    PostIs(script, w);
    TryIs(script, w, attempts);
    var over := Over(|w'.trace|, owned);
    if !done && attempts > 1 {
      var w2 := w1.Then(Slept(15));
      SleptOn(w1);
      SetupsAre(script, w2, attempts - 1);
      SleptBefore(w1, w');
    }
    FirstLeads(script, w, w1, w', |w.trace|, 6 - attempts, over);
    NoPostBetween(script, w, w1, w', attempts, over);
  }

  lemma SleptOn(w: World)
    ensures
      var w' := w.Then(Slept(15));
      && w'.trace == w.trace + [Slept(15)] && w'.file == w.file
      && Total(Posts, w'.trace) == Total(Posts, w.trace)
  {
    hide *;
    ThenIs(w, Slept(15));
    SleepsPostNothing(w.trace);
  }

  lemma ThenIs(w: World, e: Event)
    ensures w.Then(e) == World(w.trace + [e], w.file)
  {
  }

  lemma SleepsPostNothing(trace: seq<Event>)
    ensures Total(Posts, trace + [Slept(15)]) == Total(Posts, trace)
  {
    TotalSame(Posts, trace, Slept(15));
    hide Total;
  }

  lemma SleptBefore(w: World, w': World)
    requires w.trace + [Slept(15)] <= w'.trace
    ensures |w.trace| < |w'.trace| && w'.trace[|w.trace|] == Slept(15) && w.trace <= w'.trace
  {
    assert (w.trace + [Slept(15)])[|w.trace|] == Slept(15);
  }

  lemma TryIs(script: Script, w: World, attempts: nat)
    requires attempts > 0
    ensures
      var (w1, done) := PostSetup(script, w);
      TrySetup(script, w, attempts) ==
      if done then (w1, true)
      else if attempts == 1 then (w1, false)
      else TrySetup(script, w1.Then(Slept(15)), attempts - 1)
  {
    hide PostSetup;
  }

  lemma FirstLeads(script: Script, w: World, w1: World, w': World, i: nat, n: nat, over: Over)
    requires i == |w.trace| && w1.trace <= w'.trace && over.e == |w'.trace|
    requires |w1.trace| == if script(i).status == 200 then i + 2 else i + 1
    requires w1.trace[i] == SetupPosted(script(i).status, script(i).alreadySetup)
    requires script(i).status == 200 ==> w1.trace[i + 1] == LoginTried(script(i + 1).status)
    requires
      var end := |w1.trace|;
      if (script(i).status == 200 && script(i + 1).status == 200) || script(i).alreadySetup
      then w' == w1 && over.owned
      else if n < 5 then end + 1 < |w'.trace| && w'.trace[end] == Slept(15) && w'.trace[end + 1].SetupPosted?
      else w' == w1 && !over.owned
    ensures SetupLeads(script, w'.trace, i, n, over)
  {
    assert w'.trace[i] == w1.trace[i];
    assert script(i).status == 200 ==> w'.trace[i + 1] == w1.trace[i + 1];
  }

  /** Between two setups there are only a login and a sleep. */
  lemma NoPostBetween(script: Script, w: World, w1: World, w': World, attempts: nat, over: Over)
    requires w.trace <= w1.trace <= w'.trace && over.e == |w'.trace|
    requires |w.trace| < |w1.trace| <= |w.trace| + 2
    requires |w1.trace| == |w.trace| + 2 ==> w1.trace[|w.trace| + 1].LoginTried?
    requires SetupLeads(script, w'.trace, |w.trace|, Total(Posts, w1.trace[..|w.trace| + 1]), over)
    requires
      w' == w1 ||
      (|w1.trace| < |w'.trace| && w'.trace[|w1.trace|] == Slept(15) &&
       SetupsLead(script, w'.trace, |w1.trace| + 1, over))
    ensures SetupsLead(script, w'.trace, |w.trace|, over)
  {
    hide SetupLeads, Total;
    forall i | |w.trace| <= i < |w'.trace| && w'.trace[i].SetupPosted?
      ensures SetupLeads(script, w'.trace, i, Total(Posts, w'.trace[..i + 1]), over)
    {
      if i == |w.trace| {
        assert w'.trace[..i + 1] == w1.trace[..i + 1];
      }
    }
  }

  /** The owner stage, which starts at `at`: a login; if it fails, ULP is asked; and if that knows of no setup, setups.
      */
  ghost predicate OwnerStage(script: Script, at: nat, trace: seq<Event>, over: Over) {
    && at < over.e <= |trace| && trace[at] == LoginTried(script(at).status)
    && (if script(at).status == 200 then over == Over(at + 1, true)
        else
          && at + 1 < over.e && trace[at + 1] == UlpAsked(script(at + 1).isSetup)
          && (if script(at + 1).isSetup then over == Over(at + 2, true)
              else at + 2 < over.e && trace[at + 2].SetupPosted?))
    && SetupsLead(script, trace, at, over)
  }

  lemma NoSetups(script: Script, trace: seq<Event>, at: nat, over: Over)
    requires forall i :: at <= i < |trace| && i < over.e ==> !trace[i].SetupPosted?
    ensures SetupsLead(script, trace, at, over)
  {
  }

  lemma LoginOwns(script: Script, w: World)
    requires script(|w.trace|).status == 200
    ensures OwnerStage(script, |w.trace|, w.Then(LoginTried(script(|w.trace|).status)).trace, Over(|w.trace| + 1, true))
  {
    var trace := w.Then(LoginTried(script(|w.trace|).status)).trace;
    NoSetups(script, trace, |w.trace|, Over(|w.trace| + 1, true));
    hide SetupsLead;
  }

  lemma UlpOwns(script: Script, w: World, w2: World)
    requires script(|w.trace|).status != 200 && script(|w.trace| + 1).isSetup
    requires w2 == w.Then(LoginTried(script(|w.trace|).status)).Then(UlpAsked(script(|w.trace| + 1).isSetup))
    ensures OwnerStage(script, |w.trace|, w2.trace, Over(|w.trace| + 2, true))
  {
    NoSetups(script, w2.trace, |w.trace|, Over(|w.trace| + 2, true));
    hide SetupsLead;
  }

  lemma SetupsOwn(script: Script, w: World, w2: World, w': World, over: Over)
    requires script(|w.trace|).status != 200 && !script(|w.trace| + 1).isSetup
    requires w2 == w.Then(LoginTried(script(|w.trace|).status)).Then(UlpAsked(script(|w.trace| + 1).isSetup))
    requires w2.trace <= w'.trace && |w2.trace| < |w'.trace| && w'.trace[|w2.trace|].SetupPosted?
    requires over.e == |w'.trace| && SetupsLead(script, w'.trace, |w2.trace|, over)
    ensures OwnerStage(script, |w.trace|, w'.trace, over)
  {
    hide SetupLeads, Total;
    var at := |w.trace|;
    assert w'.trace[at] == w2.trace[at] && w'.trace[at + 1] == w2.trace[at + 1];
    forall i | at <= i < |w'.trace| && w'.trace[i].SetupPosted?
      ensures SetupLeads(script, w'.trace, i, Total(Posts, w'.trace[..i + 1]), over)
    {
    }
  }

  lemma OwnerStageIs(script: Script, w: World)
    requires Total(Posts, w.trace) == 0
    ensures
      var (w', owned) := EnsureOwner(script, w);
      && w.trace <= w'.trace && w'.file == w.file
      && OwnerStage(script, |w.trace|, w'.trace, Over(|w'.trace|, owned))
  {
    var at := |w.trace|;
    var w2 := w.Then(LoginTried(script(at).status)).Then(UlpAsked(script(at + 1).isSetup));
    assert Total(Posts, w2.trace) == 0 by {
      TotalSame(Posts, w.trace, LoginTried(script(at).status));
      TotalSame(Posts, w.trace + [LoginTried(script(at).status)], UlpAsked(script(at + 1).isSetup));
      hide Total;
    }
    OwnerIs(script, w);
    assert w.trace <= w2.trace && w2.file == w.file && |w2.trace| == at + 2;
    hide EnsureOwner, TrySetup, Total, OwnerStage, SetupsLead;
    if script(at).status == 200 {
      LoginOwns(script, w);
    } else if script(at + 1).isSetup {
      UlpOwns(script, w, w2);
    } else {
      SetupsAre(script, w2, 5);
      var (w', owned) := TrySetup(script, w2, 5);
      SetupsOwn(script, w, w2, w', Over(|w'.trace|, owned));
    }
  }

  lemma OwnerIs(script: Script, w: World)
    ensures
      var at := |w.trace|;
      var w1 := w.Then(LoginTried(script(at).status));
      var w2 := w1.Then(UlpAsked(script(at + 1).isSetup));
      EnsureOwner(script, w) ==
      if script(at).status == 200 then (w1, true)
      else if script(at + 1).isSetup then (w2, true)
      else TrySetup(script, w2, 5)
  {
    hide TrySetup;
  }

  // --- a boot ---------------------------------------------------------------------

  /** `n` times the API does not answer, 120 times at most, and then it does. */
  ghost predicate ApiStage(script: Script, trace: seq<Event>, n: nat) {
    && n <= 120 && Misses(Answers(script), 0, n) && Polls(trace, 0, n, SystemAskedAt(script))
    && (n < 120 ==> script(2 * n).answered && 2 * n < |trace| && trace[2 * n] == SystemAsked(true))
  }

  /** One boot, by the answers: the API is waited for; whether it answered or not the owner is seen to; and then, if the
      owner exists and a key is asked for, the key. */
  ghost predicate BootSteps(script: Script, file: Option<Text>, seedApiKey: bool, w: World, ok: bool, n: nat,
                            over: Over)
  {
    && ApiStage(script, w.trace, n)
    && OwnerStage(script, if n < 120 then 2 * n + 1 else 240, w.trace, over)
    && (if over.owned && seedApiKey then KeyStage(script, over.e, file, w, ok)
        else ok == over.owned && |w.trace| == over.e && w.file == file)
  }

  lemma ApiStageIs(script: Script, file: Option<Text>) returns (n: nat)
    ensures
      var (w, _) := WaitForApi(script, World([], file), API_WAIT_ATTEMPTS);
      && w.file == file && ApiStage(script, w.trace, n)
      && |w.trace| == (if n < 120 then 2 * n + 1 else 240)
  {
    n := ApiIsPolled(script, World([], file), API_WAIT_ATTEMPTS);
    hide WaitForApi, Misses, Polls;
  }

  lemma ApiStageOn(script: Script, trace: seq<Event>, more: seq<Event>, n: nat)
    requires ApiStage(script, trace, n) && trace <= more
    ensures ApiStage(script, more, n)
  {
    PollsOn(trace, more, 0, n, SystemAskedAt(script));
    hide Polls, Misses;
  }

  lemma NoPostsYet(script: Script, file: Option<Text>)
    ensures Total(Posts, WaitForApi(script, World([], file), API_WAIT_ATTEMPTS).0.trace) == 0
  {
    WaitForApiDoes(script, World([], file), API_WAIT_ATTEMPTS);
    StartIsEmpty(Posts, file);
    hide Total, WaitForApi;
  }

  lemma BootIs(script: Script, file: Option<Text>, seedApiKey: bool) returns (n: nat, over: Over)
    ensures
      var (w, ok) := Run(script, file, seedApiKey);
      BootSteps(script, file, seedApiKey, w, ok, n, over)
  {
    hide *;
    n := ApiStageIs(script, file);
    var (w0, _) := WaitForApi(script, World([], file), API_WAIT_ATTEMPTS);
    NoPostsYet(script, file);
    OwnerStageIs(script, w0);
    var (w1, owned) := EnsureOwner(script, w0);
    over := Over(|w1.trace|, owned);
    KeyStageIs(script, w1);
    BootEnds(script, file, seedApiKey);
    var (w, ok) := Run(script, file, seedApiKey);
    ApiStageOn(script, w0.trace, w.trace, n);
    OwnerStageOn(script, |w0.trace|, w1.trace, w.trace, over);
    StagesMake(script, file, seedApiKey, w, ok, n, over);
  }

  lemma StagesMake(script: Script, file: Option<Text>, seedApiKey: bool, w: World, ok: bool, n: nat, over: Over)
    requires ApiStage(script, w.trace, n)
    requires OwnerStage(script, if n < 120 then 2 * n + 1 else 240, w.trace, over)
    requires if over.owned && seedApiKey then KeyStage(script, over.e, file, w, ok)
             else ok == over.owned && |w.trace| == over.e && w.file == file
    ensures BootSteps(script, file, seedApiKey, w, ok, n, over)
  {
    hide ApiStage, OwnerStage, KeyStage;
  }

  lemma BootEnds(script: Script, file: Option<Text>, seedApiKey: bool)
    ensures
      var (w0, _) := WaitForApi(script, World([], file), API_WAIT_ATTEMPTS);
      var (w1, owned) := EnsureOwner(script, w0);
      Run(script, file, seedApiKey) ==
      if owned && seedApiKey then EnsureApiKey(script, w1) else (w1, owned)
  {
    hide WaitForApi, EnsureOwner, EnsureApiKey;
  }

  lemma OwnerStageOn(script: Script, at: nat, trace: seq<Event>, more: seq<Event>, over: Over)
    requires OwnerStage(script, at, trace, over) && trace <= more && over.e == |trace|
    ensures OwnerStage(script, at, more, over)
  {
    SetupsLeadOn(script, trace, more, at, over);
    hide SetupsLead;
  }

  // --- when a key is replaced -------------------------------------------------------

  /** The `j`th poll for the owner has an id, a key is minted for it, and the `k`th probe of that key accepts it; and it
      can be written. */
  predicate Replaceable(script: Script, at: nat, j: nat, k: nat) {
    var m := at + 2 * j + 1;
    && j < 60 && First(HasId(script), at, j) && script(m).id != []
    && k < 36 && First(IsVerdict(script), m + 1, k) && script(m + 1 + 2 * k).status == 200
    && script(m + 2 + 2 * k).io
  }

  /** It succeeds, and changes the file to the key minted, exactly if all of its steps do. */
  ghost predicate Settles(script: Script, at: nat, before: Option<Text>, w: World, ok: bool) {
    && (ok <==> exists j: nat, k: nat :: Replaceable(script, at, j, k))
    && (forall j: nat, k: nat :: Replaceable(script, at, j, k) ==> w.file == Some(script(at + 2 * j + 1).id + [0x0A]))
    && (!ok ==> w.file == before)
  }

  lemma NoneSettles(script: Script, at: nat, before: Option<Text>, w: World, ok: bool)
    requires Misses(HasId(script), at, 60) && !ok && w.file == before
    ensures Settles(script, at, before, w, ok)
  {
    NoneFirst(HasId(script), at, 60);
    hide First, Misses;
  }

  lemma OneSettles(script: Script, at: nat, j: nat, before: Option<Text>, w: World, ok: bool)
    requires j < 60 && First(HasId(script), at, j)
    requires ok <==> exists k: nat :: Replaceable(script, at, j, k)
    requires w.file == if ok then Some(script(at + 2 * j + 1).id + [0x0A]) else before
    ensures Settles(script, at, before, w, ok)
  {
    FirstOnly(HasId(script), at, j);
    forall i: nat, k: nat | Replaceable(script, at, i, k)
      ensures i == j
    {
      hide First;
    }
    hide Replaceable;
  }

  /** Once a key is minted, its own verdict and the write decide. */
  lemma ProvenIff(script: Script, at: nat, j: nat, before: Option<Text>, w: World, ok: bool)
    requires j < 60 && First(HasId(script), at, j) && ReplacedBehind(script, at, j, before, w, ok)
    ensures ok <==> exists k: nat :: Replaceable(script, at, j, k)
    ensures w.file == if ok then Some(script(at + 2 * j + 1).id + [0x0A]) else before
  {
    var m := at + 2 * j + 1;
    hide First, Misses, Polls;
    if script(m).id != [] {
      FirstOrNone(IsVerdict(script), m + 1, 36);
      if Misses(IsVerdict(script), m + 1, 36) {
        NoneFirst(IsVerdict(script), m + 1, 36);
      } else {
        var k: nat :| k < 36 && First(IsVerdict(script), m + 1, k);
        FirstOnly(IsVerdict(script), m + 1, k);
        assert ProvenBehind(script, m + 1, k, script(m).id, before, w, ok);
        assert ok ==> Replaceable(script, at, j, k);
      }
    }
  }

  lemma ReplacedIff(script: Script, at: nat, before: Option<Text>, w: World, ok: bool)
    requires Replaced(script, at, before, w, ok)
    ensures Settles(script, at, before, w, ok)
  {
    FirstOrNone(HasId(script), at, 60);
    hide Polls, Replaceable, ReplacedBehind, Misses, First, Settles;
    if Misses(HasId(script), at, 60) {
      NoneSettles(script, at, before, w, ok);
    } else {
      var j: nat :| j < 60 && First(HasId(script), at, j);
      ProvenIff(script, at, j, before, w, ok);
      OneSettles(script, at, j, before, w, ok);
    }
  }

  lemma FirstOnly(hits: nat -> bool, at: nat, k: nat)
    requires First(hits, at, k)
    ensures forall j: nat :: First(hits, at, j) ==> j == k
  {
  }

  lemma {:induction false} FirstOrNone(hits: nat -> bool, at: nat, n: nat)
    ensures Misses(hits, at, n) || exists j: nat :: j < n && First(hits, at, j)
  {
    if n > 0 {
      FirstOrNone(hits, at, n - 1);
      if Misses(hits, at, n - 1) && hits(at + 2 * (n - 1)) {
        assert First(hits, at, n - 1);
      }
    }
  }

  predicate MintedFrom(trace: seq<Event>, at: nat) {
    exists i :: at <= i < |trace| && trace[i].KeyMinted?
  }

  /** The owner is asked for next; a key is minted exactly if an owner comes within 60 polls; and the run succeeds, and
      leaves the file with the key minted, exactly if that key is accepted and can be written. */
  ghost predicate Outcome(script: Script, at: nat, before: Option<Text>, w: World, ok: bool) {
    && at < |w.trace| && w.trace[at] == OwnerAsked(script(at).id)
    && (MintedFrom(w.trace, at) <==> !Misses(HasId(script), at, 60))
    && Settles(script, at, before, w, ok)
  }

  lemma OutcomeIs(script: Script, at: nat, before: Option<Text>, w: World, ok: bool)
    requires Replaced(script, at, before, w, ok)
    ensures Outcome(script, at, before, w, ok)
  {
    ReplacedIff(script, at, before, w, ok);
    ReplacementStarts(script, at, before, w, ok);
    hide Replaced, Settles, Misses, MintedFrom;
  }

  /** Where the console refuses the key in the file, that is what happens. */
  lemma RefusedKeyIsReplaced(script: Script, contents: Text, n: nat, over: Over, k: nat)
    requires KeyIn(contents) != []
    requires
      var (w, ok) := Run(script, Some(contents), true);
      BootSteps(script, Some(contents), true, w, ok, n, over)
    requires over.owned && script(over.e).io && k < 36 && First(IsVerdict(script), over.e + 1, k)
    requires script(over.e + 1 + 2 * k).status != 200
    ensures
      var (w, ok) := Run(script, Some(contents), true);
      Outcome(script, over.e + 1 + 2 * k + 1, Some(contents), w, ok)
  {
    hide *;
    var (w, ok) := Run(script, Some(contents), true);
    RefusalLeads(script, contents, w, ok, n, over, k);
    OutcomeIs(script, over.e + 1 + 2 * k + 1, Some(contents), w, ok);
  }

  /** And so it is where there is no key file, or it holds no key, or it cannot be read. */
  lemma MissingKeyIsReplaced(script: Script, file: Option<Text>, n: nat, over: Over)
    requires
      var (w, ok) := Run(script, file, true);
      BootSteps(script, file, true, w, ok, n, over)
    requires over.owned && (file.None? || !script(over.e).io || KeyIn(file.value) == [])
    ensures
      var (w, ok) := Run(script, file, true);
      Outcome(script, over.e + 1, file, w, ok)
  {
    var (w, ok) := Run(script, file, true);
    hide Run, ApiStage, OwnerStage, KeyIn, Replaced, Outcome;
    OutcomeIs(script, over.e + 1, file, w, ok);
  }

  lemma RefusalLeads(script: Script, contents: Text, w: World, ok: bool, n: nat, over: Over, k: nat)
    requires KeyIn(contents) != [] && BootSteps(script, Some(contents), true, w, ok, n, over)
    requires over.owned && script(over.e).io && k < 36 && First(IsVerdict(script), over.e + 1, k)
    requires script(over.e + 1 + 2 * k).status != 200
    ensures Replaced(script, over.e + 1 + 2 * k + 1, Some(contents), w, ok)
  {
    hide ApiStage, OwnerStage, KeyIn, First, Misses, Replaced, Polls;
    assert TriedBehind(script, over.e + 1, k, KeyIn(contents), Some(contents), w, ok);
  }

  lemma ReplacementStarts(script: Script, at: nat, before: Option<Text>, w: World, ok: bool)
    requires Replaced(script, at, before, w, ok)
    ensures at < |w.trace| && w.trace[at] == OwnerAsked(script(at).id)
    ensures MintedFrom(w.trace, at) <==> !Misses(HasId(script), at, 60)
  {
    FirstOrNone(HasId(script), at, 60);
    hide First, Misses, Polls, ReplacedBehind, MintedFrom;
    if Misses(HasId(script), at, 60) {
      NoneMinted(script, w.trace, at);
    } else {
      var j: nat :| j < 60 && First(HasId(script), at, j);
      BehindStarts(script, at, j, before, w, ok);
    }
  }

  lemma NoneMinted(script: Script, trace: seq<Event>, at: nat)
    requires |trace| == at + 120 && Polls(trace, at, 60, OwnerAskedAt(script))
    ensures trace[at] == OwnerAsked(script(at).id) && !MintedFrom(trace, at)
  {
    AskedAt(trace, at, 60, OwnerAskedAt(script));
    hide Polls;
    forall i | at <= i < |trace|
      ensures !trace[i].KeyMinted?
    {
      NotMinted(script, trace, at, 60, i);
    }
  }

  lemma BehindStarts(script: Script, at: nat, j: nat, before: Option<Text>, w: World, ok: bool)
    requires ReplacedBehind(script, at, j, before, w, ok)
    ensures at < |w.trace| && w.trace[at] == OwnerAsked(script(at).id) && MintedFrom(w.trace, at)
  {
    hide Polls, Proven;
    if j > 0 {
      AskedAt(w.trace, at, j, OwnerAskedAt(script));
    }
    assert w.trace[at + 2 * j + 1].KeyMinted?;
  }

  lemma AskedAt(trace: seq<Event>, at: nat, n: nat, asked: nat -> Event)
    requires Polls(trace, at, n, asked) && n > 0
    ensures at < |trace| && trace[at] == asked(at)
  {
    assert trace[at + 2 * 0] == asked(at + 2 * 0);
  }

  lemma NotMinted(script: Script, trace: seq<Event>, at: nat, n: nat, i: nat)
    requires Polls(trace, at, n, OwnerAskedAt(script)) && at <= i < at + 2 * n
    ensures !trace[i].KeyMinted?
  {
    var k := (i - at) / 2;
    assert trace[at + 2 * k] == OwnerAskedAt(script)(at + 2 * k) && trace[at + 2 * k + 1] == Slept(5);
  }
}
