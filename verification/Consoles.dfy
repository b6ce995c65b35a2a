/** `seed/uos_owner` against a console that may answer anything: what each step does, as functions of the answers. */
module Consoles {
  import opened Wrappers
  import opened Chars
  import opened Lines

  const API_WAIT_ATTEMPTS: nat := 120
  const KEY_CHECK_ATTEMPTS: nat := 36
  const OWNER_WAIT_ATTEMPTS: nat := 60
  const POLL_SECONDS: nat := 5
  const SETUP_ATTEMPTS: nat := 5
  const SETUP_RETRY_SECONDS: nat := 15

  // --- the key file -----------------------------------------------------

  /** What `str.isspace` holds of. */
  predicate IsSpace(c: CodePoint) {
    || 0x09 <= c <= 0x0D || 0x1C <= c <= 0x20 || c == 0x85 || c == 0xA0 || c == 0x1680
    || 0x2000 <= c <= 0x200A || c == 0x2028 || c == 0x2029 || c == 0x202F || c == 0x205F || c == 0x3000
  }

  function DropSpacesLeft(s: Text): Text {
    if s != [] && IsSpace(s[0]) then DropSpacesLeft(s[1..]) else s
  }

  function DropSpacesRight(s: Text): Text {
    if s != [] && IsSpace(s[|s| - 1]) then DropSpacesRight(s[..|s| - 1]) else s
  }

  /** `s.strip()` */
  function Strip(s: Text): Text {
    DropSpacesRight(DropSpacesLeft(s))
  }

  /** What `publish_key` writes. */
  function Published(key: Text): Text {
    key + [LF]
  }

  /** What `_read_key` makes of a file's contents, read in text mode. */
  function KeyIn(contents: Text): Text {
    Strip(NormalizeEol(contents))
  }

  // --- the console ----------------------------------------------------------

  /** One answer of the console, or of the file system: each call looks at the part that concerns it. */
  datatype Answer = Answer(
    answered: bool,        // /api/system answered at all
    status: int,           // the HTTP status; 0 when the request never landed
    alreadySetup: bool,    // the body says "already setup"
    isSetup: bool,         // ULP reports setup complete
    id: Text,              // an owner's id, or a minted key; empty for none
    io: bool)              // the file operation succeeds

  /** What is answered to the `n`th thing done: arbitrary, so no less than any console could do. */
  type Script = nat -> Answer

  datatype Event =
    | SystemAsked(answered: bool)
    | LoginTried(status: int)
    | UlpAsked(isSetup: bool)
    | SetupPosted(status: int, alreadySetup: bool)
    | KeyRead(key: Text)
    | ReadFailed
    | KeyProbed(key: Text, status: int)
    | OwnerAsked(owner: Text)
    | KeyMinted(key: Text)
    | KeyPublished(key: Text)
    | PublishFailed(key: Text)
    | Slept(seconds: nat)

  /** What has been done, and what the key file holds, if it exists. */
  datatype World = World(trace: seq<Event>, file: Option<Text>) {
    function Then(e: Event): World {
      this.(trace := trace + [e])
    }

    function Reply(script: Script): Answer {
      script(|trace|)
    }
  }

  datatype Verdict = KeyOk | KeyRejected | NoVerdict

  /** What is added up over a run. */
  datatype Measure = Seconds | Posts | Mints | Publications | Evidence | Probes | Verdicts

  /** An answer that tells the owner exists. */
  predicate TellsOfOwner(e: Event) {
    e == LoginTried(200) || e == UlpAsked(true) || (e.SetupPosted? && e.alreadySetup)
  }

  function Weight(m: Measure, e: Event): nat {
    match m
    case Seconds => if e.Slept? then e.seconds else 0
    case Posts => if e.SetupPosted? then 1 else 0
    case Mints => if e.KeyMinted? then 1 else 0
    case Publications => if e.KeyPublished? then 1 else 0
    case Evidence => if TellsOfOwner(e) then 1 else 0
    case Probes => if e.KeyProbed? then 1 else 0
    case Verdicts => if e.KeyProbed? && e.status in {200, 401, 403} then 1 else 0
  }

  function Total(m: Measure, trace: seq<Event>): nat {
    if trace == [] then 0 else Total(m, trace[..|trace| - 1]) + Weight(m, trace[|trace| - 1])
  }

  // --- the steps ------------------------------------------------------------

  function WaitForApi(script: Script, w: World, attempts: nat): (World, bool)
    decreases attempts
  {
    if attempts == 0 then (w, false)
    else
      var answered := w.Reply(script).answered;
      var w1 := w.Then(SystemAsked(answered));
      if answered then (w1, true) else WaitForApi(script, w1.Then(Slept(POLL_SECONDS)), attempts - 1)
  }

  function TryLogin(script: Script, w: World): (World, int) {
    var code := w.Reply(script).status;
    (w.Then(LoginTried(code)), code)
  }

  /** One `/api/setup` and what is made of its answer. */
  function PostSetup(script: Script, w: World): (World, bool) {
    var a := w.Reply(script);
    var w1 := w.Then(SetupPosted(a.status, a.alreadySetup));
    if a.status == 200 then
      var (w2, code) := TryLogin(script, w1);
      (w2, code == 200 || a.alreadySetup)
    else (w1, a.alreadySetup)
  }

  function TrySetup(script: Script, w: World, attempts: nat): (World, bool)
    decreases attempts
  {
    if attempts == 0 then (w, false)
    else
      var (w1, done) := PostSetup(script, w);
      if done then (w1, true)
      else TrySetup(script, if attempts > 1 then w1.Then(Slept(SETUP_RETRY_SECONDS)) else w1, attempts - 1)
  }

  function EnsureOwner(script: Script, w: World): (World, bool) {
    var (w1, code) := TryLogin(script, w);
    if code == 200 then (w1, true)
    else
      var isSetup := w1.Reply(script).isSetup;
      var w2 := w1.Then(UlpAsked(isSetup));
      if isSetup then (w2, true) else TrySetup(script, w2, SETUP_ATTEMPTS)
  }

  function KeyCheck(script: Script, w: World, key: Text, attempts: nat): (World, Verdict)
    decreases attempts
  {
    if attempts == 0 then (w, NoVerdict)
    else
      var code := w.Reply(script).status;
      var w1 := w.Then(KeyProbed(key, code));
      if code == 200 then (w1, KeyOk)
      else if code == 401 || code == 403 then (w1, KeyRejected)
      else KeyCheck(script, w1.Then(Slept(POLL_SECONDS)), key, attempts - 1)
  }

  function WaitForOwnerId(script: Script, w: World, attempts: nat): (World, Text)
    decreases attempts
  {
    if attempts == 0 then (w, [])
    else
      var owner := w.Reply(script).id;
      var w1 := w.Then(OwnerAsked(owner));
      if owner != [] then (w1, owner) else WaitForOwnerId(script, w1.Then(Slept(POLL_SECONDS)), attempts - 1)
  }

  /** A file that is not there and one that cannot be read come to the same for the caller: no key. */
  function ReadKey(script: Script, w: World): (World, Text) {
    if w.file.None? then (w.Then(KeyRead([])), [])
    else if w.Reply(script).io then (w.Then(KeyRead(KeyIn(w.file.value))), KeyIn(w.file.value))
    else (w.Then(ReadFailed), [])
  }

  function PublishKey(script: Script, w: World, key: Text): (World, bool) {
    if w.Reply(script).io then (World(w.trace + [KeyPublished(key)], Some(Published(key))), true)
    else (w.Then(PublishFailed(key)), false)
  }

  function MintKey(script: Script, w: World): (World, Text) {
    var key := w.Reply(script).id;
    (w.Then(KeyMinted(key)), key)
  }

  /** A key minted, proven, and only then published. */
  function Replace(script: Script, w: World): (World, bool) {
    var (w1, owner) := WaitForOwnerId(script, w, OWNER_WAIT_ATTEMPTS);
    if owner == [] then (w1, false)
    else
      var (w2, key) := MintKey(script, w1);
      if key == [] then (w2, false)
      else
        var (w3, verdict) := KeyCheck(script, w2, key, KEY_CHECK_ATTEMPTS);
        if !verdict.KeyOk? then (w3, false) else PublishKey(script, w3, key)
  }

  function EnsureApiKey(script: Script, w: World): (World, bool) {
    var (w1, existing) := ReadKey(script, w);
    if existing == [] then Replace(script, w1)
    else
      var (w2, verdict) := KeyCheck(script, w1, existing, KEY_CHECK_ATTEMPTS);
      match verdict
      case KeyOk => (w2, true)
      case NoVerdict => (w2, false)
      case KeyRejected => Replace(script, w2)
  }

  /** One boot's seeding, and whether it succeeded. */
  function Run(script: Script, file: Option<Text>, seedApiKey: bool): (World, bool) {
    var (w, _) := WaitForApi(script, World([], file), API_WAIT_ATTEMPTS);
    var (w1, owned) := EnsureOwner(script, w);
    if !owned then (w1, false)
    else if seedApiKey then EnsureApiKey(script, w1)
    else (w1, true)
  }
}
