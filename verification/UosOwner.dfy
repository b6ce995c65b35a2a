/** `seed/uos_owner` step by step: retry loops that call out, sleep, and replace the key file. */
module UosOwner {
  import opened Wrappers
  import opened Chars
  import opened Consoles

  class Seeder {
    const script: Script
    var trace: seq<Event>
    var file: Option<Text>

    constructor (script: Script, file: Option<Text>)
      ensures this.script == script && Now() == World([], file)
    {
      this.script := script;
      trace := [];
      this.file := file;
    }

    function Now(): World
      reads this
    {
      World(trace, file)
    }

    /** One thing is done, and this is what is answered. */
    method Ask() returns (a: Answer)
      ensures a == Now().Reply(script)
    {
      a := script(|trace|);
    }

    method Note(e: Event)
      modifies this`trace
      ensures Now() == old(Now()).Then(e)
    {
      trace := trace + [e];
    }

    method AwaitApi() returns (answered: bool)
      modifies this`trace
      ensures (Now(), answered) == WaitForApi(script, old(Now()), API_WAIT_ATTEMPTS)
    {
      for i := 0 to API_WAIT_ATTEMPTS
        invariant WaitForApi(script, Now(), API_WAIT_ATTEMPTS - i) ==
                  WaitForApi(script, old(Now()), API_WAIT_ATTEMPTS)
      {
        var a := Ask();
        Note(SystemAsked(a.answered));
        if a.answered {
          return true;
        }
        Note(Slept(POLL_SECONDS));
      }
      return false;
    }

    method Login() returns (code: int)
      modifies this`trace
      ensures (Now(), code) == TryLogin(script, old(Now()))
    {
      var a := Ask();
      code := a.status;
      Note(LoginTried(code));
    }

    method Own() returns (owned: bool)
      modifies this`trace
      ensures (Now(), owned) == EnsureOwner(script, old(Now()))
    {
      var code := Login();
      if code == 200 {
        return true;
      }
      var a := Ask();
      Note(UlpAsked(a.isSetup));
      if a.isSetup {
        return true;
      }
      ghost var start := Now();
      for attempt := 1 to SETUP_ATTEMPTS + 1
        invariant TrySetup(script, Now(), SETUP_ATTEMPTS + 1 - attempt) == TrySetup(script, start, SETUP_ATTEMPTS)
      {
        var response := Ask();
        Note(SetupPosted(response.status, response.alreadySetup));
        if response.status == 200 {
          var again := Login();
          if again == 200 {
            return true;
          }
        }
        if response.alreadySetup {
          return true;
        }
        if attempt < SETUP_ATTEMPTS {
          Note(Slept(SETUP_RETRY_SECONDS));
        }
      }
      return false;
    }

    method Prove(key: Text) returns (verdict: Verdict)
      modifies this`trace
      ensures (Now(), verdict) == KeyCheck(script, old(Now()), key, KEY_CHECK_ATTEMPTS)
    {
      for i := 0 to KEY_CHECK_ATTEMPTS
        invariant KeyCheck(script, Now(), key, KEY_CHECK_ATTEMPTS - i) ==
                  KeyCheck(script, old(Now()), key, KEY_CHECK_ATTEMPTS)
      {
        var a := Ask();
        Note(KeyProbed(key, a.status));
        if a.status == 200 {
          return KeyOk;
        }
        if a.status in {401, 403} {
          return KeyRejected;
        }
        Note(Slept(POLL_SECONDS));
      }
      return NoVerdict;
    }

    method AwaitOwnerId() returns (owner: Text)
      modifies this`trace
      ensures (Now(), owner) == WaitForOwnerId(script, old(Now()), OWNER_WAIT_ATTEMPTS)
    {
      for i := 0 to OWNER_WAIT_ATTEMPTS
        invariant WaitForOwnerId(script, Now(), OWNER_WAIT_ATTEMPTS - i) ==
                  WaitForOwnerId(script, old(Now()), OWNER_WAIT_ATTEMPTS)
      {
        var a := Ask();
        Note(OwnerAsked(a.id));
        if a.id != [] {
          return a.id;
        }
        Note(Slept(POLL_SECONDS));
      }
      return [];
    }

    method Read() returns (key: Text)
      modifies this`trace
      ensures (Now(), key) == ReadKey(script, old(Now()))
    {
      var a := Ask();
      if file.None? {
        Note(KeyRead([]));
        return [];
      }
      if !a.io {
        Note(ReadFailed);
        return [];
      }
      key := KeyIn(file.value);
      Note(KeyRead(key));
    }

    /** The file is replaced whole, or an error leaves it as it was. */
    method Publish(key: Text) returns (ok: bool)
      modifies this
      ensures (Now(), ok) == PublishKey(script, old(Now()), key)
    {
      var a := Ask();
      if a.io {
        file := Some(Published(key));
        Note(KeyPublished(key));
      } else {
        Note(PublishFailed(key));
      }
      return a.io;
    }

    method MintAndPublish() returns (ok: bool)
      modifies this
      ensures (Now(), ok) == Replace(script, old(Now()))
    {
      var owner := AwaitOwnerId();
      if owner == [] {
        return false;
      }
      var a := Ask();
      Note(KeyMinted(a.id));
      if a.id == [] {
        return false;
      }
      var verdict := Prove(a.id);
      if verdict != KeyOk {
        return false;
      }
      ok := Publish(a.id);
    }

    method EnsureKey() returns (ok: bool)
      modifies this
      ensures (Now(), ok) == EnsureApiKey(script, old(Now()))
    {
      var existing := Read();
      if existing != [] {
        var verdict := Prove(existing);
        if verdict == KeyOk {
          return true;
        }
        if verdict == NoVerdict {
          return false;
        }
      }
      ok := MintAndPublish();
    }

    /** One boot. Whether the API ever answered is not asked. */
    method Seed(seedApiKey: bool) returns (ok: bool)
      requires trace == []
      modifies this
      ensures (Now(), ok) == Run(script, old(file), seedApiKey)
    {
      var _ := AwaitApi();
      var owned := Own();
      if !owned {
        return false;
      }
      if seedApiKey {
        ok := EnsureKey();
      } else {
        ok := true;
      }
    }
  }
}
