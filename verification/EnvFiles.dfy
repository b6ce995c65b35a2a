/** The seed settings (`env.py`), and how the entrypoint hands them to a unit through a quoted environment file. */
module EnvFiles {
  import opened Wrappers
  import opened Chars
  import opened Sequences

  const QUOTE: CodePoint := 0x27

  /** The code points of a literal. */
  function Codes(s: string): Text {
    seq(|s|, i requires 0 <= i < |s| => s[i] as int)
  }

  datatype Assignment = Assignment(key: Text, value: Text)

  // --- settings -------------------------------------------------------------

  const KEYS: seq<string> := [
    "UOS_ADMIN_USER",
    "UOS_ADMIN_PASS",
    "UOS_COUNTRY",
    "UOS_TIMEZONE",
    "UOS_CONSOLE_NAME",
    "UOS_SEED_API_KEY",
    "UOS_API_KEY_NAME",
    "UOS_API_KEY_FILE"]

  const VALUES: seq<string> := [
    "admin",
    "admin",
    "840",
    "UTC",
    "unifi-os-sim",
    "0",
    "unifi-containers-seeded",
    "/unifi/api-key"]

  function DefaultAt(i: nat): Assignment
    requires i < 8
  {
    Assignment(Codes(KEYS[i]), Codes(VALUES[i]))
  }

  /** `SEED_DEFAULTS`: the settings and their defaults, in the order the file lists them. */
  const SEED_DEFAULTS: seq<Assignment> := [
    DefaultAt(0), DefaultAt(1), DefaultAt(2), DefaultAt(3), DefaultAt(4), DefaultAt(5), DefaultAt(6), DefaultAt(7)]

  lemma SeedDefaultAt(i: nat)
    requires i < 8
    ensures SEED_DEFAULTS[i] == DefaultAt(i)
  {
    hide DefaultAt;
  }

  type Environment = map<Text, Text>

  /** `setting`: the environment's value, or the default where it has none or an empty one. */
  function Setting(default: Assignment, env: Environment): Text {
    if default.key in env && env[default.key] != [] then env[default.key] else default.value
  }

  /** `is_enabled`, of a variable that may be unset. */
  predicate IsEnabled(key: Text, env: Environment) {
    key in env && (env[key] == Codes("true") || env[key] == Codes("1"))
  }

  /** What the seed unit is to be told. */
  function Resolved(defaults: seq<Assignment>, env: Environment): seq<Assignment> {
    if defaults == [] then []
    else [Assignment(defaults[0].key, Setting(defaults[0], env))] + Resolved(defaults[1..], env)
  }

  // --- quoting ----------------------------------------------------------------

  function ReopenedChar(c: CodePoint): Text {
    if c == QUOTE then [QUOTE, BACKSLASH, QUOTE, QUOTE] else [c]
  }

  /** `value.replace("'", "'\\''")` */
  function Reopened(value: Text): Text {
    if value == [] then [] else ReopenedChar(value[0]) + Reopened(value[1..])
  }

  /** `_quote` */
  function Quoted(value: Text): Text {
    [QUOTE] + Reopened(value) + [QUOTE]
  }

  function Line(a: Assignment): Text {
    a.key + [EQUALS] + Quoted(a.value) + [LF]
  }

  /** The text of an environment file with these assignments. */
  function EnvFile(assignments: seq<Assignment>): Text {
    if assignments == [] then [] else Line(assignments[0]) + EnvFile(assignments[1..])
  }

  // --- the shell's reading of it ------------------------------------------------

  /** Characters that stand for themselves outside quotes. */
  predicate IsPlain(c: CodePoint) {
    || 'a' as int <= c <= 'z' as int || 'A' as int <= c <= 'Z' as int || '0' as int <= c <= '9' as int
    || c == '_' as int || c == EQUALS
  }

  /** Token recognition and quote removal of the POSIX shell (section 2.2 of the Shell Command Language), as far as
      words, newlines, backslashes and single quotes go: anything else that is not plain is refused outside quotes.
      `word` is what the current word has come to, `words` the words before it. */
  function Words(s: Text, quoted: bool, word: Text, words: seq<Text>): Option<seq<Text>>
    decreases |s|
  {
    if s == [] then
      if quoted then None else Some(if word == [] then words else words + [word])
    else if quoted then
      if s[0] == QUOTE then Words(s[1..], false, word, words) else Words(s[1..], true, word + [s[0]], words)
    else if s[0] == QUOTE then Words(s[1..], true, word, words)
    else if s[0] == BACKSLASH then
      if |s| == 1 then None
      else if s[1] == LF then Words(s[2..], false, word, words)
      else Words(s[2..], false, word + [s[1]], words)
    else if s[0] == LF then Words(s[1..], false, [], if word == [] then words else words + [word])
    else if IsPlain(s[0]) then Words(s[1..], false, word + [s[0]], words)
    else None
  }

  /** A word as an assignment, split at its first equals sign. */
  function AsAssignment(word: Text): Option<Assignment> {
    if word == [] then None
    else if word[0] == EQUALS then Some(Assignment([], word[1..]))
    else
      match AsAssignment(word[1..])
      case None => None
      case Some(a) => Some(Assignment([word[0]] + a.key, a.value))
  }

  function AsAssignments(words: seq<Text>): Option<seq<Assignment>> {
    if words == [] then Some([])
    else
      match (AsAssignment(words[0]), AsAssignments(words[1..]))
      case (Some(a), Some(rest)) => Some([a] + rest)
      case _ => None
  }

  /** An environment file as the POSIX shell reads it. */
  function ReadEnvFile(s: Text): Option<seq<Assignment>> {
    match Words(s, false, [], [])
    case None => None
    case Some(words) => AsAssignments(words)
  }

  // --- the round trip -----------------------------------------------------------

  /** Within quotes, a quoted value comes back whole, whatever is in it. */
  lemma {:induction false} QuotedComesBack(value: Text, rest: Text, word: Text, words: seq<Text>)
    ensures Words(Reopened(value) + [QUOTE] + rest, true, word, words) == Words(rest, false, word + value, words)
    decreases |value|
  {
    hide Words, Reopened, ReopenedChar;
    if value == [] {
      QuoteEnds(rest, word, words);
    } else {
      ReopenedSplits(value, rest);
      CharComesBack(value[0], Reopened(value[1..]) + [QUOTE] + rest, word, words);
      QuotedComesBack(value[1..], rest, word + [value[0]], words);
      AppendHead(value, []);
      Associates(word, [value[0]], value[1..]);
      assert value[1..] + [] == value[1..] && value + [] == value;
    }
  }

  lemma QuoteEnds(rest: Text, word: Text, words: seq<Text>)
    ensures Words(Reopened([]) + [QUOTE] + rest, true, word, words) == Words(rest, false, word + [], words)
  {
    var s := Reopened([]) + [QUOTE] + rest;
    assert s[1..] == rest && word + [] == word;
  }

  lemma ReopenedSplits(value: Text, rest: Text)
    requires value != []
    ensures Reopened(value) + [QUOTE] + rest == ReopenedChar(value[0]) + (Reopened(value[1..]) + [QUOTE] + rest)
  {
    var tail := Reopened(value[1..]);
    hide ReopenedChar;
    assert Reopened(value) == ReopenedChar(value[0]) + tail;
    hide Reopened;
    Associates(ReopenedChar(value[0]), tail, [QUOTE]);
    Associates(ReopenedChar(value[0]), tail + [QUOTE], rest);
  }

  lemma CharComesBack(c: CodePoint, after: Text, word: Text, words: seq<Text>)
    ensures Words(ReopenedChar(c) + after, true, word, words) == Words(after, true, word + [c], words)
  {
    if c == QUOTE {
      QuoteReopens(after, word, words);
    } else {
      assert ([c] + after)[1..] == after;
    }
  }

  lemma QuoteReopens(after: Text, word: Text, words: seq<Text>)
    ensures Words([QUOTE, BACKSLASH, QUOTE, QUOTE] + after, true, word, words) ==
            Words(after, true, word + [QUOTE], words)
  {
    var s3: Text := [QUOTE] + after;
    var s2: Text := [BACKSLASH, QUOTE] + s3;
    var s1: Text := [QUOTE] + s2;
    assert [QUOTE, BACKSLASH, QUOTE, QUOTE] + after == s1;
    assert s1[1..] == s2 && s2[2..] == s3 && s3[1..] == after;
    assert Words(s3, false, word + [QUOTE], words) == Words(after, true, word + [QUOTE], words);
    assert Words(s2, false, word, words) == Words(s3, false, word + [QUOTE], words);
  }

  predicate AllPlain(s: Text) {
    forall i :: 0 <= i < |s| ==> IsPlain(s[i])
  }

  lemma {:induction false} PlainComesBack(s: Text, rest: Text, word: Text, words: seq<Text>)
    requires AllPlain(s)
    ensures Words(s + rest, false, word, words) == Words(rest, false, word + s, words)
    decreases |s|
  {
    if s == [] {
      assert s + rest == rest && word + s == word;
    } else {
      assert IsPlain(s[0]);
      assert (s + rest)[1..] == s[1..] + rest;
      PlainComesBack(s[1..], rest, word + [s[0]], words);
      assert word + [s[0]] + s[1..] == word + s;
    }
  }

  /** The word a line stands for. */
  function WordOf(a: Assignment): Text {
    a.key + [EQUALS] + a.value
  }

  lemma LineIsWord(a: Assignment, rest: Text, words: seq<Text>)
    requires AllPlain(a.key)
    ensures Words(Line(a) + rest, false, [], words) == Words(rest, false, [], words + [WordOf(a)])
  {
    var name: Text := a.key + [EQUALS];
    var s2: Text := [LF] + rest;
    var s1: Text := Reopened(a.value) + [QUOTE] + s2;
    var none: Text := [];
    LineSplits(a, rest);
    PlainComesBack(name, [QUOTE] + s1, none, words);
    assert none + name == name;
    assert ([QUOTE] + s1)[1..] == s1;
    QuotedComesBack(a.value, s2, name, words);
    assert s2[1..] == rest;
  }

  lemma LineSplits(a: Assignment, rest: Text)
    ensures Line(a) + rest == a.key + [EQUALS] + ([QUOTE] + (Reopened(a.value) + [QUOTE] + ([LF] + rest)))
  {
    hide Reopened;
  }

  function WordsOf(assignments: seq<Assignment>): seq<Text> {
    if assignments == [] then [] else [WordOf(assignments[0])] + WordsOf(assignments[1..])
  }

  lemma {:induction false} FileIsWords(assignments: seq<Assignment>, words: seq<Text>)
    requires forall a :: a in assignments ==> AllPlain(a.key)
    ensures Words(EnvFile(assignments), false, [], words) == Some(words + WordsOf(assignments))
    decreases |assignments|
  {
    hide Line, WordOf, AllPlain;
    if assignments == [] {
      assert words + WordsOf(assignments) == words;
    } else {
      LineIsWord(assignments[0], EnvFile(assignments[1..]), words);
      FileIsWords(assignments[1..], words + [WordOf(assignments[0])]);
      assert words + [WordOf(assignments[0])] + WordsOf(assignments[1..]) == words + WordsOf(assignments);
    }
  }

  lemma {:induction false} WordSplits(key: Text, value: Text)
    requires EQUALS !in key
    ensures AsAssignment(key + [EQUALS] + value) == Some(Assignment(key, value))
  {
    var s := key + [EQUALS] + value;
    if key == [] {
      assert s[1..] == value;
    } else {
      assert key[0] in key;
      assert s[1..] == key[1..] + [EQUALS] + value;
      WordSplits(key[1..], value);
      assert [key[0]] + key[1..] == key;
    }
  }

  /** A name the file can carry: plain, and without an equals sign. */
  predicate IsName(key: Text) {
    AllPlain(key) && EQUALS !in key
  }

  lemma {:induction false} WordsSplit(assignments: seq<Assignment>)
    requires forall a :: a in assignments ==> IsName(a.key)
    ensures AsAssignments(WordsOf(assignments)) == Some(assignments)
  {
    hide AsAssignment, AllPlain;
    if assignments != [] {
      WordSplits(assignments[0].key, assignments[0].value);
      WordsSplit(assignments[1..]);
      var words := WordsOf(assignments);
      assert words[0] == WordOf(assignments[0]) && words[1..] == WordsOf(assignments[1..]);
      assert [assignments[0]] + assignments[1..] == assignments;
      assert AsAssignment(words[0]) == Some(assignments[0]);
    }
  }

  /** Reading an environment file gives back every key and every value, whatever the values hold: quotes, blanks,
      backslashes, dollar signs, newlines. */
  lemma EnvFileRoundTrip(assignments: seq<Assignment>)
    requires forall a :: a in assignments ==> IsName(a.key)
    ensures ReadEnvFile(EnvFile(assignments)) == Some(assignments)
  {
    FileIsWords(assignments, []);
    WordsSplit(assignments);
    hide Words, EnvFile, WordsOf, AsAssignments, AllPlain;
    var none: seq<Text> := [];
    assert none + WordsOf(assignments) == WordsOf(assignments);
  }

  // --- what the readers agree on ------------------------------------------------

  /** `seed_owner_env` */
  function SeedOwnerEnv(env: Environment): Text {
    EnvFile(Resolved(SEED_DEFAULTS, env))
  }

  predicate IsKeyChar(c: char) {
    'A' <= c <= 'Z' || c == '_'
  }

  lemma KeyCharsArePlain(key: string)
    requires forall i :: 0 <= i < |key| ==> IsKeyChar(key[i])
    ensures IsName(Codes(key))
  {
    forall i | 0 <= i < |Codes(key)|
      ensures IsPlain(Codes(key)[i]) && Codes(key)[i] != EQUALS
    {
      assert IsKeyChar(key[i]);
    }
  }

  lemma DifferAt(a: string, b: string, k: nat)
    requires k < |a| && k < |b| && a[k] != b[k]
    ensures Codes(a) != Codes(b)
  {
    assert Codes(a)[k] == a[k] as int && Codes(b)[k] == b[k] as int;
  }

  lemma LengthsDiffer(a: string, b: string)
    requires |a| != |b|
    ensures Codes(a) != Codes(b)
  {
  }

  lemma NamesDiffer(i: nat, j: nat)
    requires i < j < 8
    ensures SEED_DEFAULTS[i].key != SEED_DEFAULTS[j].key
  {
    SeedDefaultAt(i);
    SeedDefaultAt(j);
    hide Codes;
    if |KEYS[i]| != |KEYS[j]| {
      LengthsDiffer(KEYS[i], KEYS[j]);
    } else if i == 0 {
      DifferAt(KEYS[i], KEYS[j], 10);
    } else if i < 6 {
      DifferAt(KEYS[i], KEYS[j], 4);
    } else {
      DifferAt(KEYS[i], KEYS[j], 12);
    }
  }

  lemma NamesArePlain(i: nat)
    requires i < 8
    ensures IsName(SEED_DEFAULTS[i].key) && SEED_DEFAULTS[i].value != []
  {
    hide IsName;
    SeedDefaultAt(i);
    assert forall k :: 0 <= k < |KEYS[i]| ==> IsKeyChar(KEYS[i][k]);
    KeyCharsArePlain(KEYS[i]);
  }

  lemma {:induction false} ResolvedAt(defaults: seq<Assignment>, env: Environment)
    ensures |Resolved(defaults, env)| == |defaults|
    ensures forall i :: 0 <= i < |defaults| ==>
              Resolved(defaults, env)[i] == Assignment(defaults[i].key, Setting(defaults[i], env))
  {
    hide Setting;
    if defaults != [] {
      ResolvedAt(defaults[1..], env);
    }
  }

  /** The seed unit's file says exactly the settings, in their order. */
  lemma SeedOwnerRoundTrip(env: Environment)
    ensures ReadEnvFile(SeedOwnerEnv(env)) == Some(Resolved(SEED_DEFAULTS, env))
  {
    ResolvedAt(SEED_DEFAULTS, env);
    var resolved := Resolved(SEED_DEFAULTS, env);
    hide Resolved, EnvFile, ReadEnvFile, IsName, Setting;
    forall a | a in resolved
      ensures IsName(a.key)
    {
      var i: nat :| i < |resolved| && resolved[i] == a;
      NamesArePlain(i);
    }
    EnvFileRoundTrip(resolved);
  }

  /** A unit's environment: the last assignment to a key counts. */
  function UnitEnvironment(assignments: seq<Assignment>): Environment {
    if assignments == [] then map[]
    else
      var n := |assignments| - 1;
      UnitEnvironment(assignments[..n])[assignments[n].key := assignments[n].value]
  }

  lemma {:induction false} UnitHolds(assignments: seq<Assignment>, i: nat)
    requires i < |assignments|
    requires forall j, k :: 0 <= j < k < |assignments| ==> assignments[j].key != assignments[k].key
    ensures assignments[i].key in UnitEnvironment(assignments)
    ensures UnitEnvironment(assignments)[assignments[i].key] == assignments[i].value
    decreases |assignments|
  {
    var n := |assignments| - 1;
    if i < n {
      UnitHolds(assignments[..n], i);
    }
  }

  /** What a unit has from an environment file, read by the shell's rules. */
  function UnitOf(file: Text): Option<Environment> {
    match ReadEnvFile(file)
    case None => None
    case Some(assignments) => Some(UnitEnvironment(assignments))
  }

  /** The unit has, under each of the eight names, what the container's environment says, and the default where that
      says nothing or is empty. */
  lemma UnitHasSettings(env: Environment, i: nat)
    requires i < |KEYS|
    ensures
      var unit := UnitOf(SeedOwnerEnv(env));
      var key := Codes(KEYS[i]);
      && unit.Some? && key in unit.value
      && unit.value[key] == if key in env && |env[key]| > 0 then env[key] else Codes(VALUES[i])
  {
    ResolvedAt(SEED_DEFAULTS, env);
    SeedOwnerRoundTrip(env);
    SeedDefaultAt(i);
    var resolved := Resolved(SEED_DEFAULTS, env);
    hide Resolved, UnitEnvironment, ReadEnvFile, SeedOwnerEnv, Codes;
    forall j: nat, k: nat | j < k < |resolved|
      ensures resolved[j].key != resolved[k].key
    {
      NamesDiffer(j, k);
    }
    UnitHolds(resolved, i);
  }

  /** A flag is on when it says `true` or `1`, and off when it is unset, empty, or says anything else. */
  lemma FlagIff(key: Text, env: Environment)
    ensures IsEnabled(key, env) <==>
              key in env && (env[key] == [0x74, 0x72, 0x75, 0x65] || env[key] == [0x31])
  {
    assert Codes("true") == [0x74, 0x72, 0x75, 0x65] && Codes("1") == [0x31];
  }

  /** The seed step, which has its settings from the file written for its unit, and the health check, which reads the
      container's environment, see the same setting under every name, and the same flag. */
  lemma ReadersAgree(env: Environment, i: nat)
    requires i < |SEED_DEFAULTS|
    ensures
      var unit := UnitOf(SeedOwnerEnv(env));
      var default := SEED_DEFAULTS[i];
      && unit.Some?
      && Setting(default, unit.value) == Setting(default, env)
      && (!IsOn(default.value) ==> (IsEnabled(default.key, unit.value) <==> IsEnabled(default.key, env)))
  {
    NamesArePlain(i);
    ResolvedAt(SEED_DEFAULTS, env);
    SeedOwnerRoundTrip(env);
    var resolved := Resolved(SEED_DEFAULTS, env);
    hide Resolved, UnitEnvironment, IsName, ReadEnvFile, SeedOwnerEnv;
    forall j: nat, k: nat | j < k < |resolved|
      ensures resolved[j].key != resolved[k].key
    {
      NamesDiffer(j, k);
    }
    UnitHolds(resolved, i);
  }

  predicate IsOn(value: Text) {
    value == Codes("true") || value == Codes("1")
  }
}
