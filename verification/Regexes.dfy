/** The two searches on which line continuation and key/value separation rest, as the leftmost
    matches their regular expressions denote, and the parity rule each one amounts to. */
module Regexes {
  import opened Wrappers
  import opened Chars

  // --- CONTINUED_RGX = (?<!\\)((?:\\\\)*)\\\r?\n?\Z ----------------------

  /** How much of the end of `s` the regex's tail `\r?\n?\Z` takes. */
  function EolLength(s: Text): (n: nat)
    ensures n <= |s|
  {
    if EndsWithEol(s) then
      if |s| > 1 && s[|s| - 2] == CR && s[|s| - 1] == LF then 2 else 1
    else 0
  }

  function WithoutEol(s: Text): Text {
    s[..|s| - EolLength(s)]
  }

  /** `CONTINUED_RGX.search(s)` succeeds. */
  predicate IsContinued(s: Text) {
    TrailingBackslashes(WithoutEol(s)) % 2 == 1
  }

  /** `CONTINUED_RGX.sub(r"\1", s)` */
  function DropContinuation(s: Text): Text {
    if IsContinued(s) then WithoutEol(s)[..|WithoutEol(s)| - 1] else s
  }

  /** The regex matches `s` from `p`, with `j` pairs of backslashes in its group. */
  predicate ContinuedMatch(s: Text, p: nat, j: nat) {
    && p + 2 * j < |s|
    && (p > 0 ==> s[p - 1] != BACKSLASH)
    && (forall i :: p <= i <= p + 2 * j ==> s[i] == BACKSLASH)
    && IsLineEnding(s[p + 2 * j + 1..])
  }

  lemma {:induction false} TrailingRun(s: Text)
    ensures var n := TrailingBackslashes(s);
            && (forall i :: |s| - n <= i < |s| ==> s[i] == BACKSLASH)
            && (n < |s| ==> s[|s| - n - 1] != BACKSLASH)
  {
    if s != [] && s[|s| - 1] == BACKSLASH {
      TrailingRun(s[..|s| - 1]);
    }
  }

  lemma {:induction false} RunIsTrailing(s: Text, n: nat)
    requires n <= |s|
    requires forall i :: |s| - n <= i < |s| ==> s[i] == BACKSLASH
    requires n < |s| ==> s[|s| - n - 1] != BACKSLASH
    ensures TrailingBackslashes(s) == n
  {
    if n > 0 {
      RunIsTrailing(s[..|s| - 1], n - 1);
    }
  }

  /** The odd-run reading of a continuation is exactly when the regex has a match, and the substitution
      keeps precisely what stands before the match together with its group. */
  lemma ContinuedIsRegexMatch(s: Text)
    ensures IsContinued(s) <==> exists p: nat, j: nat :: ContinuedMatch(s, p, j)
    ensures forall p: nat, j: nat :: ContinuedMatch(s, p, j) ==> DropContinuation(s) == s[..p + 2 * j]
  {
    var body := WithoutEol(s);
    var n := TrailingBackslashes(body);
    TrailingRun(body);
    if n % 2 == 1 {
      assert s[|body| - n + 2 * (n / 2) + 1..] == s[|body|..];
      assert IsLineEnding(s[|body|..]);
      assert ContinuedMatch(s, |body| - n, n / 2);
    }
    forall p: nat, j: nat | ContinuedMatch(s, p, j)
      ensures IsContinued(s) && DropContinuation(s) == s[..p + 2 * j]
    {
      ContinuedMatchParity(s, p, j);
    }
  }

  lemma ContinuedMatchParity(s: Text, p: nat, j: nat)
    requires ContinuedMatch(s, p, j)
    ensures IsContinued(s) && DropContinuation(s) == s[..p + 2 * j]
  {
    var tail := s[p + 2 * j + 1..];
    assert s[p + 2 * j] == BACKSLASH;
    if tail != [] {
      assert s[|s| - 1] == tail[|tail| - 1];
      if |tail| == 2 {
        assert s[|s| - 2] == tail[0];
      }
    } else {
      assert s[|s| - 1] == BACKSLASH;
    }
    assert EolLength(s) == |tail|;
    var body := WithoutEol(s);
    assert body == s[..p + 2 * j + 1];
    RunIsTrailing(body, 2 * j + 1);
    assert body[..|body| - 1] == s[..p + 2 * j];
  }

  /** Continuation of a line that holds no line ending. */
  lemma ContinuedWithoutEol(s: Text)
    requires NoEol(s)
    ensures IsContinued(s) <==> TrailingBackslashes(s) % 2 == 1
    ensures DropContinuation(s) == if IsContinued(s) then s[..|s| - 1] else s
  {
    assert WithoutEol(s) == s;
  }

  lemma ChoppedIsEven(line: Text)
    requires NoEol(line)
    ensures TrailingBackslashes(DropContinuation(line)) % 2 == 0 && NoEol(DropContinuation(line))
    ensures IsContinued(line) ==> line != [] && DropContinuation(line) == line[..|line| - 1]
  {
    ContinuedWithoutEol(line);
  }

  lemma ParityOfAppend(a: Text, b: Text)
    requires TrailingBackslashes(a) % 2 == 0
    ensures TrailingBackslashes(a + b) % 2 == TrailingBackslashes(b) % 2
  {
    TrailingBackslashesAppend(a, b);
  }

  /** A chopped line ends in an even run of backslashes, so what is appended decides alone whether it continues. */
  lemma AppendDecidesContinuation(line: Text, next: Text)
    requires NoEol(line) && NoEol(next) && TrailingBackslashes(line) % 2 == 0
    ensures IsContinued(line + next) == IsContinued(next)
    ensures DropContinuation(line + next) == line + DropContinuation(next)
  {
    hide *;
    NoEolAppend(line, next);
    ParityOfAppend(line, next);
    ContinuedWithoutEol(next);
    ContinuedWithoutEol(line + next);
    ChoppedIsEven(next);
    if IsContinued(next) {
      DropLast(line, next);
    }
  }

  lemma NoEolAppend(a: Text, b: Text)
    requires NoEol(a) && NoEol(b)
    ensures NoEol(a + b)
  {
  }

  lemma DropLast(a: Text, b: Text)
    requires b != []
    ensures (a + b)[..|a + b| - 1] == a + b[..|b| - 1]
  {
  }

  // --- SEPARATOR_RGX = (?<!\\)(?:\\\\)*([ \t\f]*[=:]|[ \t\f])[ \t\f]* ----

  /** `m.start(1)` and `m.end()` of a separator match. */
  datatype Separator = Separator(keyEnd: nat, valueStart: nat)

  predicate IsAssignment(c: CodePoint) {
    c == EQUALS || c == COLON
  }

  predicate IsSeparator(c: CodePoint) {
    IsBlank(c) || IsAssignment(c)
  }

  /** End of the run of backslashes of `s` that starts at `p`. */
  function RunEnd(s: Text, p: nat): (e: nat)
    requires p <= |s|
    ensures p <= e <= |s|
    ensures forall i :: p <= i < e ==> s[i] == BACKSLASH
    ensures e < |s| ==> s[e] != BACKSLASH
    decreases |s| - p
  {
    if p < |s| && s[p] == BACKSLASH then RunEnd(s, p + 1) else p
  }

  function SkipBlanks(s: Text, p: nat): (e: nat)
    requires p <= |s|
    ensures p <= e <= |s|
    ensures forall i :: p <= i < e ==> IsBlank(s[i])
    ensures e < |s| ==> !IsBlank(s[e])
    decreases |s| - p
  {
    if p < |s| && IsBlank(s[p]) then SkipBlanks(s, p + 1) else p
  }

  /** How many of `n` backslashes `(?:\\\\)*` takes. */
  function Paired(n: nat): (m: nat)
    ensures m == if n % 2 == 0 then n else n - 1
  {
    n / 2 * 2
  }

  /** The match that starts at `p`. Taking fewer pairs of backslashes than the run holds leaves a backslash
      where the group has to start, so only the longest choice can succeed. */
  function SeparatorAt(s: Text, p: nat): Option<Separator>
    requires p <= |s|
  {
    if p > 0 && s[p - 1] == BACKSLASH then None
    else
      var k := p + Paired(RunEnd(s, p) - p);
      var b := SkipBlanks(s, k);
      if b < |s| && IsAssignment(s[b]) then Some(Separator(k, SkipBlanks(s, b + 1)))
      else if k < b then Some(Separator(k, b))
      else None
  }

  /** `SEPARATOR_RGX.search(s)`, trying every start from `p` on. */
  function SeparatorSearch(s: Text, p: nat): Option<Separator>
    requires p <= |s|
    decreases |s| - p
  {
    var m := SeparatorAt(s, p);
    if m.Some? || p == |s| then m else SeparatorSearch(s, p + 1)
  }

  /** A key may end at `k`: a separator stands there that no backslash escapes. */
  predicate KeyEnds(s: Text, k: nat) {
    k < |s| && IsSeparator(s[k]) && TrailingBackslashes(s[..k]) % 2 == 0
  }

  /** Where the value starts once the key has ended at `k`: blanks, at most one `=` or `:`, blanks. */
  function ValueStart(s: Text, k: nat): nat
    requires k <= |s|
  {
    var b := SkipBlanks(s, k);
    if b < |s| && IsAssignment(s[b]) then SkipBlanks(s, b + 1) else b
  }

  lemma SeparatorAtSound(s: Text, p: nat)
    requires p <= |s| && SeparatorAt(s, p).Some?
    ensures var m := SeparatorAt(s, p).value;
            && p <= m.keyEnd && KeyEnds(s, m.keyEnd) && m.valueStart == ValueStart(s, m.keyEnd)
            && (p > 0 ==> s[p - 1] != BACKSLASH)
            && (forall i :: p <= i < m.keyEnd ==> s[i] == BACKSLASH)
  {
    var k := SeparatorAt(s, p).value.keyEnd;
    assert k < |s| && s[k] != BACKSLASH;
    assert k == RunEnd(s, p);
    assert k - p == Paired(RunEnd(s, p) - p);
    hide RunEnd, Paired, TrailingBackslashes;
    RunIsTrailing(s[..k], k - p);
    EvenPaired(k - p);
  }

  lemma EvenPaired(n: nat)
    requires n == Paired(n)
    ensures n % 2 == 0
  {
  }

  lemma SeparatorAtComplete(s: Text, k: nat)
    requires KeyEnds(s, k)
    ensures SeparatorAt(s, k - TrailingBackslashes(s[..k])).Some?
  {
    var p := k - TrailingBackslashes(s[..k]);
    TrailingRun(s[..k]);
    assert forall i :: p <= i < k ==> s[i] == s[..k][i] == BACKSLASH;
    assert RunEnd(s, p) == k;
    if p > 0 {
      assert s[p - 1] == s[..k][p - 1];
    }
  }

  lemma {:induction false} SeparatorSearchIsLeftmost(s: Text, p: nat)
    requires p <= |s|
    ensures var m := SeparatorSearch(s, p);
            if m.None? then forall q :: p <= q <= |s| ==> SeparatorAt(s, q).None?
            else exists q :: p <= q <= |s| && m == SeparatorAt(s, q) &&
                   forall r :: p <= r < q ==> SeparatorAt(s, r).None?
    decreases |s| - p
  {
    hide SeparatorAt;
    if SeparatorAt(s, p).Some? {
      assert SeparatorSearch(s, p) == SeparatorAt(s, p);
    } else if p < |s| {
      SeparatorSearchIsLeftmost(s, p + 1);
      assert SeparatorSearch(s, p) == SeparatorSearch(s, p + 1);
      hide SeparatorSearch;
      if SeparatorSearch(s, p + 1).Some? {
        var q :| p + 1 <= q <= |s| && SeparatorSearch(s, p + 1) == SeparatorAt(s, q)
              && forall r :: p + 1 <= r < q ==> SeparatorAt(s, r).None?;
        assert forall r :: p <= r < q ==> SeparatorAt(s, r).None?;
      }
    }
  }

  lemma NoMatchNoKeyEnd(s: Text, k: nat)
    requires forall r :: 0 <= r <= |s| ==> SeparatorAt(s, r).None?
    ensures !KeyEnds(s, k)
  {
    if KeyEnds(s, k) {
      SeparatorAtComplete(s, k);
    }
  }

  /** Where no match starts before `q`, no key may end before the one whose match starts at `q`. */
  lemma NoEarlierKeyEnd(s: Text, q: nat, k: nat)
    requires q <= |s| && forall r :: 0 <= r < q ==> SeparatorAt(s, r).None?
    requires SeparatorAt(s, q).Some? && KeyEnds(s, k)
    ensures SeparatorAt(s, q).value.keyEnd <= k
  {
    SeparatorAtSound(s, q);
    SeparatorAtComplete(s, k);
    assert q <= k - TrailingBackslashes(s[..k]) <= k;
  }

  /** The search finds the first separator that an even run of backslashes precedes, and there is none exactly
      when every separator in the line is escaped. */
  lemma SeparatorIsFirstUnescaped(s: Text)
    ensures var m := SeparatorSearch(s, 0);
            if m.None? then forall k: nat :: !KeyEnds(s, k)
            else && KeyEnds(s, m.value.keyEnd)
                 && (forall k: nat :: KeyEnds(s, k) ==> m.value.keyEnd <= k)
                 && m.value.valueStart == ValueStart(s, m.value.keyEnd)
  {
    SeparatorSearchIsLeftmost(s, 0);
    var m := SeparatorSearch(s, 0);
    if m.None? {
      forall k: nat
        ensures !KeyEnds(s, k)
      {
        NoMatchNoKeyEnd(s, k);
      }
    } else {
      var q :| 0 <= q <= |s| && m == SeparatorAt(s, q) && forall r :: 0 <= r < q ==> SeparatorAt(s, r).None?;
      SeparatorAtSound(s, q);
      forall k: nat | KeyEnds(s, k)
        ensures m.value.keyEnd <= k
      {
        NoEarlierKeyEnd(s, q, k);
      }
    }
  }

  /** The converse: the first unescaped separator is what the search returns. */
  lemma FirstUnescapedIsSeparator(s: Text, k: nat)
    requires KeyEnds(s, k) && forall j: nat :: KeyEnds(s, j) ==> k <= j
    ensures SeparatorSearch(s, 0) == Some(Separator(k, ValueStart(s, k)))
  {
    SeparatorIsFirstUnescaped(s);
  }
}
