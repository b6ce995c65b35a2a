/** The grammar of a properties file, told by the characters themselves: where lines end, which of them are blank or
    comments, what a backslash at the end of one does, and how a key is set off from its value. */
module Grammar {
  import opened Sequences
  import opened Wrappers
  import opened Chars
  import opened Lines
  import opened Regexes
  import opened Reading
  import opened SelfDelimiting

  // --- characters -----------------------------------------------------------------

  /** Blank, tab and form feed. */
  predicate AllBlank(s: Text) {
    forall i :: 0 <= i < |s| ==> s[i] == 0x20 || s[i] == 0x09 || s[i] == 0x0C
  }

  predicate StartsBlank(s: Text) {
    s != [] && (s[0] == 0x20 || s[0] == 0x09 || s[0] == 0x0C)
  }

  predicate NoLineEnd(s: Text) {
    forall i :: 0 <= i < |s| ==> s[i] != 0x0A && s[i] != 0x0D
  }

  predicate IsLineEnd(e: Text) {
    e == [0x0A] || e == [0x0D] || e == [0x0D, 0x0A]
  }

  lemma {:induction false} LStripOf(w: Text, s: Text)
    requires AllBlank(w) && !StartsBlank(s)
    ensures LStrip(w + s) == s
  {
    if w == [] {
      assert w + s == s;
    } else {
      assert (w + s)[1..] == w[1..] + s;
      LStripOf(w[1..], s);
    }
  }

  /** Every text is blanks and something that starts with none. */
  lemma BlanksBefore(s: Text) returns (w: Text)
    ensures s == w + LStrip(s) && AllBlank(w) && !StartsBlank(LStrip(s))
  {
    LStripShape(s);
    w := s[..|s| - |LStrip(s)|];
    hide LStrip;
    assert forall i :: 0 <= i < |w| ==> w[i] == s[i] && IsBlank(s[i]);
  }

  // --- physical lines -------------------------------------------------------------

  predicate IsWholeLine(l: Text) {
    exists n :: 0 <= n < |l| && NoLineEnd(l[..n]) && IsLineEnd(l[n..])
  }

  /** Lines of which each ends where its line end does, but for the last, which may have none; CR and LF next to each
      other are one line end. */
  predicate AreLines(ls: seq<Text>) {
    && (forall i :: 0 <= i < |ls| - 1 ==> IsWholeLine(ls[i]))
    && (ls != [] ==> var l := ls[|ls| - 1]; l != [] && (IsWholeLine(l) || NoLineEnd(l)))
    && (forall i :: 0 < i < |ls| ==> Apart(ls[i - 1], ls[i]))
  }

  /** The line end between these lines is the first one's. */
  predicate Apart(l: Text, m: Text) {
    l != [] && m != [] && !(l[|l| - 1] == 0x0D && m[0] == 0x0A)
  }

  lemma WholeLineParts(l: Text) returns (body: Text, end: Text)
    requires IsWholeLine(l)
    ensures l == body + end && NoEol(body) && IsLineEnding(end) && end != [] && IsEol(l[|l| - 1])
    ensures IsPhysical(l)
  {
    var n :| 0 <= n < |l| && NoLineEnd(l[..n]) && IsLineEnd(l[n..]);
    body, end := l[..n], l[n..];
    assert l == body + end;
    LineIsPhysical(body, end);
    hide FirstLineLength;
    assert l[|l| - 1] == end[|end| - 1];
  }

  lemma LineParts(l: Text)
    requires l != [] && (IsWholeLine(l) || NoLineEnd(l))
    ensures IsPhysical(l)
  {
    if IsWholeLine(l) {
      var body, end := WholeLineParts(l);
    } else {
      assert l + [] == l;
      LineIsPhysical(l, []);
    }
  }

  lemma PhysicalIsLine(l: Text)
    requires IsPhysical(l)
    ensures l != [] && (IsWholeLine(l) || NoLineEnd(l)) && (EndsWithEol(l) ==> IsWholeLine(l))
  {
    PhysicalShape(l);
    var n := |RStripEol(l)|;
    hide RStripEol, FirstLineLength;
    assert l == l[..n] + l[n..];
    if l[n..] == [] {
      assert l[..n] == l;
    } else {
      assert NoLineEnd(l[..n]) && IsLineEnd(l[n..]);
    }
  }

  lemma PhysicalSplits(l: Text)
    requires IsPhysical(l)
    ensures SplitLines(l) == [l]
  {
    assert l[..|l|] == l && l[|l|..] == [];
  }

  lemma {:induction false} LinesComeBack(ls: seq<Text>)
    requires AreLines(ls)
    ensures SplitLines(Flatten(ls)) == ls
  {
    if ls != [] {
      var l, rest := ls[0], ls[1..];
      LineParts(l);
      assert AreLines(rest) by {
        TailAreLines(ls);
      }
      LinesComeBack(rest);
      PhysicalSplits(l);
      if rest == [] {
        FlattenOne(l);
        assert ls == [l];
      } else {
        var body, end := WholeLineParts(l);
        FlattenStarts(rest);
        hide AreLines, SplitLines, IsPhysical;
        SplitLinesAppend(l, Flatten(rest));
        assert ls == [l] + rest;
      }
    }
  }

  lemma TailAreLines(ls: seq<Text>)
    requires AreLines(ls) && ls != []
    ensures AreLines(ls[1..])
    ensures |ls| > 1 ==> IsWholeLine(ls[0]) && Apart(ls[0], ls[1])
  {
    hide IsWholeLine, NoLineEnd;
  }

  lemma FlattenStarts(ls: seq<Text>)
    requires ls != [] && ls[0] != []
    ensures Flatten(ls) != [] && Flatten(ls)[0] == ls[0][0]
  {
  }

  lemma {:induction false} CutsAreLines(s: Text)
    ensures AreLines(SplitLines(s))
    decreases |s|
  {
    if s != [] {
      var n := FirstLineLength(s);
      CutsAreLines(s[n..]);
      LinesArePhysical(s, 0);
      PhysicalIsLine(s[..n]);
      FirstLineEnds(s);
      NoLoneCr(s);
      var rest := SplitLines(s[n..]);
      if rest != [] {
        SplitStarts(s[n..]);
      }
      hide FirstLineLength, SplitLines, IsWholeLine, NoLineEnd, IsPhysical;
      ConsAreLines(s[..n], rest);
    }
  }

  lemma SplitStarts(s: Text)
    requires SplitLines(s) != []
    ensures s != [] && SplitLines(s)[0] != [] && SplitLines(s)[0][0] == s[0]
  {
  }

  lemma {:induction false} NoLoneCr(s: Text)
    requires s != []
    ensures var n := FirstLineLength(s); n < |s| && s[n - 1] == CR ==> s[n] != LF
  {
    if !IsEol(s[0]) && |s| > 1 {
      NoLoneCr(s[1..]);
    }
  }

  lemma ConsAreLines(l: Text, rest: seq<Text>)
    requires AreLines(rest) && l != [] && (IsWholeLine(l) || NoLineEnd(l))
    requires rest != [] ==> IsWholeLine(l) && Apart(l, rest[0])
    ensures AreLines([l] + rest)
  {
    hide IsWholeLine, NoLineEnd;
  }

  /** A text is cut into lines in exactly one way: at LF, at CR LF, and at a CR that no LF follows. */
  lemma SplitLinesIff(s: Text, ls: seq<Text>)
    ensures ls == SplitLines(s) <==> Flatten(ls) == s && AreLines(ls)
  {
    SplitLinesLossless(s);
    CutsAreLines(s);
    hide SplitLines, AreLines, Flatten;
    if Flatten(ls) == s && AreLines(ls) {
      LinesComeBack(ls);
    }
  }

  // --- blank lines and comments -----------------------------------------------------

  predicate BlankUpTo(line: Text, n: nat) {
    n <= |line| && AllBlank(line[..n]) && (line[n..] == [] || IsLineEnd(line[n..]))
  }

  predicate MarkedAt(line: Text, n: nat) {
    n < |line| && AllBlank(line[..n]) && (line[n] == 0x23 || line[n] == 0x21)
  }

  lemma SplitAt(s: Text, n: nat)
    requires n <= |s|
    ensures s == s[..n] + s[n..] && (n < |s| ==> s[n..] != [] && s[n..][0] == s[n])
  {
  }

  lemma StrippedTo(line: Text, n: nat)
    requires n <= |line| && AllBlank(line[..n]) && !StartsBlank(line[n..])
    ensures LStrip(line) == line[n..]
  {
    SplitAt(line, n);
    hide *;
    LStripOf(line[..n], line[n..]);
  }

  lemma StrippedAt(line: Text) returns (n: nat)
    ensures n <= |line| && AllBlank(line[..n]) && LStrip(line) == line[n..]
  {
    var w := BlanksBefore(line);
    n := |w|;
    hide *;
    Behind(w, LStrip(line));
  }

  lemma LineEndIsBare(e: Text)
    requires e == [] || IsLineEnd(e)
    ensures !StartsBlank(e)
  {
  }

  lemma LineEndingIff(e: Text)
    ensures IsLineEnding(e) <==> e == [] || IsLineEnd(e)
  {
  }

  lemma BlankLineStrips(line: Text)
    ensures IsBlankLine(line) <==> IsLineEnding(LStrip(line))
  {
    hide LStrip, IsLineEnding;
  }

  /** A line is blank when nothing but blanks stands before its end. */
  lemma BlankLineIff(line: Text)
    ensures IsBlankLine(line) <==> exists n: nat :: BlankUpTo(line, n)
  {
    BlankLineStrips(line);
    LineEndingIff(LStrip(line));
    var m := StrippedAt(line);
    hide LStrip, IsBlankLine, IsLineEnding, AllBlank, IsLineEnd, StartsBlank;
    if IsBlankLine(line) {
      assert BlankUpTo(line, m);
    }
    if n: nat :| BlankUpTo(line, n) {
      LineEndIsBare(line[n..]);
      StrippedTo(line, n);
    }
  }

  lemma CommentLineStrips(line: Text)
    ensures IsCommentLine(line) <==> LStrip(line) != [] && (LStrip(line)[0] == 0x23 || LStrip(line)[0] == 0x21)
  {
    hide LStrip;
  }

  /** A line is a comment when its first character that is not blank is `#` or `!`. */
  lemma CommentLineIff(line: Text)
    ensures IsCommentLine(line) <==> exists n: nat :: MarkedAt(line, n)
  {
    CommentLineStrips(line);
    var m := StrippedAt(line);
    SplitAt(line, m);
    hide LStrip, IsCommentLine, AllBlank;
    if IsCommentLine(line) {
      assert MarkedAt(line, m);
    }
    if n: nat :| MarkedAt(line, n) {
      SplitAt(line, n);
      StrippedTo(line, n);
    }
  }

  // --- continued lines ----------------------------------------------------------------

  /** Blanks at its front aside, a line that ends in an odd number of backslashes goes on in the next one; the last of
      them and the line end are dropped. Any other line ends its logical line. */
  lemma LineJoins(w: Text, body: Text, end: Text, rest: seq<Text>)
    requires AllBlank(w) && !StartsBlank(body) && NoLineEnd(body) && (end == [] || IsLineEnd(end))
    ensures
      var lines := [w + body + end] + rest;
      if TrailingBackslashes(body) % 2 == 0 then Span(lines) == 1 && Join(lines) == body
      else if rest == [] then Span(lines) == 1 && Join(lines) == body[..|body| - 1]
      else Span(lines) == 1 + Span(rest) && Join(lines) == body[..|body| - 1] + Join(rest)
  {
    var line := w + body + end;
    var lines := [line] + rest;
    assert lines[0] == line && lines[1..] == rest;
    assert NoEol(w + body);
    StripOfLine(w + body, end);
    LStripOf(w, body);
    hide Strip, LStrip;
    ContinuedWithoutEol(body);
    hide IsContinued, DropContinuation;
    if TrailingBackslashes(body) % 2 == 0 {
      assert body + [] == body;
    } else if rest == [] {
      assert body[..|body| - 1] + [] == body[..|body| - 1];
    }
  }

  // --- keys and values ------------------------------------------------------------------

  /** A separator: blanks, at most one `=` or `:`, and blanks; not nothing. */
  predicate IsSeparation(before: Text, sign: Text, after: Text) {
    && AllBlank(before) && AllBlank(after)
    && (sign == [] || sign == [0x3D] || sign == [0x3A])
    && (sign == [] ==> before != [] && after == [])
  }

  predicate StartsSeparator(s: Text) {
    s != [] && (StartsBlank(s) || s[0] == 0x3D || s[0] == 0x3A)
  }

  /** Every blank and every sign in the key has an odd number of backslashes before it, and it does not end in one. */
  predicate IsWholeKey(key: Text) {
    && TrailingBackslashes(key) % 2 == 0
    && forall i :: 0 <= i < |key| && StartsSeparator(key[i..]) ==> TrailingBackslashes(key[..i]) % 2 == 1
  }

  lemma {:induction false} SkipOver(s: Text, p: nat, w: Text, v: Text)
    requires p <= |s| && s[p..] == w + v && AllBlank(w) && !StartsBlank(v)
    ensures SkipBlanks(s, p) == p + |w|
    decreases |w|
  {
    if w == [] {
      assert s[p..] == v;
      if p < |s| {
        assert s[p] == s[p..][0];
      }
    } else {
      assert s[p] == s[p..][0] == w[0];
      assert s[p + 1..] == s[p..][1..] == w[1..] + v;
      SkipOver(s, p + 1, w[1..], v);
    }
  }

  lemma KeyEndsIff(line: Text, k: nat)
    requires k < |line|
    ensures KeyEnds(line, k) <==> StartsSeparator(line[k..]) && TrailingBackslashes(line[..k]) % 2 == 0
  {
    assert line[k..][0] == line[k];
  }

  lemma KeyIsFirst(key: Text, tail: Text)
    requires IsWholeKey(key) && StartsSeparator(tail)
    ensures KeyEnds(key + tail, |key|) && forall j: nat :: KeyEnds(key + tail, j) ==> |key| <= j
  {
    var line := key + tail;
    assert line[..|key|] == key && line[|key|..] == tail;
    KeyEndsIff(line, |key|);
    forall j: nat | KeyEnds(line, j)
      ensures |key| <= j
    {
      if j < |key| {
        KeyEndsIff(line, j);
        assert line[..j] == key[..j] && line[j..][0] == key[j..][0];
        assert StartsSeparator(key[j..]);
      }
    }
  }

  lemma ValueStartIs(line: Text, k: nat, before: Text, sign: Text, after: Text, value: Text)
    requires k <= |line| && line[k..] == before + (sign + (after + value))
    requires IsSeparation(before, sign, after)
    requires !StartsBlank(value) && (sign == [] ==> !StartsSeparator(value))
    ensures ValueStart(line, k) == k + |before| + |sign| + |after|
  {
    hide SkipBlanks, StartsSeparator, AllBlank;
    SkipOver(line, k, before, sign + (after + value));
    var b := k + |before|;
    Behind(before, sign + (after + value));
    DropTwice(line, k, |before|);
    if sign == [] {
      assert line[b..] == value by {
        Nothing(value);
      }
      NoSignAt(line, b, value);
    } else {
      Behind(sign, after + value);
      DropTwice(line, b, 1);
      FirstOf(line, b, sign, after + value);
      SkipOver(line, b + 1, after, value);
    }
  }

  lemma DropTwice(s: Text, i: nat, j: nat)
    requires i <= |s| && j <= |s[i..]|
    ensures s[i + j..] == s[i..][j..]
  {
  }

  lemma Nothing(s: Text)
    ensures [] + ([] + s) == s
  {
  }

  lemma FirstOf(s: Text, i: nat, head: Text, tail: Text)
    requires i <= |s| && s[i..] == head + tail && head != []
    ensures i < |s| && s[i] == head[0]
  {
    assert s[i..][0] == s[i];
  }

  lemma NoSignAt(s: Text, i: nat, value: Text)
    requires i <= |s| && s[i..] == value && !StartsSeparator(value)
    ensures i < |s| ==> !IsAssignment(s[i])
  {
    assert i < |s| ==> s[i..][0] == s[i];
  }

  lemma SeparationStarts(before: Text, sign: Text, after: Text, value: Text)
    requires IsSeparation(before, sign, after)
    ensures StartsSeparator(before + (sign + (after + value)))
  {
  }

  lemma FirstSeparation(key: Text, before: Text, sign: Text, after: Text, value: Text)
    requires IsWholeKey(key) && IsSeparation(before, sign, after)
    requires !StartsBlank(value) && (sign == [] ==> !StartsSeparator(value))
    ensures SeparatorSearch(key + (before + (sign + (after + value))), 0) ==
            Some(Separator(|key|, |key| + |before| + |sign| + |after|))
  {
    SeparationStarts(before, sign, after, value);
    SeparationBehind(key, before + (sign + (after + value)), before, sign, after, value);
  }

  lemma SeparationBehind(key: Text, tail: Text, before: Text, sign: Text, after: Text, value: Text)
    requires IsWholeKey(key) && IsSeparation(before, sign, after) && StartsSeparator(tail)
    requires tail == before + (sign + (after + value))
    requires !StartsBlank(value) && (sign == [] ==> !StartsSeparator(value))
    ensures SeparatorSearch(key + tail, 0) == Some(Separator(|key|, |key| + |before| + |sign| + |after|))
  {
    hide *;
    KeyIsFirst(key, tail);
    Behind(key, tail);
    ValueStartIs(key + tail, |key|, before, sign, after, value);
    FirstUnescapedIsSeparator(key + tail, |key|);
  }

  lemma Behind(a: Text, b: Text)
    ensures (a + b)[..|a|] == a && (a + b)[|a|..] == b
  {
  }

  lemma ValueBehind(key: Text, before: Text, sign: Text, after: Text, value: Text)
    ensures
      var line := key + (before + (sign + (after + value)));
      && |line| == |key| + |before| + |sign| + |after| + |value|
      && line[..|key|] == key && line[|key| + |before| + |sign| + |after|..] == value
  {
    Behind(key, before + (sign + (after + value)));
    Associates(sign, after, value);
    Associates(before, sign + after, value);
    Associates(key, before + (sign + after), value);
    Behind(key + (before + (sign + after)), value);
  }

  lemma ElementAt(line: Text, source: Text, k: nat, v: nat)
    requires SeparatorSearch(line, 0) == Some(Separator(k, v))
    ensures line != [] && k < v <= |line|
    ensures LogicalElement(line, source) ==
            if Unescape(line[..k]).Err? then Err(Unescape(line[..k]).error)
            else if Unescape(line[v..]).Err? then Err(Unescape(line[v..]).error)
            else Ok(KeyValue(Unescape(line[..k]).value, Unescape(line[v..]).value, source))
  {
    SeparatorBounds(line);
    hide SeparatorSearch, Unescape;
  }

  /** However a key is set off from its value, the line stands for the two of them decoded, or for the first error. */
  lemma SeparatedLine(key: Text, before: Text, sign: Text, after: Text, value: Text, source: Text)
    requires IsWholeKey(key) && IsSeparation(before, sign, after)
    requires !StartsBlank(value) && (sign == [] ==> !StartsSeparator(value))
    ensures LogicalElement(key + (before + (sign + (after + value))), source) ==
            if Unescape(key).Err? then Err(Unescape(key).error)
            else if Unescape(value).Err? then Err(Unescape(value).error)
            else Ok(KeyValue(Unescape(key).value, Unescape(value).value, source))
  {
    hide *;
    FirstSeparation(key, before, sign, after, value);
    ValueBehind(key, before, sign, after, value);
    ElementAt(key + (before + (sign + (after + value))), source, |key|, |key| + |before| + |sign| + |after|);
  }

  /** A line without a separator is a key with an empty value, and nothing at all is no entry. */
  lemma KeyAlone(key: Text, source: Text)
    requires IsWholeKey(key)
    ensures LogicalElement(key, source) ==
            if key == [] then Ok(Whitespace(source))
            else if Unescape(key).Err? then Err(Unescape(key).error)
            else Ok(KeyValue(Unescape(key).value, [], source))
  {
    forall k: nat
      ensures !KeyEnds(key, k)
    {
      if k < |key| {
        KeyEndsIff(key, k);
      }
    }
    SeparatorIsFirstUnescaped(key);
    hide SeparatorSearch, Unescape;
  }
}
