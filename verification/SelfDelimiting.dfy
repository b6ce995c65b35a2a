/** When an element's source keeps its meaning in front of other text, and what changing the end of a source does. */
module SelfDelimiting {
  import opened Wrappers
  import opened Chars
  import opened Lines
  import opened Regexes
  import opened Reading
  import opened Documents

  // --- the last physical line of a source --------------------------------

  /** `s` cut before its last physical line `body + eol`. */
  ghost predicate EndsInLine(s: Text, init: seq<Text>, body: Text, eol: Text) {
    && body + eol != [] && NoEol(body) && IsLineEnding(eol)
    && SplitLines(s) == init + [body + eol]
    && s == Flatten(init) + (body + eol)
    && CleanCut(Flatten(init), body + eol)
    && SplitLines(Flatten(init)) == init
    && (init != [] ==> EndsWithEol(Flatten(init)))
  }

  lemma {:induction false} CleanBoundary(s: Text, n: nat)
    requires n <= |SplitLines(s)|
    ensures var ls := SplitLines(s); CleanCut(Flatten(ls[..n]), Flatten(ls[n..]))
    ensures var ls := SplitLines(s); 0 < n < |ls| ==> EndsWithEol(Flatten(ls[..n]))
    decreases |s|
  {
    hide FirstLineLength, CleanCut, EndsWithEol;
    var ls := SplitLines(s);
    if n == 0 || n == |ls| {
      OneSided(Flatten(ls[..n]), Flatten(ls[n..]), n == 0);
    } else {
      var k := FirstLineLength(s);
      var rest := s[k..];
      SplitLinesLossless(rest);
      if n == 1 {
        FirstLineCuts(s);
        FlattenOne(s[..k]);
        assert ls[..1] == [s[..k]] && ls[1..] == SplitLines(rest);
      } else {
        CleanBoundary(rest, n - 1);
        var more := SplitLines(rest);
        assert ls[..n][1..] == more[..n - 1] && ls[n..] == more[n - 1..];
        assert Flatten(ls[..n]) == s[..k] + Flatten(more[..n - 1]);
        PrefixKeepsCut(s[..k], Flatten(more[..n - 1]), Flatten(more[n - 1..]));
      }
    }
  }

  lemma OneSided(a: Text, b: Text, left: bool)
    requires if left then a == [] else b == []
    ensures CleanCut(a, b)
  {
  }

  lemma FirstLineCuts(s: Text)
    requires s != [] && FirstLineLength(s) < |s|
    ensures var k := FirstLineLength(s); CleanCut(s[..k], s[k..]) && EndsWithEol(s[..k])
  {
    FirstLineStops(s);
    hide FirstLineLength;
  }

  lemma PrefixKeepsCut(p: Text, a: Text, b: Text)
    requires EndsWithEol(a) && CleanCut(a, b)
    ensures EndsWithEol(p + a) && CleanCut(p + a, b)
  {
    assert (p + a)[|p + a| - 1] == a[|a| - 1];
  }

  lemma {:induction false} FirstLineStops(s: Text)
    requires s != [] && FirstLineLength(s) < |s|
    ensures var k := FirstLineLength(s);
            IsEol(s[k - 1]) && !(s[k - 1] == CR && s[k] == LF)
  {
    if !IsEol(s[0]) && |s| > 1 {
      FirstLineStops(s[1..]);
    }
  }

  lemma LastLineOf(s: Text) returns (init: seq<Text>, body: Text, eol: Text)
    requires s != []
    ensures EndsInLine(s, init, body, eol)
  {
    hide SplitLines, Flatten, RStripEol, FirstLineLength;
    var ls := SplitLines(s);
    SplitLinesLossless(s);
    FlattenNothing();
    var n: nat := |ls| - 1;
    init := ls[..n];
    var l := ls[n];
    LinesArePhysical(s, n);
    PhysicalShape(l);
    body := RStripEol(l);
    eol := l[|body|..];
    assert l == body + eol;
    assert ls == init + [l] && ls[n..] == [l];
    FlattenAppend(init, [l]);
    FlattenOne(l);
    SplitLinesOfPrefix(s, n);
    CleanBoundary(s, n);
  }

  lemma FlattenNothing()
    ensures Flatten([]) == []
  {
  }

  lemma FlattenOne(l: Text)
    ensures Flatten([l]) == l
  {
    var one := [l];
    assert one[1..] == [];
  }

  /** Splitting a text whose end was replaced. */
  lemma SplitWithLastLine(init: seq<Text>, l: Text)
    requires SplitLines(Flatten(init)) == init && IsPhysical(l) && CleanCut(Flatten(init), l)
    ensures SplitLines(Flatten(init) + l) == init + [l]
  {
    SplitLinesAppend(Flatten(init), l);
    assert l[..|l|] == l && l[|l|..] == [];
    assert SplitLines(l) == [l];
  }

  lemma {:induction false} LineIsPhysical(body: Text, eol: Text)
    requires body + eol != [] && NoEol(body) && IsLineEnding(eol)
    ensures IsPhysical(body + eol)
  {
    var l := body + eol;
    if body == [] {
      assert l == eol;
    } else if |l| > 1 {
      assert l[1..] == body[1..] + eol;
      LineIsPhysical(body[1..], eol);
    }
  }

  lemma StripOfLine(body: Text, eol: Text)
    requires NoEol(body) && IsLineEnding(eol)
    ensures Strip(body + eol) == LStrip(body)
    ensures Continues(body + eol) <==> TrailingBackslashes(body) % 2 == 1
    ensures LStrip(body + eol) == LStrip(body) + eol
  {
    hide *;
    NoEolAfterLStrip(body);
    LStripAppend(body, eol);
    EolSurvivesLStrip(eol);
    var stripped := LStrip(body);
    assert stripped == [] ==> stripped + eol == eol;
    RStripOfLine(stripped, eol);
    StripIs(body + eol);
    LStripKeepsRun(body);
    ContinuedWithoutEol(stripped);
  }

  lemma StripIs(line: Text)
    ensures Strip(line) == RStripEol(LStrip(line)) && (Continues(line) <==> IsContinued(Strip(line)))
  {
    hide RStripEol, LStrip, IsContinued;
  }

  lemma EolSurvivesLStrip(eol: Text)
    requires IsLineEnding(eol)
    ensures LStrip(eol) == eol
  {
  }

  lemma RStripOfLine(body: Text, eol: Text)
    requires NoEol(body) && IsLineEnding(eol)
    ensures RStripEol(body + eol) == body
  {
    assert RStripEol(body) == body;
    assert eol == [] ==> body + eol == body;
    if eol != [] {
      var cut := (body + eol)[..|body + eol| - 1];
      assert cut == body + eol[..|eol| - 1];
      assert |eol| == 2 ==> eol[..1] == [CR] && cut[..|cut| - 1] == body;
      assert |eol| == 1 ==> cut == body;
    }
  }

  /** `CONTINUED_RGX` looks at the whole source but sees only its last physical line. */
  lemma ContinuedOfSource(s: Text, init: seq<Text>, body: Text, eol: Text)
    requires EndsInLine(s, init, body, eol)
    ensures IsContinued(s) <==> Continues(body + eol)
    ensures IsContinued(s) ==>
              body != [] && body[|body| - 1] == BACKSLASH && DropContinuation(s) == Flatten(init) + body[..|body| - 1]
    ensures EndsWithEol(s) <==> eol != []
  {
    hide SplitLines, Flatten, Continues;
    StripOfLine(body, eol);
    var p := Flatten(init);
    WithoutLastEol(p, body, eol);
    if p != [] {
      assert init != [] by { FlattenNothing(); }
      assert TrailingBackslashes(p) == 0;
    }
    TrailingBackslashesAppend(p, body);
    assert IsContinued(s) ==> (p + body)[..|p + body| - 1] == p + body[..|body| - 1];
  }

  lemma WithoutLastEol(p: Text, body: Text, eol: Text)
    requires NoEol(body) && IsLineEnding(eol) && CleanCut(p, body + eol) && body + eol != []
    ensures WithoutEol(p + (body + eol)) == p + body
    ensures EndsWithEol(p + (body + eol)) <==> eol != []
  {
    var s := p + (body + eol);
    assert s == p + body + eol;
    assert |s| > 1 && eol == [LF] && body != [] ==> s[|s| - 2] == body[|body| - 1];
    assert |s| > 1 && eol == [LF] && body == [] && p != [] ==> s[|s| - 2] == p[|p| - 1];
    assert EolLength(s) == |eol|;
  }

  // --- elements ---------------------------------------------------------

  /** The source ends in a backslash that would take in the next line. */
  predicate Open(e: Element) {
    !e.Comment? && IsContinued(e.source)
  }

  lemma SimpleElements(e: Element)
    requires Faithful(e)
    ensures e.source != []
    ensures var a := SplitLines(e.source);
            && (e.Comment? ==> IsCommentLine(a[0]))
            && (e.KeyValue? ==> !IsSimple(a[0]) && Join(a) != [])
            && (e.Whitespace? ==> IsSimple(a[0]) || Join(a) == [])
  {
    hide Join, Flatten, IsCommentLine, IsBlankLine, Unescape, SeparatorSearch, Span;
    FaithfulIsUnit(e);
  }

  lemma OpenIsOpenUnit(e: Element)
    requires Faithful(e)
    ensures var a := SplitLines(e.source); a != [] && (IsOpenUnit(a) ==> Open(e))
    ensures var a := SplitLines(e.source); Open(e) ==> Continues(a[|a| - 1]) && !IsSimple(a[0])
  {
    hide SplitLines, Faithful, IsContinued, Join, Flatten, Continues, IsCommentLine, IsBlankLine;
    SimpleElements(e);
    FaithfulIsUnit(e);
    var a := SplitLines(e.source);
    var init, body, eol := LastLineOf(e.source);
    ContinuedOfSource(e.source, init, body, eol);
    assert a[|a| - 1] == body + eol;
    if IsCommentLine(a[0]) {
      assert e.Comment?;
    } else if IsBlankLine(a[0]) {
      BlankDoesNotContinue(a[0]);
    }
  }

  lemma BlankDoesNotContinue(line: Text)
    requires IsBlankLine(line)
    ensures !Continues(line)
  {
    RStripOfLine([], LStrip(line));
    assert [] + LStrip(line) == LStrip(line);
    ContinuedWithoutEol([]);
  }

  /** Self-delimiting: an element that ends its line and is not open keeps to itself in front of any text that
      does not start with the other half of a CR LF. */
  lemma ElementThenText(e: Element, t: Text)
    requires Faithful(e) && !Open(e) && CleanCut(e.source, t)
    ensures Parse(e.source + t) == Prepend([e], Parse(t))
  {
    hide SplitLines, Faithful, Open, IsOpenUnit, IsUnit, FirstElement, ParseLines;
    FaithfulIsUnit(e);
    OpenIsOpenUnit(e);
    SplitLinesAppend(e.source, t);
    UnitThenMore(SplitLines(e.source), SplitLines(t));
  }

  /** Writing an LF behind a source that lacks one keeps the element, CR included. */
  lemma AppendLf(e: Element)
    requires Faithful(e) && e.source[|e.source| - 1..] != [LF]
    ensures var f := e.WithSource(e.source + [LF]);
            Faithful(f) && EndsWithEol(f.source) && (Open(f) <==> Open(e))
  {
    hide SplitLines, Faithful, IsContinued, FirstElement, IsUnit, Flatten, CleanCut, IsPhysical, Continues;
    SimpleElements(e);
    var init, body, eol := LastLineOf(e.source);
    var l, m := body + eol, body + (eol + [LF]);
    assert eol == [] || eol == [CR] by {
      assert e.source[|e.source| - 1..] == [l[|l| - 1]];
    }
    assert m == l + [LF];
    assert e.source + [LF] == Flatten(init) + m;
    LineBreakStaysClean(init, body, eol);
    SplitLinesReplaced(e.source, init, body, eol, body, eol + [LF]);
    StripOfLine(body, eol);
    StripOfLine(body, eol + [LF]);
    SameClass(body, eol, eol + [LF]);
    ReplaceLastLine(e, init, body, eol, body, eol + [LF]);
    ContinuedOfSource(e.source, init, body, eol);
    ContinuedOfSource(e.source + [LF], init, body, eol + [LF]);
  }

  lemma LineBreakStaysClean(init: seq<Text>, body: Text, eol: Text)
    requires CleanCut(Flatten(init), body + eol) && body + eol != [] && (eol == [] || eol == [CR])
    ensures CleanCut(Flatten(init), body + (eol + [LF])) && IsLineEnding(eol + [LF])
  {
    hide Flatten;
    assert (body + (eol + [LF]))[0] == (body + eol)[0];
  }

  lemma SplitLinesReplaced(s: Text, init: seq<Text>, body: Text, eol: Text, newBody: Text, newEol: Text)
    requires EndsInLine(s, init, body, eol)
    requires NoEol(newBody) && IsLineEnding(newEol) && newBody + newEol != []
    requires CleanCut(Flatten(init), newBody + newEol)
    ensures EndsInLine(Flatten(init) + (newBody + newEol), init, newBody, newEol)
  {
    hide SplitLines, Flatten, CleanCut, IsPhysical;
    LineIsPhysical(newBody, newEol);
    SplitWithLastLine(init, newBody + newEol);
  }

  /** The line ending plays no part in what kind of line it ends. */
  lemma SameClass(body: Text, eol: Text, newEol: Text)
    requires NoEol(body) && IsLineEnding(eol) && IsLineEnding(newEol)
    ensures IsCommentLine(body + eol) <==> IsCommentLine(body + newEol)
    ensures IsBlankLine(body + eol) <==> IsBlankLine(body + newEol)
    ensures IsBlankLine(body + eol) <==> LStrip(body) == []
  {
    hide LStrip, Strip, Continues, NoEol;
    StripOfLine(body, eol);
    StripOfLine(body, newEol);
    StartsWithText(body);
    assert LStrip(body) == [] ==> [] + eol == eol && [] + newEol == newEol;
  }

  lemma StartsWithText(body: Text)
    requires NoEol(body)
    ensures LStrip(body) != [] ==> !IsEol(LStrip(body)[0])
  {
    NoEolAfterLStrip(body);
  }

  lemma NoEolAfterLStrip(body: Text)
    requires NoEol(body)
    ensures NoEol(LStrip(body))
  {
    LStripShape(body);
  }

  lemma LogicalSource(line: Text, source: Text, newSource: Text)
    requires LogicalElement(line, source).Ok?
    ensures LogicalElement(line, newSource) == Ok(LogicalElement(line, source).value.WithSource(newSource))
  {
    hide SeparatorSearch, Unescape;
  }

  /** An element whose last line is replaced by one that adds the same to the logical line, and that the parser
      does not mistake for something else when it is also the first, stays the same element. */
  lemma ReplaceLastLine(e: Element, init: seq<Text>, body: Text, eol: Text, newBody: Text, newEol: Text)
    requires Faithful(e) && EndsInLine(e.source, init, body, eol)
    requires EndsInLine(Flatten(init) + (newBody + newEol), init, newBody, newEol)
    requires DropContinuation(Strip(body + eol)) == DropContinuation(Strip(newBody + newEol))
    requires init == [] ==> (IsCommentLine(body + eol) <==> IsCommentLine(newBody + newEol))
    requires init == [] ==> (IsBlankLine(body + eol) <==> IsBlankLine(newBody + newEol))
    ensures Faithful(e.WithSource(Flatten(init) + (newBody + newEol)))
  {
    hide SplitLines, Flatten, CleanCut, IsPhysical, IsCommentLine, IsBlankLine, LogicalElement, Strip, DropContinuation;
    hide Faithful, Span, Join, NoEol, Continues;
    var l, m := body + eol, newBody + newEol;
    var a, b := init + [l], init + [m];
    var f := e.WithSource(Flatten(init) + m);
    FaithfulIsUnit(e);
    assert init == [] ==> a[0] == l && b[0] == m;
    assert init != [] ==> a[0] == b[0] == init[0];
    if IsSimple(a[0]) {
      assert a == [l] && b == [m];
      FlattenOne(m);
      FlattenNothing();
      assert [] + m == m;
    } else {
      SwapLastLine(init, l, m);
      WholeSource(e.source, a);
      WholeSource(f.source, b);
      LogicalSource(Join(a), e.source, f.source);
    }
    UnitIsFaithful(f);
  }

  lemma WholeSource(s: Text, a: seq<Text>)
    requires SplitLines(s) == a && a != [] && Span(a) == |a|
    ensures Flatten(a[..Span(a)]) == s
  {
    SplitLinesLossless(s);
    assert a[..|a|] == a;
  }
}
