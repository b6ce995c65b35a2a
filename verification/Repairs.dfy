/** The repair of the last line: what it achieves, and the one shape of last line for which it does not. */
module Repairs {
  import opened Chars
  import opened Lines
  import opened Regexes
  import opened Reading
  import opened Documents
  import opened SelfDelimiting
  import opened Edits

  /** The continued last line of the entry is a lone backslash: chopping it leaves the line break of the line before,
      which the repair takes for a finished line although the line before is itself continued. */
  predicate Hollow(e: Element) {
    e.KeyValue? && IsContinued(e.source) && EndsWithEol(DropContinuation(e.source))
  }

  /** Chopping and stripping commute. */
  lemma ChopAfterLStrip(body: Text)
    requires NoEol(body) && TrailingBackslashes(body) % 2 == 1
    ensures body != []
    ensures var chop := body[..|body| - 1];
            && DropContinuation(LStrip(body)) == LStrip(chop)
            && TrailingBackslashes(chop) % 2 == 0 && NoEol(chop)
            && LStrip(body) == LStrip(chop) + [BACKSLASH]
  {
    var chop := body[..|body| - 1];
    var slash := [BACKSLASH];
    OddEndsInBackslash(body);
    assert body == chop + slash;
    LStripAppend(chop, slash);
    assert LStrip(slash) == slash;
    hide LStrip, TrailingBackslashes, NoEol;
    LStripKeepsRun(body);
    NoEolAfterLStrip(body);
    ContinuedWithoutEol(LStrip(body));
    assert LStrip(body) == LStrip(chop) + slash;
    assert (LStrip(chop) + slash)[..|LStrip(chop)|] == LStrip(chop);
  }

  lemma OddEndsInBackslash(body: Text)
    requires NoEol(body) && TrailingBackslashes(body) % 2 == 1
    ensures body != [] && body[|body| - 1] == BACKSLASH
    ensures var chop := body[..|body| - 1]; TrailingBackslashes(chop) % 2 == 0 && NoEol(chop)
  {
  }

  /** The chopped last line of an entry, ended by an LF. */
  lemma ChopTail(e: Element, init: seq<Text>, body: Text, eol: Text)
    requires Faithful(e) && e.KeyValue? && EndsInLine(e.source, init, body, eol)
    requires IsContinued(e.source) && body != [] && body[..|body| - 1] != []
    ensures var f := e.WithSource(Flatten(init) + (body[..|body| - 1] + [LF]));
            Faithful(f) && EndsWithEol(f.source) && !Open(f)
  {
    hide SplitLines, Flatten, CleanCut, Strip, LStrip, Faithful, Join, IsContinued, DropContinuation, Continues;
    hide TrailingBackslashes, NoEol;
    ContinuedOfSource(e.source, init, body, eol);
    StripOfLine(body, eol);
    ChopAfterLStrip(body);
    var chop := body[..|body| - 1];
    StripOfLine(chop, [LF]);
    ChopStaysClean(init, body, eol);
    SplitLinesReplaced(e.source, init, body, eol, chop, [LF]);
    DropOfUncontinued(chop);
    if init == [] {
      ChopKeepsClass(e, body, eol);
    }
    ReplaceLastLine(e, init, body, eol, chop, [LF]);
    ContinuedOfSource(Flatten(init) + (chop + [LF]), init, chop, [LF]);
  }

  lemma ChopStaysClean(init: seq<Text>, body: Text, eol: Text)
    requires CleanCut(Flatten(init), body + eol) && body != [] && body[..|body| - 1] != []
    ensures CleanCut(Flatten(init), body[..|body| - 1] + [LF])
  {
    hide Flatten;
    assert (body[..|body| - 1] + [LF])[0] == (body + eol)[0];
  }

  lemma DropOfUncontinued(chop: Text)
    requires NoEol(chop) && TrailingBackslashes(chop) % 2 == 0
    ensures DropContinuation(LStrip(chop)) == LStrip(chop)
  {
    NoEolAfterLStrip(chop);
    LStripKeepsRun(chop);
    ContinuedWithoutEol(LStrip(chop));
  }

  /** A single-line entry is not mistaken for a comment or a blank line once chopped. */
  lemma ChopKeepsClass(e: Element, body: Text, eol: Text)
    requires Faithful(e) && e.KeyValue? && EndsInLine(e.source, [], body, eol)
    requires NoEol(body) && TrailingBackslashes(body) % 2 == 1 && body != []
    ensures var chop := body[..|body| - 1];
            && !IsCommentLine(body + eol) && !IsCommentLine(chop + [LF])
            && !IsBlankLine(body + eol) && !IsBlankLine(chop + [LF])
  {
    hide SplitLines, Flatten, CleanCut, LStrip, Faithful, NoEol, DropContinuation;
    SimpleElements(e);
    StripOfLine(body, eol);
    ChopAfterLStrip(body);
    var chop := body[..|body| - 1];
    StripOfLine(chop, [LF]);
    SameClass(chop, [LF], [LF]);
    assert [body + eol] == SplitLines(e.source);
    assert Join([body + eol]) == DropContinuation(Strip(body + eol)) + [];
    assert LStrip(chop) != [];
  }

  /** The hollow case: the lone backslash goes and the line before it is now the last, still continued. */
  lemma DropHollowTail(e: Element, init: seq<Text>, body: Text, eol: Text)
    requires Faithful(e) && e.KeyValue? && EndsInLine(e.source, init, body, eol)
    requires IsContinued(e.source) && body == [BACKSLASH]
    ensures init != []
    ensures var f := e.WithSource(Flatten(init));
            Faithful(f) && EndsWithEol(f.source) && Open(f)
  {
    hide SplitLines, CleanCut, Flatten, Faithful, LStrip, NoEol, Continues, IsCommentLine, IsBlankLine, LogicalElement;
    hide Join, Span, IsContinued, DropContinuation, Strip;
    var l := body + eol;
    StripOfLine(body, eol);
    LoneBackslash();
    FaithfulIsUnit(e);
    SimpleElements(e);
    JoinOfOne(l);
    assert init == [] ==> init + [l] == [l];
    assert init != [] ==> (init + [l])[0] == init[0];
    DropLastLine(init, l);
    var f := e.WithSource(Flatten(init));
    WholeSource(f.source, init);
    WholeSource(e.source, init + [l]);
    LogicalSource(Join(init), e.source, f.source);
    UnitIsFaithful(f);
    LastIsContinued(init);
  }

  lemma LoneBackslash()
    ensures DropContinuation(LStrip([BACKSLASH])) == []
  {
    var b := [BACKSLASH];
    assert b[..1] == b && b[..0] == [];
    assert TrailingBackslashes(b) == 1;
    ContinuedWithoutEol(b);
  }

  lemma LastIsContinued(init: seq<Text>)
    requires init != [] && SplitLines(Flatten(init)) == init && Continues(init[|init| - 1])
    ensures IsContinued(Flatten(init))
  {
    hide Continues, IsContinued, CleanCut, Flatten, SplitLines;
    var s := Flatten(init);
    assert s != [] by { SplitNothing(); }
    var before, body, eol := LastLineOf(s);
    ContinuedOfSource(s, before, body, eol);
    assert init[|init| - 1] == body + eol;
  }

  lemma SplitNothing()
    ensures SplitLines([]) == []
  {
  }

  /** The repair always leaves a finished line that parses back to the same key and value, and that line is closed
      unless the element was a dangling blank or a hollow entry. */
  lemma RepairIsFaithful(e: Element)
    requires Faithful(e) && !Fresh(e)
    ensures var r := Repaired(e);
            && Faithful(r) && EndsWithEol(r.source)
            && (Open(r) <==> if e.KeyValue? then Hollow(e) else Open(e))
  {
    hide SplitLines, Faithful, CleanCut, Flatten, NoEol, Continues, IsContinued, DropContinuation, IsLineEnding;
    SimpleElements(e);
    if e.KeyValue? && IsContinued(e.source) {
      var init, body, eol := LastLineOf(e.source);
      ContinuedOfSource(e.source, init, body, eol);
      var chop := body[..|body| - 1];
      if chop == [] {
        assert body == [BACKSLASH];
        DropHollowTail(e, init, body, eol);
        assert Flatten(init) + [] == Flatten(init);
      } else {
        ChopTail(e, init, body, eol);
        ChopHasNoEol(Flatten(init), body);
        assert Flatten(init) + chop + [LF] == Flatten(init) + (chop + [LF]);
      }
    } else {
      NotContinuedIsKept(e);
      if !EndsWithEol(e.source) {
        AppendLf(e);
      }
    }
  }

  lemma ChopHasNoEol(p: Text, body: Text)
    requires NoEol(body) && body != [] && body[..|body| - 1] != []
    ensures !EndsWithEol(p + body[..|body| - 1])
  {
  }

  lemma NotContinuedIsKept(e: Element)
    ensures !IsContinued(e.source) ==> DropContinuation(e.source) == e.source
    ensures e.WithSource(e.source) == e
  {
  }
}
