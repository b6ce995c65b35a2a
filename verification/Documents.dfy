/** How documents are put together: which texts parse on their own, and what one element's text does in front of
    another's. */
module Documents {
  import opened Sequences
  import opened Wrappers
  import opened Chars
  import opened Lines
  import opened Regexes
  import opened Reading

  // --- one element at a time --------------------------------------------

  predicate IsSimple(line: Text) {
    IsCommentLine(line) || IsBlankLine(line)
  }

  /** How many lines the first element of a document takes. */
  function FirstCount(lines: seq<Text>): (n: nat)
    requires lines != []
    ensures 0 < n <= |lines|
  {
    if IsSimple(lines[0]) then 1 else Span(lines)
  }

  function FirstElement(lines: seq<Text>): Parsed<Element>
    requires lines != []
  {
    if IsCommentLine(lines[0]) then Ok(Comment(lines[0]))
    else if IsBlankLine(lines[0]) then Ok(Whitespace(lines[0]))
    else LogicalElement(Join(lines), Flatten(lines[..Span(lines)]))
  }

  lemma ParseUnfold(lines: seq<Text>)
    requires lines != []
    ensures ParseLines(lines)
         == match FirstElement(lines)
            case Err(e) => Err(e)
            case Ok(e) => Prepend([e], ParseLines(lines[FirstCount(lines)..]))
  {
    hide LogicalElement, IsCommentLine, IsBlankLine, Join, Span, Flatten;
  }

  lemma FirstElementSource(lines: seq<Text>)
    requires lines != [] && FirstElement(lines).Ok?
    ensures FirstElement(lines).value.source == Flatten(lines[..FirstCount(lines)])
  {
    hide SeparatorSearch, Unescape, IsCommentLine, IsBlankLine, Join, Span;
    assert lines[..1] == [lines[0]] && lines[..1][1..] == [];
    assert Flatten(lines[..1]) == lines[0] + Flatten(lines[..1][1..]);
  }

  /** The lines of exactly one element. */
  predicate IsUnit(a: seq<Text>) {
    a != [] && FirstCount(a) == |a|
  }

  /** A unit that would take in a line put after it. */
  predicate IsOpenUnit(a: seq<Text>)
    requires a != []
  {
    !IsSimple(a[0]) && Continues(a[|a| - 1])
  }

  lemma {:induction false} SpanOfPrefix(lines: seq<Text>)
    requires lines != []
    ensures var a := lines[..Span(lines)];
            Span(a) == |a| && Join(a) == Join(lines)
            && (|a| < |lines| ==> !Continues(a[|a| - 1]))
  {
    hide Continues, DropContinuation, Strip;
    var a := lines[..Span(lines)];
    if Continues(lines[0]) && |lines| > 1 {
      SpanOfPrefix(lines[1..]);
      assert a[1..] == lines[1..][..Span(lines[1..])];
    }
  }

  /** More lines after a closed logical line leave it alone; after an open one they join it. */
  lemma {:induction false} SpanAppend(a: seq<Text>, b: seq<Text>)
    requires a != [] && b != [] && Span(a) == |a|
    ensures var open := Continues(a[|a| - 1]);
            && Span(a + b) == |a| + (if open then Span(b) else 0)
            && Join(a + b) == Join(a) + (if open then Join(b) else [])
  {
    hide Continues, DropContinuation, Strip;
    if |a| == 1 {
      assert (a + b)[1..] == b;
    } else {
      assert (a + b)[1..] == a[1..] + b;
      SpanAppend(a[1..], b);
      Associates(DropContinuation(Strip(a[0])), Join(a[1..]), if Continues(a[|a| - 1]) then Join(b) else []);
    }
  }

  /** The last line of a logical line counts only through what is left of it once stripped and chopped. */
  lemma {:induction false} SwapLastLine(init: seq<Text>, l: Text, m: Text)
    requires Span(init + [l]) == |init| + 1
    requires DropContinuation(Strip(l)) == DropContinuation(Strip(m))
    ensures Span(init + [m]) == |init| + 1 && Join(init + [l]) == Join(init + [m])
  {
    hide Continues, DropContinuation, Strip;
    if init == [] {
      assert [] + [l] == [l] && [] + [m] == [m];
    } else {
      assert (init + [l])[1..] == init[1..] + [l] && (init + [m])[1..] == init[1..] + [m];
      SwapLastLine(init[1..], l, m);
    }
  }

  lemma JoinOfOne(l: Text)
    ensures Join([l]) == DropContinuation(Strip(l))
  {
    hide DropContinuation, Strip;
  }

  /** Dropping a last line that adds nothing leaves the logical line as it was. */
  lemma {:induction false} DropLastLine(init: seq<Text>, l: Text)
    requires init != [] && Span(init + [l]) == |init| + 1
    requires DropContinuation(Strip(l)) == []
    ensures Span(init) == |init| && Join(init) == Join(init + [l]) && Continues(init[|init| - 1])
  {
    hide Continues, DropContinuation, Strip;
    assert (init + [l])[1..] == init[1..] + [l];
    if |init| == 1 {
      assert init[1..] + [l] == [l];
    } else {
      DropLastLine(init[1..], l);
    }
  }

  // --- units and the text after them ------------------------------------

  lemma UnitThenMore(a: seq<Text>, b: seq<Text>)
    requires IsUnit(a) && FirstElement(a).Ok? && (!IsOpenUnit(a) || b == [])
    ensures ParseLines(a + b) == Prepend([FirstElement(a).value], ParseLines(b))
  {
    hide LogicalElement, IsCommentLine, IsBlankLine, Flatten, Join, Span, Continues, ParseLines;
    var ab := a + b;
    if b == [] {
      assert ab == a;
      assert a[|a|..] == b;
    } else {
      if !IsSimple(a[0]) {
        SpanAppend(a, b);
        assert Join(a) + [] == Join(a);
      }
      assert ab[..|a|] == a && a[..|a|] == a;
      assert ab[|a|..] == b;
    }
    ParseUnfold(ab);
  }

  /** The element stands on its own: its source parses to it and to nothing else. */
  predicate Faithful(e: Element) {
    Parse(e.source) == Ok([e])
  }

  lemma FaithfulIsUnit(e: Element)
    requires Faithful(e)
    ensures var a := SplitLines(e.source); IsUnit(a) && FirstElement(a) == Ok(e)
  {
    hide LogicalElement, IsCommentLine, IsBlankLine, Flatten, Join, Span, FirstElement, FirstCount, ParseLines,
         SplitLines;
    var a := SplitLines(e.source);
    ParseNothing();
    ParseUnfold(a);
    var rest := a[FirstCount(a)..];
    assert ParseLines(rest) == Ok([]) by {
      assert ([FirstElement(a).value] + ParseLines(rest).value)[1..] == ParseLines(rest).value;
    }
    OnlyNothingParsesToNothing(rest);
    assert ([FirstElement(a).value] + [])[0] == e;
  }

  lemma OnlyNothingParsesToNothing(lines: seq<Text>)
    requires ParseLines(lines) == Ok([])
    ensures lines == []
  {
    hide LogicalElement, FirstElement, ParseLines;
    if lines != [] {
      ParseUnfold(lines);
    }
  }

  lemma UnitIsFaithful(e: Element)
    requires var a := SplitLines(e.source); IsUnit(a) && FirstElement(a) == Ok(e)
    ensures Faithful(e)
  {
    hide FirstElement, FirstCount, ParseLines, SplitLines;
    var a := SplitLines(e.source);
    assert a + [] == a;
    UnitThenMore(a, []);
    ParseNothing();
    assert [e] + [] == [e];
  }
}
