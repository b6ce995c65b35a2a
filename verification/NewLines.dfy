/** A freshly printed line behind other text: by itself, behind a dangling blank, and behind an entry that is still
    continued. */
module NewLines {
  import opened Wrappers
  import opened Chars
  import opened Lines
  import opened Regexes
  import opened Reading
  import opened Writing
  import opened EscapeLaws
  import opened JoinLaws
  import opened Documents
  import opened SelfDelimiting

  lemma PrintableHasNoEol(s: Text)
    requires Printable(s)
    ensures NoEol(s)
  {
  }

  /** A printed line is one physical line, neither comment nor blank, and not continued. */
  lemma PrintedLine(line: Text)
    requires Balanced(line) && StartsBare(line)
    ensures NoEol(line) && IsPhysical(line + [LF]) && SplitLines(line + [LF]) == [line + [LF]]
    ensures !IsSimple(line + [LF]) && !Continues(line + [LF])
    ensures Strip(line + [LF]) == line && DropContinuation(line) == line
  {
    hide TrailingBackslashes, RStripEol, IsContinued, DropContinuation, FirstLineLength, Flatten;
    PrintableHasNoEol(line);
    LineIsPhysical(line, [LF]);
    StripOfLine(line, [LF]);
    ContinuedWithoutEol(line);
    var l := line + [LF];
    FlattenNothing();
    SplitWithLastLine([], l);
    assert [] + l == l && [] + [l] == [l];
  }

  /** The element a printed line parses to, for every key and value. */
  function PrintedElement(key: Text, value: Text, ensureAscii: bool): Element {
    KeyValue(Pair(key), Pair(value), JoinKeyValue(key, value, ensureAscii) + [LF])
  }

  /** Printer and parser are inverse up to pairing: the printed line parses to exactly one element. */
  lemma PrintedIsFaithful(key: Text, value: Text, ensureAscii: bool)
    ensures var e := PrintedElement(key, value, ensureAscii);
            Faithful(e) && EndsWithEol(e.source) && !Open(e)
  {
    hide JoinKeyValue, Pair, Balanced, StartsBare, IsContinued, IsSimple, Faithful, Continues, LogicalElement;
    hide Strip, DropContinuation, NoEol, IsPhysical, SplitLines, Flatten;
    var line := JoinKeyValue(key, value, ensureAscii);
    var e := PrintedElement(key, value, ensureAscii);
    JoinShape(key, value, ensureAscii);
    PrintedLine(line);
    var a := [line + [LF]];
    JoinOfOne(line + [LF]);
    WholeSource(e.source, a);
    SimpleOrNot(a[0]);
    JoinElement(key, value, ensureAscii, e.source);
    UnitIsFaithful(e);
    OpenIsOpenUnit(e);
  }

  lemma SimpleOrNot(line: Text)
    ensures IsSimple(line) <==> IsCommentLine(line) || IsBlankLine(line)
  {
  }

  /** What an open element and the printed line behind it parse to together. */
  function Swallowed(e: Element, key: Text, value: Text, ensureAscii: bool): Parsed<Element>
    requires SplitLines(e.source) != []
  {
    var line := JoinKeyValue(key, value, ensureAscii);
    LogicalElement(Join(SplitLines(e.source)) + line, e.source + (line + [LF]))
  }

  lemma OpenThenLine(e: Element, key: Text, value: Text, ensureAscii: bool, t: Text)
    requires Faithful(e) && Open(e) && EndsWithEol(e.source)
    ensures SplitLines(e.source) != []
    ensures Parse(e.source + (JoinKeyValue(key, value, ensureAscii) + [LF] + t))
         == match Swallowed(e, key, value, ensureAscii)
            case Err(x) => Err(x)
            case Ok(x) => Prepend([x], Parse(t))
  {
    hide JoinKeyValue, Balanced, IsContinued, IsSimple, Faithful, Continues, LogicalElement, Join, ParseLines;
    hide Strip, DropContinuation, NoEol, IsPhysical, SplitLines, Flatten, IsCommentLine, IsBlankLine, Span;
    var line := JoinKeyValue(key, value, ensureAscii);
    var l := line + [LF];
    JoinShape(key, value, ensureAscii);
    PrintedLine(line);
    OpenIsOpenUnit(e);
    FaithfulIsUnit(e);
    SimpleOrNot(SplitLines(e.source)[0]);
    var a, b, c := SplitLines(e.source), [l], SplitLines(t);
    SplitLinesAppend(l, t);
    assert (l + t)[0] == line[0];
    SplitLinesAppend(e.source, l + t);
    OneLineSpan(l, c, line);
    SpanAppend(a, b + c);
    var all := a + (b + c);
    assert all[..|a| + 1] == a + b && all[|a| + 1..] == c;
    FlattenAppend(a, b);
    FlattenOne(l);
    SplitLinesLossless(e.source);
    ParseUnfold(all);
  }

  lemma OneLineSpan(l: Text, c: seq<Text>, line: Text)
    requires !Continues(l) && Strip(l) == line && DropContinuation(line) == line
    ensures Span([l] + c) == 1 && Join([l] + c) == line
  {
    assert ([l] + c)[0] == l;
  }

  /** Behind a dangling blank the line reads as if it stood alone. */
  lemma BlankThenLine(e: Element, key: Text, value: Text, ensureAscii: bool, t: Text)
    requires Faithful(e) && e.Whitespace? && Open(e) && EndsWithEol(e.source)
    ensures var line := JoinKeyValue(key, value, ensureAscii) + [LF];
            Parse(e.source + (line + t)) == Prepend([KeyValue(Pair(key), Pair(value), e.source + line)], Parse(t))
  {
    hide JoinKeyValue, Pair, IsContinued, Faithful, LogicalElement, SplitLines, ParseLines, Join, Continues, IsSimple;
    var line := JoinKeyValue(key, value, ensureAscii);
    OpenThenLine(e, key, value, ensureAscii, t);
    SimpleElements(e);
    OpenIsOpenUnit(e);
    assert [] + line == line;
    JoinElement(key, value, ensureAscii, e.source + (line + [LF]));
  }

  // --- behind an entry that is still continued --------------------------

  /** The logical line of an entry: not empty, no line ending, no backslash left over once the parser chopped it. */
  lemma {:induction false} JoinIsEven(lines: seq<Text>)
    requires lines != [] && forall i :: 0 <= i < |lines| ==> IsPhysical(lines[i])
    ensures NoEol(Join(lines)) && TrailingBackslashes(Join(lines)) % 2 == 0
  {
    hide Strip, DropContinuation, TrailingBackslashes, IsPhysical, Continues;
    StripHasNoEol(lines[0]);
    ChoppedIsEven(Strip(lines[0]));
    var head := DropContinuation(Strip(lines[0]));
    if Continues(lines[0]) && |lines| > 1 {
      JoinIsEven(lines[1..]);
      ParityOfAppend(head, Join(lines[1..]));
    } else {
      assert head + [] == head;
    }
  }

  /** An unescaped separator of the first part is the first one of the whole. */
  lemma SeparatorOfAppend(a: Text, b: Text)
    requires TrailingBackslashes(a) % 2 == 0
    ensures var m, n := SeparatorSearch(a, 0), SeparatorSearch(a + b, 0);
            if m.Some? then n.Some? && n.value.keyEnd == m.value.keyEnd
            else forall k: nat :: KeyEnds(a + b, k) ==> |a| <= k && KeyEnds(b, k - |a|)
  {
    hide SeparatorSearch, TrailingBackslashes;
    SeparatorIsFirstUnescaped(a);
    SeparatorIsFirstUnescaped(a + b);
    if SeparatorSearch(a, 0).Some? {
      var k := SeparatorSearch(a, 0).value.keyEnd;
      KeyEndsInPrefix(a, b, k);
      var n := SeparatorSearch(a + b, 0).value.keyEnd;
      KeyEndsInPrefix(a, b, n);
    } else {
      forall k: nat | KeyEnds(a + b, k)
        ensures |a| <= k && KeyEnds(b, k - |a|)
      {
        KeyEndsInPrefix(a, b, k);
        if |a| <= k {
          assert (a + b)[..k] == a + b[..k - |a|];
          ParityOfAppend(a, b[..k - |a|]);
        }
      }
    }
  }

  lemma KeyEndsInPrefix(a: Text, b: Text, k: nat)
    ensures k < |a| ==> (KeyEnds(a + b, k) <==> KeyEnds(a, k))
  {
    if k < |a| {
      assert (a + b)[..k] == a[..k];
    }
  }

  /** A line that swallows a printed one keeps its own key, or reads a key longer than the swallowed one. */
  lemma SwallowedKey(a: Text, source: Text, key: Text, value: Text, ensureAscii: bool, newSource: Text)
    requires a != [] && NoEol(a) && TrailingBackslashes(a) % 2 == 0
    requires LogicalElement(a, source).Ok?
    requires LogicalElement(a + JoinKeyValue(key, value, ensureAscii), newSource).Ok?
    ensures var e := LogicalElement(a, source).value;
            var f := LogicalElement(a + JoinKeyValue(key, value, ensureAscii), newSource).value;
            f.KeyValue? && (f.key == e.key || Utf16Length(f.key) > Utf16Length(key))
  {
    hide SeparatorSearch, TrailingBackslashes, JoinKeyValue, Unescape, NoEol, Utf16Length;
    var line := JoinKeyValue(key, value, ensureAscii);
    var all := a + line;
    var k := Escape(key, ensureAscii);
    SeparatorOfAppend(a, line);
    SeparatorIsFirstUnescaped(all);
    SeparatorIsFirstUnescaped(a);
    SeparatorBounds(a);
    if SeparatorSearch(a, 0).Some? {
      var n := SeparatorSearch(a, 0).value.keyEnd;
      assert all[..n] == a[..n];
    } else {
      JoinSeparates(key, value, ensureAscii);
      SeparatorIsFirstUnescaped(line);
      var m := SeparatorSearch(line, 0).value;
      KeyEndsBehind(a, line, |k|);
      var n := SeparatorSearch(all, 0).value.keyEnd;
      assert n == |a| + |k|;
      JoinStartsWithKey(key, value, ensureAscii);
      assert all[..n] == a + k;
      LongerKey(a, key, ensureAscii);
    }
  }

  lemma KeyEndsBehind(a: Text, b: Text, k: nat)
    requires TrailingBackslashes(a) % 2 == 0 && KeyEnds(b, k)
    ensures KeyEnds(a + b, |a| + k)
  {
    hide TrailingBackslashes;
    assert (a + b)[..|a| + k] == a + b[..k];
    ParityOfAppend(a, b[..k]);
  }

  lemma JoinStartsWithKey(key: Text, value: Text, ensureAscii: bool)
    ensures var k := Escape(key, ensureAscii); k <= JoinKeyValue(key, value, ensureAscii)
  {
    hide Escape, EscapeValue;
  }

  /** Text in front of an escaped key decodes to a strictly longer key. */
  lemma LongerKey(a: Text, key: Text, ensureAscii: bool)
    requires a != [] && NoEol(a) && TrailingBackslashes(a) % 2 == 0 && Unescape(a).Ok?
    ensures var r := Unescape(a + Escape(key, ensureAscii));
            r.Ok? && Utf16Length(r.value) > Utf16Length(key)
  {
    hide UnescapeRaw, Escape, TrailingBackslashes, NoEol, Pair, Utf16Length, Expand;
    UnescapeRawAppend(a, Escape(key, ensureAscii));
    UnescapeRawEscape(key, ensureAscii);
    var raw := UnescapeRaw(a).value;
    var x := Expand(key, ensureAscii);
    PairKeepsUtf16Length(raw + x);
    Utf16LengthAppend(raw, x);
    PairAfterExpand(key, ensureAscii);
    PairKeepsUtf16Length(x);
    PairKeepsUtf16Length(key);
    SomethingDecodesToSomething(a);
    NonEmptyHasLength(raw);
  }

  lemma SomethingDecodesToSomething(a: Text)
    requires a != [] && UnescapeRaw(a).Ok?
    ensures UnescapeRaw(a).value != []
  {
  }

  lemma NonEmptyHasLength(s: Text)
    requires s != []
    ensures Utf16Length(s) > 0
  {
  }
}
