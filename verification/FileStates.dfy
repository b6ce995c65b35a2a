/** The states a file can be in after a load and any edits, and exactly when such a state survives being dumped and
    reparsed. */
module FileStates {
  import opened Wrappers
  import opened Chars
  import opened Lines
  import opened Regexes
  import opened Reading
  import opened Writing
  import opened Documents
  import opened SelfDelimiting
  import opened Edits
  import opened Repairs

  /** How an element fits in front of the rest of the file: a kept one parses to itself and ends its line unless it
      ends the file; behind an open one only fresh entries stand; a fresh entry is its key's only one. */
  predicate Fits(e: Element, more: seq<Element>) {
    && (!Fresh(e) ==> Faithful(e) && (more != [] ==> EndsWithEol(e.source)))
    && (!Fresh(e) && Open(e) ==> forall x :: x in more ==> Fresh(x))
    && (Fresh(e) ==> forall x :: x in more ==> !IsKey(x, e.key))
    && (e.KeyValue? ==> forall x :: x in more && Fresh(x) ==> x.key != e.key)
  }

  /** What holds of every state of a file. */
  predicate Sound(es: seq<Element>) {
    es != [] ==> Fits(es[0], es[1..]) && Sound(es[1..])
  }

  // --- what a parse yields ----------------------------------------------

  lemma {:induction false} ParsedIsSound(text: Text, es: seq<Element>)
    requires Parse(text) == Ok(es)
    ensures Sound(es) && (forall i :: 0 <= i < |es| ==> !Fresh(es[i]))
    ensures forall i :: 0 <= i < |es| - 1 ==> !Open(es[i])
    ensures Render(es, true) == text && Render(es, false) == text
    decreases |text|
  {
    hide Open, Faithful, ParseLines, FirstElement, FirstCount, SplitLines, Flatten, JoinKeyValue, EndsWithEol;
    var lines := SplitLines(text);
    SplitLinesLossless(text);
    if text == [] {
      SplitNothing();
      ParseNothing();
    } else {
      SomethingSplits(text);
      ParseUnfold(lines);
      var rest := FirstElementOf(text);
      var e := FirstElement(lines).value;
      ParsedIsSound(rest, ParseLines(SplitLines(rest)).value);
      var more := ParseLines(SplitLines(rest)).value;
      assert es == [e] + more;
      assert es[1..] == more;
      SplitNothing();
      ParseNothing();
      if more == [] {
        OnlyNothingParsesToNothing(SplitLines(rest));
        SplitLinesLossless(rest);
        FlattenNothing();
      }
      SimpleElements(e);
      SoundCons(e, more);
    }
  }

  lemma SomethingSplits(text: Text)
    requires text != []
    ensures SplitLines(text) != []
  {
  }

  /** The first element of a document stands on its own, and what follows it is a document. */
  lemma FirstElementOf(text: Text) returns (rest: Text)
    requires text != [] && SplitLines(text) != [] && FirstElement(SplitLines(text)).Ok?
    ensures |rest| < |text|
    ensures var lines := SplitLines(text);
            var e := FirstElement(lines).value;
            && Faithful(e) && text == e.source + rest
            && SplitLines(rest) == lines[FirstCount(lines)..]
            && (rest != [] ==> EndsWithEol(e.source) && !Open(e) && CleanCut(e.source, rest))
  {
    hide Open, Faithful, ParseLines, SplitLines, Flatten, EndsWithEol, Join, LogicalElement, IsCommentLine,
         IsBlankLine, Span;
    hide CleanCut, Continues, IsContinued;
    var lines := SplitLines(text);
    var n := FirstCount(lines);
    var a := lines[..n];
    var e := FirstElement(lines).value;
    FirstElementSource(lines);
    SplitLinesOfPrefix(text, n);
    SplitLinesOfSuffix(text, n);
    SplitLinesLossless(text);
    rest := Flatten(lines[n..]);
    FlattenAppend(a, lines[n..]);
    assert a + lines[n..] == lines;
    FirstOfPrefix(lines);
    UnitIsFaithful(e);
    SimpleElements(e);
    if rest != [] {
      assert n < |lines| by { FlattenNothing(); }
      CleanBoundary(text, n);
      OpenIsOpenUnit(e);
    }
  }

  lemma FirstOfPrefix(lines: seq<Text>)
    requires lines != [] && FirstElement(lines).Ok?
    ensures var a := lines[..FirstCount(lines)];
            && IsUnit(a) && FirstElement(a) == FirstElement(lines)
            && (|a| < |lines| ==> IsSimple(a[0]) || !Continues(a[|a| - 1]))
  {
    hide Flatten, Join, LogicalElement, IsCommentLine, IsBlankLine, Span, Continues;
    var a := lines[..FirstCount(lines)];
    if !IsSimple(lines[0]) {
      SpanOfPrefix(lines);
      assert a[..|a|] == a;
    }
  }

  lemma SoundCons(e: Element, more: seq<Element>)
    requires Faithful(e) && !Fresh(e) && Sound(more) && forall i :: 0 <= i < |more| ==> !Fresh(more[i])
    requires more != [] ==> EndsWithEol(e.source) && !Open(e)
    ensures Sound([e] + more)
  {
    hide Open, Faithful, EndsWithEol;
    assert ([e] + more)[1..] == more;
  }

  // --- edits keep a state sound -----------------------------------------

  lemma {:induction false} DeletedMembers(es: seq<Element>, k: Text, x: Element)
    ensures x in Deleted(es, k) <==> x in es && !IsKey(x, k)
  {
    if es != [] {
      DeletedMembers(es[1..], k, x);
    }
  }

  lemma {:induction false} ReassignedMembers(es: seq<Element>, k: Text, v: Text, x: Element)
    ensures x in Reassigned(es, k, v) <==> (x in es && !IsKey(x, k)) || (HasEntry(es, k) && x == KeyValue(k, v, []))
  {
    if es != [] {
      HasEntryCons(es, k);
      if IsKey(es[0], k) {
        DeletedMembers(es[1..], k, x);
      } else {
        ReassignedMembers(es[1..], k, v, x);
      }
    }
  }

  lemma {:induction false} DeletedIsSound(es: seq<Element>, k: Text)
    requires Sound(es)
    ensures Sound(Deleted(es, k))
  {
    hide Open, Faithful, EndsWithEol;
    if es != [] {
      var less := Deleted(es[1..], k);
      DeletedIsSound(es[1..], k);
      if !IsKey(es[0], k) {
        forall x | x in less
          ensures x in es[1..]
        {
          DeletedMembers(es[1..], k, x);
        }
        FitsFewer(es[0], es[1..], less);
        ConsIsSound(es[0], less);
      } else {
        assert [] + less == less;
      }
    }
  }

  lemma ConsIsSound(e: Element, more: seq<Element>)
    requires Fits(e, more) && Sound(more)
    ensures Sound([e] + more)
  {
    hide Fits;
    assert ([e] + more)[1..] == more;
  }

  lemma FitsFewer(e: Element, more: seq<Element>, less: seq<Element>)
    requires Fits(e, more) && forall x :: x in less ==> x in more
    ensures Fits(e, less)
  {
    hide Open, Faithful, EndsWithEol;
    assert less != [] ==> less[0] in less;
  }

  lemma {:induction false} ReassignedIsSound(es: seq<Element>, k: Text, v: Text)
    requires Sound(es)
    ensures Sound(Reassigned(es, k, v))
  {
    hide Open, Faithful, EndsWithEol;
    if es != [] {
      var e, rest := es[0], es[1..];
      if IsKey(e, k) {
        var less := Deleted(rest, k);
        DeletedIsSound(rest, k);
        forall x | x in less
          ensures !IsKey(x, k)
        {
          DeletedMembers(rest, k, x);
        }
        assert ([KeyValue(k, v, [])] + less)[1..] == less;
      } else {
        var less := Reassigned(rest, k, v);
        ReassignedIsSound(rest, k, v);
        forall x | x in less
          ensures x in rest || x == KeyValue(k, v, [])
        {
          ReassignedMembers(rest, k, v, x);
        }
        assert Fits(e, less);
        hide Fits, Reassigned;
        ConsIsSound(e, less);
      }
    }
  }

  lemma {:induction false} AppendedIsSound(es: seq<Element>, k: Text, v: Text)
    requires Sound(es) && !HasEntry(es, k)
    ensures Sound(Appended(es, k, v))
  {
    hide Open, Faithful, EndsWithEol, Repaired, Hollow;
    var f := KeyValue(k, v, []);
    if es == [] {
      FreshIsSound(f);
      assert [] + [f] == [f];
    } else {
      var e, rest := es[0], es[1..];
      HasEntryCons(es, k);
      if rest == [] {
        RepairedKeepsKey(e);
        if !Fresh(e) {
          RepairIsFaithful(e);
        }
        FreshIsSound(f);
        assert es[..0] + [Repaired(e)] + [f] == [Repaired(e), f];
        assert [Repaired(e), f][1..] == [f];
      } else {
        AppendedIsSound(rest, k, v);
        AppendedCons(es, k, v);
        FitsAppended(e, rest, k, v);
        hide Fits, Appended;
        assert ([e] + Appended(rest, k, v))[1..] == Appended(rest, k, v);
      }
    }
  }

  /** What an appended file holds: elements it held, the last of them perhaps repaired, and the new entry. */
  lemma AppendedMembers(es: seq<Element>, k: Text, v: Text, x: Element) returns (y: Element)
    requires es != [] && x in Appended(es, k, v) && x != KeyValue(k, v, [])
    ensures y in es && (x == y || x == Repaired(y))
  {
    hide Repaired;
    var last := es[|es| - 1];
    y := if x == Repaired(last) then last else x;
  }

  lemma FitsAppended(e: Element, rest: seq<Element>, k: Text, v: Text)
    requires rest != [] && Fits(e, rest) && !IsKey(e, k)
    ensures Fits(e, Appended(rest, k, v))
  {
    hide Open, Faithful, EndsWithEol, Repaired, Appended;
    forall x | x in Appended(rest, k, v)
      ensures !Fresh(e) && Open(e) ==> Fresh(x)
      ensures Fresh(e) ==> !IsKey(x, e.key)
      ensures e.KeyValue? && Fresh(x) ==> x.key != e.key
    {
      if x != KeyValue(k, v, []) {
        var y := AppendedMembers(rest, k, v, x);
        RepairedKeepsKey(y);
      }
    }
  }

  lemma AppendedCons(es: seq<Element>, k: Text, v: Text)
    requires |es| > 1
    ensures Appended(es, k, v) == [es[0]] + Appended(es[1..], k, v)
  {
    hide Repaired;
    assert es[..|es| - 1] == [es[0]] + es[1..][..|es| - 2];
  }

  lemma FreshIsSound(f: Element)
    requires Fresh(f)
    ensures Sound([f])
  {
    assert [f][1..] == [];
  }

  /** The repair leaves fresh entries alone and keeps every element's kind and key. */
  lemma RepairedKeepsKey(e: Element)
    ensures Fresh(e) ==> Repaired(e) == e
    ensures e.KeyValue? <==> Repaired(e).KeyValue?
    ensures e.KeyValue? ==> Repaired(e).key == e.key && Repaired(e).value == e.value
    ensures !Fresh(e) ==> !Fresh(Repaired(e))
  {
    hide DropContinuation;
  }

  lemma AssignedIsSound(es: seq<Element>, k: Text, v: Text)
    requires Sound(es)
    ensures Sound(Assigned(es, k, v))
  {
    hide Sound, HasEntry, Reassigned, Appended;
    if HasEntry(es, k) {
      ReassignedIsSound(es, k, v);
    } else {
      AppendedIsSound(es, k, v);
    }
  }
}
