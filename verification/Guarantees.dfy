/** Consequences for callers: what the repair achieves, which inputs are safe for every run, and when merging twice
    is merging once. */
module Guarantees {
  import opened Wrappers
  import opened Chars
  import opened Lines
  import opened Regexes
  import opened OrderedDicts
  import opened Reading
  import opened Writing
  import opened EscapeLaws
  import opened JoinLaws
  import opened Documents
  import opened SelfDelimiting
  import opened Edits
  import opened Repairs
  import opened NewLines
  import opened FileStates
  import opened Reparse
  import opened Runs
  import opened Sysprops

  // --- the repair -------------------------------------------------------

  /** `e` keeps to itself in front of every text that does not complete a CR LF with it. */
  ghost predicate SelfDelimited(e: Element) {
    forall t :: CleanCut(e.source, t) ==> Parse(e.source + t) == Prepend([e], Parse(t))
  }

  /** The repaired last line of a file reads back as the same entry, and it delimits itself if and only if the entry
      did not end in a lone continued backslash. */
  lemma RepairDelimitsIff(e: Element)
    requires Faithful(e) && e.KeyValue?
    ensures var r := Repaired(e);
            && Faithful(r) && r.key == e.key && r.value == e.value && EndsWithEol(r.source)
            && (SelfDelimited(r) <==> !Hollow(e))
  {
    hide Faithful, Open, Hollow, Parse, CleanCut, Repaired, SelfDelimited;
    SimpleElements(e);
    RepairIsFaithful(e);
    RepairedKeepsKey(e);
    var r := Repaired(e);
    if Hollow(e) {
      OpenIsNotDelimited(r);
    } else {
      ClosedIsDelimited(r);
    }
  }

  lemma ClosedIsDelimited(e: Element)
    requires Faithful(e) && !Open(e)
    ensures SelfDelimited(e)
  {
    hide Faithful, Open, Parse, CleanCut;
    forall t | CleanCut(e.source, t)
      ensures Parse(e.source + t) == Prepend([e], Parse(t))
    {
      ElementThenText(e, t);
    }
  }

  lemma OpenIsNotDelimited(e: Element)
    requires Faithful(e) && Open(e) && EndsWithEol(e.source)
    ensures !SelfDelimited(e)
  {
    hide Open, Parse, JoinKeyValue, Swallowed, Pair;
    var line := JoinKeyValue([], [], true);
    var t := line + [LF];
    JoinShape([], [], true);
    assert t[0] == line[0];
    assert CleanCut(e.source, t);
    assert t + [] == t;
    OpenThenLine(e, [], [], true, []);
    PrintedIsFaithful([], [], true);
    NothingParsesToNothing();
    assert |Prepend([e], Parse(t)).value| == 2;
  }

  lemma NothingParsesToNothing()
    ensures Parse([]) == Ok([])
  {
    SplitNothing();
    ParseNothing();
  }

  // --- an input for which the promise fails -------------------------------

  /** The text `a=b\`, a line break, `\`: one entry, and a hollow one. */
  function HollowInput(): Text {
    [0x61, EQUALS, 0x62, BACKSLASH, LF, BACKSLASH]
  }

  lemma HollowInputLines()
    ensures SplitLines(HollowInput()) == [[0x61, EQUALS, 0x62, BACKSLASH, LF], [BACKSLASH]]
  {
    var s := HollowInput();
    var a, b := [0x61, EQUALS, 0x62, BACKSLASH, LF], [BACKSLASH];
    assert s == a + b;
    LineIsPhysical([0x61, EQUALS, 0x62, BACKSLASH], [LF]);
    assert [0x61, EQUALS, 0x62, BACKSLASH] + [LF] == a;
    LineIsPhysical([BACKSLASH], []);
    assert [BACKSLASH] + [] == b;
    SplitLinesAppend(a, b);
    PhysicalAlone(a);
    PhysicalAlone(b);
  }

  lemma PhysicalAlone(l: Text)
    requires IsPhysical(l)
    ensures SplitLines(l) == [l]
  {
    assert l[..|l|] == l && l[|l|..] == [];
  }

  lemma PlainLetter(c: CodePoint)
    requires 0x61 <= c <= 0x7A
    ensures Unescape([c]) == Ok([c]) && TrailingBackslashes([c]) == 0
  {
    var s := [c];
    assert s[1..] == [];
    assert UnescapeRaw(s[1..]) == Ok([]);
    assert [c] + [] == [c];
    assert UnescapeRaw(s) == Ok([c]);
    assert Pair(s) == [c] + Pair(s[1..]) && Pair(s[1..]) == [];
    assert s[..0] == [];
  }

  lemma LetterEntry(source: Text)
    ensures LogicalElement([0x61, EQUALS, 0x62], source) == Ok(KeyValue([0x61], [0x62], source))
  {
    hide Unescape, SeparatorSearch, TrailingBackslashes;
    var line := [0x61, EQUALS, 0x62];
    PlainLetter(0x61);
    PlainLetter(0x62);
    assert line[..1] == [0x61] && line[2..] == [0x62];
    assert KeyEnds(line, 1);
    assert forall k: nat :: KeyEnds(line, k) ==> 1 <= k;
    FirstUnescapedIsSeparator(line, 1);
    assert ValueStart(line, 1) == 2;
  }

  lemma HollowLogicalLine()
    ensures var lines := SplitLines(HollowInput());
            && !IsSimple(lines[0]) && Span(lines) == 2 && Join(lines) == [0x61, EQUALS, 0x62]
  {
    hide SplitLines, TrailingBackslashes, IsContinued, DropContinuation, RStripEol;
    HollowInputLines();
    var lines := SplitLines(HollowInput());
    var body := [0x61, EQUALS, 0x62, BACKSLASH];
    StripOfLine(body, [LF]);
    StripOfLine([BACKSLASH], []);
    assert body + [LF] == lines[0] && [BACKSLASH] + [] == lines[1];
    OneTrailing([0x61, EQUALS, 0x62], 0x62);
    OneTrailing([], 0x62);
    assert [0x61, EQUALS, 0x62] + [BACKSLASH] == body && [] + [BACKSLASH] == [BACKSLASH];
    ContinuedWithoutEol(body);
    ContinuedWithoutEol([BACKSLASH]);
    assert body[..3] == [0x61, EQUALS, 0x62] && [BACKSLASH][..0] == [];
    JoinOfOne(lines[1]);
    assert lines[1..] == [lines[1]];
    assert [0x61, EQUALS, 0x62] + [] == [0x61, EQUALS, 0x62];
  }

  lemma OneTrailing(s: Text, c: CodePoint)
    requires s == [] || s[|s| - 1] == c
    requires c != BACKSLASH
    ensures TrailingBackslashes(s + [BACKSLASH]) == 1
  {
    assert (s + [BACKSLASH])[..|s|] == s;
  }

  /** The input is one entry, `a` is `b`, whose last line is a lone backslash. */
  lemma HollowInputIsHollow()
    ensures var e := KeyValue([0x61], [0x62], HollowInput());
            Parse(HollowInput()) == Ok([e]) && Hollow(e)
  {
    hide SplitLines, Span, Join, LogicalElement, IsCommentLine, IsBlankLine, TrailingBackslashes, IsContinued;
    hide DropContinuation, Continues;
    var e := KeyValue([0x61], [0x62], HollowInput());
    var lines := SplitLines(HollowInput());
    HollowInputLines();
    HollowLogicalLine();
    WholeSource(HollowInput(), lines);
    LetterEntry(HollowInput());
    UnitIsFaithful(e);
    var init, body, eol := LastLineOf(HollowInput());
    assert init == [[0x61, EQUALS, 0x62, BACKSLASH, LF]];
    FlattenOne(init[0]);
    assert body + eol == [BACKSLASH];
    assert (body + eol)[|body + eol| - 1] == BACKSLASH;
    assert eol == [] && body == body + eol;
    ContinuedOfSource(HollowInput(), init, body, eol);
    StripOfLine(body, eol);
    OneTrailing([], 0x62);
    assert [] + [BACKSLASH] == [BACKSLASH];
    assert Flatten(init) + body[..|body| - 1] == init[0];
  }

  /** Adding any key to that file loses it, whatever the key and the value: it is in nothing the merged text loads to.
      */
  lemma HollowInputLosesUpdates(key: Text, value: Text, onlyIfAbsent: bool) returns (merged: Text)
    requires key != [0x61]
    ensures MergeText(HollowInput(), [(key, value)], onlyIfAbsent) == Ok(merged)
    ensures Loads(merged).Ok? ==> key !in AsMap(Loads(merged).value)
  {
    hide Parse, Hollow, HollowInput, Render, Merged, Loads, PairFree;
    HollowInputIsHollow();
    var e := KeyValue([0x61], [0x62], HollowInput());
    ParsedIsSound(HollowInput(), [e]);
    var es := Merged([e], [(key, value)], onlyIfAbsent);
    merged := Render(es, true);
    OneUpdateAppended(e, key, value, onlyIfAbsent);
    if Loads(merged).Ok? && key in AsMap(Loads(merged).value) {
      LoadedIsPairFree(merged, key);
      OneUpdateIsLost(e, key, value, onlyIfAbsent);
    }
  }

  lemma OneUpdateAppended(e: Element, key: Text, value: Text, onlyIfAbsent: bool)
    requires e.KeyValue? && e.key != key
    ensures Merged([e], [(key, value)], onlyIfAbsent) == [Repaired(e), KeyValue(key, value, [])]
  {
    hide Repaired;
    var updates := [(key, value)];
    assert updates[1..] == [];
    assert !HasEntry([e], key);
    assert [e][..0] + [Repaired(e)] + [KeyValue(key, value, [])] == [Repaired(e), KeyValue(key, value, [])];
  }

  lemma OneUpdateIsLost(e: Element, key: Text, value: Text, onlyIfAbsent: bool)
    requires Sound([e]) && Hollow(e) && Faithful(e) && e.key != key && PairFree(key)
    ensures var r := Loads(Render(Merged([e], [(key, value)], onlyIfAbsent), true));
            r.Ok? ==> key !in AsMap(r.value)
  {
    hide Sound, Render, Merged, Faithful, Hollow, Parse, DictOf, PairFree, Occurs, AsMap;
    var es := Merged([e], [(key, value)], onlyIfAbsent);
    MergedIsSound([e], [(key, value)], onlyIfAbsent);
    RepairedRunsAwayIffHollow(e);
    RunawayMeans(e);
    FreshIsNotHollow(e);
    OneUpdateAppended(e, key, value, onlyIfAbsent);
    RunawayMeans(es[0]);
    RunawayLosesNext(es, true);
    var text := Render(es, true);
    if Parse(text).Ok? {
      DictHasOccurring(Entries(Parse(text).value), key);
    }
  }

  lemma OneUpdate(key: Text, value: Text)
    ensures IsDict([(key, value)]) && AsMap([(key, value)]) == map[key := value]
  {
    var updates := [(key, value)];
    assert updates[1..] == [];
  }

  // --- inputs that are safe for every run ---------------------------------

  predicate EndsHollow(es: seq<Element>) {
    es != [] && Hollow(es[|es| - 1])
  }

  /** No element is hollow and no line is swallowed. */
  predicate Safe(es: seq<Element>) {
    (forall x :: x in es ==> !Hollow(x)) && !Swallowing(es)
  }

  lemma {:induction false} DeletedDoesNotSwallow(es: seq<Element>, k: Text)
    requires !Swallowing(es)
    ensures !Swallowing(Deleted(es, k))
  {
    hide Runaway;
    if es != [] {
      var less := Deleted(es[1..], k);
      DeletedDoesNotSwallow(es[1..], k);
      assert ([es[0]] + less)[1..] == less;
      assert [] + less == less;
    }
  }

  lemma {:induction false} ReassignedDoesNotSwallow(es: seq<Element>, k: Text, v: Text)
    requires !Swallowing(es)
    ensures !Swallowing(Reassigned(es, k, v))
  {
    hide Runaway;
    if es != [] {
      var f := KeyValue(k, v, []);
      FreshIsTame(f);
      if IsKey(es[0], k) {
        var less := Deleted(es[1..], k);
        DeletedDoesNotSwallow(es[1..], k);
        assert ([f] + less)[1..] == less;
      } else {
        var less := Reassigned(es[1..], k, v);
        ReassignedDoesNotSwallow(es[1..], k, v);
        assert ([es[0]] + less)[1..] == less;
      }
    }
  }

  lemma {:induction false} AppendedDoesNotSwallow(es: seq<Element>, k: Text, v: Text)
    requires !Swallowing(es) && (es != [] ==> !Runaway(Repaired(es[|es| - 1])))
    ensures !Swallowing(Appended(es, k, v))
  {
    hide Runaway, Repaired;
    var f := KeyValue(k, v, []);
    if es == [] {
      assert [] + [f] == [f];
    } else if |es| == 1 {
      var r := Repaired(es[0]);
      assert es[..0] + [r] + [f] == [r, f];
      assert [r, f][1..] == [f];
    } else {
      AppendedCons(es, k, v);
      var more := Appended(es[1..], k, v);
      AppendedDoesNotSwallow(es[1..], k, v);
      assert ([es[0]] + more)[1..] == more;
    }
  }

  lemma FreshIsNotHollow(e: Element)
    ensures Fresh(e) ==> !Hollow(e)
    ensures !Fresh(e) && Hollow(e) ==> Runaway(e)
  {
  }

  lemma ApplyIsSafe(es: seq<Element>, edit: Edit)
    requires Sound(es) && Safe(es)
    ensures Safe(Apply(es, edit))
  {
    hide Sound, Swallowing, Runaway, Repaired, Hollow, Faithful, Reassigned, Deleted;
    var k := edit.key;
    if edit.Delete? {
      DeletedDoesNotSwallow(es, k);
      forall x | x in Deleted(es, k)
        ensures !Hollow(x)
      {
        DeletedMembers(es, k, x);
      }
    } else if HasEntry(es, k) {
      ReassignedDoesNotSwallow(es, k, edit.value);
      forall x | x in Reassigned(es, k, edit.value)
        ensures !Hollow(x)
      {
        ReassignedMembers(es, k, edit.value, x);
        FreshIsNotHollow(x);
      }
    } else {
      FreshIsNotHollow(KeyValue(k, edit.value, []));
      if es != [] {
        var init, last := es[..|es| - 1], es[|es| - 1];
        assert es == init + [last];
        LastIsSound(es);
        RepairedRunsAwayIffHollow(last);
        RepairedKeepsKey(last);
        FreshIsNotHollow(Repaired(last));
      }
      AppendedDoesNotSwallow(es, k, edit.value);
    }
  }

  lemma {:induction false} RunIsSafe(es: seq<Element>, edits: seq<Edit>)
    requires Sound(es) && Safe(es)
    ensures Safe(ApplyAll(es, edits))
  {
    hide Sound, Safe, Apply;
    if edits != [] {
      var init := edits[..|edits| - 1];
      RunIsSafe(es, init);
      RunRefinesDict(es, init);
      ApplyIsSafe(ApplyAll(es, init), edits[|edits| - 1]);
    }
  }

  predicate PairFreeEdit(edit: Edit) {
    edit.Set? ==> PairFree(edit.key) && PairFree(edit.value)
  }

  lemma {:induction false} RunIsPairFree(es: seq<Element>, edits: seq<Edit>)
    requires AllPairFree(es) && forall i :: 0 <= i < |edits| ==> PairFreeEdit(edits[i])
    ensures AllPairFree(ApplyAll(es, edits))
  {
    hide PairFree, Assigned, Deleted;
    if edits != [] {
      var init, last := edits[..|edits| - 1], edits[|edits| - 1];
      RunIsPairFree(es, init);
      var mid := ApplyAll(es, init);
      assert PairFreeEdit(last);
      forall x | x in Apply(mid, last) && Fresh(x)
        ensures PairFree(x.key) && PairFree(x.value)
      {
        if last.Set? {
          AssignedMembers(mid, last.key, last.value, x);
        } else {
          DeletedMembers(mid, last.key, x);
        }
      }
    }
  }

  /** The run's dump reads back as the dict the run made. */
  predicate ReadsBack(text: Text, edits: seq<Edit>, ensureAscii: bool)
    requires Parse(text).Ok?
  {
    var r := Loads(Render(ApplyAll(Parse(text).value, edits), ensureAscii));
    r.Ok? && AsMap(r.value) == AsMap(DictApplyAll(Loads(text).value, edits))
  }

  /** A key longer than all of the file's. */
  function LongKey(es: seq<Element>): (k: Text)
    ensures k != [] && PairFree(k)
    ensures forall e :: e in es && e.KeyValue? ==> |e.key| < |k|
  {
    if es == [] then [0x61]
    else
      var k := LongKey(es[1..]);
      assert forall e :: e in es ==> e == es[0] || e in es[1..];
      seq(|k| + if es[0].KeyValue? then |es[0].key| else 0, i => 0x61)
  }

  lemma LongKeyIsNew(es: seq<Element>)
    ensures !HasEntry(es, LongKey(es))
  {
    var k := LongKey(es);
    forall i | 0 <= i < |es|
      ensures !IsKey(es[i], k)
    {
      assert es[i] in es;
    }
  }

  /** A file whose every run reads back, whatever is set and deleted, is one that does not end in a hollow entry. */
  lemma EveryRunReadsBackIff(text: Text, ensureAscii: bool)
    requires Parse(text).Ok?
    ensures !EndsHollow(Parse(text).value)
       <==> forall edits :: (forall i :: 0 <= i < |edits| ==> PairFreeEdit(edits[i])) ==>
              ReadsBack(text, edits, ensureAscii)
  {
    hide Parse, Sound, Hollow, Faithful, Runaway, ReadsBack, PairFreeEdit, Open;
    var es := Parse(text).value;
    ParsedIsSound(text, es);
    if EndsHollow(es) {
      HollowBreaksARun(text, ensureAscii);
    } else {
      forall edits: seq<Edit> | forall i :: 0 <= i < |edits| ==> PairFreeEdit(edits[i])
        ensures ReadsBack(text, edits, ensureAscii)
      {
        SafeRunReadsBack(text, edits, ensureAscii);
      }
    }
  }

  lemma ParsedIsSafe(text: Text)
    requires Parse(text).Ok? && !EndsHollow(Parse(text).value)
    ensures var es := Parse(text).value; Sound(es) && Safe(es) && AllPairFree(es)
  {
    hide Parse, Sound, Hollow, Runaway, Open;
    var es := Parse(text).value;
    ParsedIsSound(text, es);
    KeptIsPairFree(es, []);
    forall i | 0 <= i < |es|
      ensures !Hollow(es[i]) && (i < |es| - 1 ==> !Runaway(es[i]))
    {
      RunawayMeans(es[i]);
    }
    forall x | es != [] && x in es[..|es| - 1]
      ensures !Runaway(x)
    {
      var i :| 0 <= i < |es| - 1 && es[i] == x;
    }
    NoRunawayNoSwallowing(es);
  }

  lemma SafeRunReadsBack(text: Text, edits: seq<Edit>, ensureAscii: bool)
    requires Parse(text).Ok? && !EndsHollow(Parse(text).value)
    requires forall i :: 0 <= i < |edits| ==> PairFreeEdit(edits[i])
    ensures ReadsBack(text, edits, ensureAscii)
    ensures Loads(Render(ApplyAll(Parse(text).value, edits), ensureAscii)) == Ok(DictApplyAll(Loads(text).value, edits))
  {
    hide Parse, Sound, AllPairFree, Swallowing, EndsHollow;
    var es := Parse(text).value;
    ParsedIsSafe(text);
    RunIsSafe(es, edits);
    RunIsPairFree(es, edits);
    WholeRun(text, edits, ensureAscii);
  }

  lemma OneSet(es: seq<Element>, k: Text, v: Text)
    ensures ApplyAll(es, [Set(k, v)]) == Assigned(es, k, v)
  {
    hide Assigned;
    var edits := [Set(k, v)];
    assert edits[..0] == [];
  }

  /** A line put behind a hollow entry is swallowed. */
  lemma HollowSwallows(es: seq<Element>, k: Text, v: Text)
    requires es != [] && !HasEntry(es, k) && EndsHollow(es)
    requires var z := es[|es| - 1]; !Fresh(z) && Faithful(z) && Tame(es[..|es| - 1])
    ensures Swallowing(Assigned(es, k, v))
  {
    hide Hollow, Runaway, Faithful, Fresh, Assigned, HasEntry, Tame, Buried, Swallowing;
    var z := es[|es| - 1];
    BareAppended(es, z, k, v);
    BuriedSwallows(Assigned(es, k, v), z);
  }

  /** In what was parsed only the last element can run away. */
  lemma ParsedEndsBare(text: Text)
    requires Parse(text).Ok? && Parse(text).value != []
    ensures var es := Parse(text).value;
            var z := es[|es| - 1];
            !Fresh(z) && Faithful(z) && Tame(es[..|es| - 1])
  {
    hide Parse, Sound, Runaway, Open, Faithful, Fresh, Render;
    var es := Parse(text).value;
    ParsedIsSound(text, es);
    LastIsSound(es);
    forall x | x in es[..|es| - 1]
      ensures !Runaway(x)
    {
      var i :| 0 <= i < |es| - 1 && es[i] == x;
      RunawayMeans(x);
    }
  }

  lemma SwallowingRunFails(text: Text, edits: seq<Edit>, ensureAscii: bool)
    requires Parse(text).Ok? && Swallowing(ApplyAll(Parse(text).value, edits))
    ensures !ReadsBack(text, edits, ensureAscii)
  {
    WholeRun(text, edits, ensureAscii);
    hide Parse, ApplyAll, Swallowing, AllPairFree, Loads, DictApplyAll, Render, AsMap;
  }

  lemma HollowBreaksARun(text: Text, ensureAscii: bool)
    requires Parse(text).Ok? && EndsHollow(Parse(text).value)
    ensures exists edits :: (forall i :: 0 <= i < |edits| ==> PairFreeEdit(edits[i])) &&
              !ReadsBack(text, edits, ensureAscii)
  {
    var es := Parse(text).value;
    var k := LongKey(es);
    var edits := [Set(k, [])];
    assert PairFreeEdit(edits[0]);
    hide Parse, Hollow, Assigned, ApplyAll, ReadsBack, PairFreeEdit, HasEntry, Swallowing, LongKey, Fresh,
         Faithful, Tame;
    LongKeyIsNew(es);
    ParsedEndsBare(text);
    HollowSwallows(es, k, []);
    OneSet(es, k, []);
    SwallowingRunFails(text, edits, ensureAscii);
  }
}
