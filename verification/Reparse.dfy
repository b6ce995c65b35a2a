/** Dumping a file state and parsing the dump: when the dict comes back, and when it does not. */
module Reparse {
  import opened Wrappers
  import opened Chars
  import opened Lines
  import opened Regexes
  import opened OrderedDicts
  import opened Reading
  import opened Writing
  import opened EscapeLaws
  import opened Documents
  import opened SelfDelimiting
  import opened Edits
  import opened Repairs
  import opened NewLines
  import opened FileStates

  /** The entries a text parses to. */
  function EntriesOf(text: Text): Parsed<seq<(Text, Text)>> {
    var es :- Parse(text);
    Ok(Entries(es))
  }

  function Listed(head: seq<(Text, Text)>, more: Parsed<seq<(Text, Text)>>): Parsed<seq<(Text, Text)>> {
    if more.Ok? then Ok(head + more.value) else more
  }

  lemma EntriesOfPrepended(e: Element, whole: Text, t: Text)
    requires Parse(whole) == Prepend([e], Parse(t))
    ensures EntriesOf(whole) == Listed(EntryOf(e), EntriesOf(t))
  {
    hide Parse;
    if Parse(t).Ok? {
      EntriesAppend([e], Parse(t).value);
      EntriesOne(e);
    }
  }

  lemma LineFeedIsFaithful()
    ensures Faithful(Whitespace([LF]))
  {
    var line := [LF];
    assert line[..1] == line && line[1..] == [];
    assert SplitLines(line) == [line] + SplitLines(line[1..]);
    var lines := [line];
    assert lines[1..] == [];
    assert LStrip(line) == line;
    ParseNothing();
    assert [Whitespace(line)] + [] == [Whitespace(line)];
    assert SplitLines(line) == lines;
    assert ParseLines(lines) == Ok([Whitespace(line)] + []);
  }

  /** A closed element adds its own entry to whatever the text behind it parses to, for every such text: when a CR
      that ended it meets an LF, only an empty line disappears. */
  lemma EntriesThenText(e: Element, t: Text)
    requires Faithful(e) && !Open(e) && EndsWithEol(e.source)
    ensures EntriesOf(e.source + t) == Listed(EntryOf(e), EntriesOf(t))
  {
    hide Faithful, Open, EntriesOf, Parse, Listed;
    if CleanCut(e.source, t) {
      ElementThenText(e, t);
      EntriesOfPrepended(e, e.source + t, t);
    } else {
      var u := t[1..];
      var f, w := e.WithSource(e.source + [LF]), Whitespace([LF]);
      assert t == [LF] + u;
      assert e.source[|e.source| - 1..] == [CR];
      AppendLf(e);
      ElementThenText(f, u);
      assert e.source + t == f.source + u;
      EntriesOfPrepended(f, e.source + t, u);
      LineFeedIsFaithful();
      LineFeedIsClosed(w);
      ElementThenText(w, u);
      EntriesOfPrepended(w, t, u);
      NothingListed(EntriesOf(u));
    }
  }

  lemma LineFeedIsClosed(w: Element)
    requires w == Whitespace([LF])
    ensures !Open(w)
  {
    assert WithoutEol([LF]) == [];
  }

  lemma NothingListed(more: Parsed<seq<(Text, Text)>>)
    ensures Listed([], more) == more
  {
    if more.Ok? {
      assert [] + more.value == more.value;
    }
  }

  // --- the dict that comes back ------------------------------------------

  /** An entry that would take in the line put behind it. */
  predicate Runaway(e: Element) {
    !Fresh(e) && e.KeyValue? && Open(e)
  }

  /** Some line of the file is swallowed by the entry before it. */
  predicate Swallowing(es: seq<Element>) {
    |es| > 1 && (Runaway(es[0]) || Swallowing(es[1..]))
  }

  /** The entry an element's dump reads back as. */
  function PrintedEntry(e: Element): seq<(Text, Text)> {
    if Fresh(e) then [(Pair(e.key), Pair(e.value))] else EntryOf(e)
  }

  function PrintedEntries(es: seq<Element>): seq<(Text, Text)> {
    if es == [] then [] else PrintedEntry(es[0]) + PrintedEntries(es[1..])
  }

  /** A sound file in which no line is swallowed dumps to a text with exactly its entries, in order and with
      duplicates; fresh ones come back paired. */
  lemma {:induction false} RenderParses(es: seq<Element>, ensureAscii: bool)
    requires Sound(es) && !Swallowing(es)
    ensures EntriesOf(Render(es, ensureAscii)) == Ok(PrintedEntries(es))
    decreases |es|
  {
    hide Faithful, Open, JoinKeyValue, Parse, Pair, Fresh;
    if es == [] {
      NothingParses();
    } else {
      var e, rest := es[0], es[1..];
      var t := Render(rest, ensureAscii);
      FreshMeans(e);
      if Fresh(e) {
        RenderParses(rest, ensureAscii);
        PrintedThenText(e.key, e.value, ensureAscii, t);
      } else if rest == [] {
        assert e.source + [] == e.source;
        FaithfulEntries(e);
        assert EntryOf(e) + [] == EntryOf(e);
      } else if !Open(e) {
        RenderParses(rest, ensureAscii);
        EntriesThenText(e, t);
      } else {
        OpenAndNotRunaway(e);
        var f := rest[0];
        FreshMeans(f);
        assert rest[1..] == es[2..];
        RenderParses(rest[1..], ensureAscii);
        var u := Render(rest[1..], ensureAscii);
        var line := JoinKeyValue(f.key, f.value, ensureAscii) + [LF];
        BlankThenLine(e, f.key, f.value, ensureAscii, u);
        assert t == line + u;
        EntriesOfPrepended(KeyValue(Pair(f.key), Pair(f.value), e.source + line), e.source + t, u);
        assert [] + PrintedEntries(rest) == PrintedEntries(rest);
      }
    }
  }

  lemma FreshMeans(e: Element)
    ensures Fresh(e) <==> e.KeyValue? && e.source == []
  {
  }

  lemma OpenAndNotRunaway(e: Element)
    requires Open(e) && !Runaway(e) && !Fresh(e)
    ensures e.Whitespace?
  {
  }

  lemma NothingParses()
    ensures EntriesOf([]) == Ok([])
  {
    SplitNothing();
    ParseNothing();
  }

  lemma FaithfulEntries(e: Element)
    requires Faithful(e)
    ensures EntriesOf(e.source) == Ok(EntryOf(e))
  {
    hide Parse;
    EntriesOne(e);
  }

  lemma PrintedThenText(key: Text, value: Text, ensureAscii: bool, t: Text)
    ensures EntriesOf(JoinKeyValue(key, value, ensureAscii) + [LF] + t) ==
            Listed([(Pair(key), Pair(value))], EntriesOf(t))
  {
    hide Faithful, Open, JoinKeyValue, EntriesOf, Pair, Listed;
    PrintedIsFaithful(key, value, ensureAscii);
    EntriesThenText(PrintedElement(key, value, ensureAscii), t);
  }

  // --- the entry that is lost --------------------------------------------

  predicate AllPairFree(es: seq<Element>) {
    forall e :: e in es && Fresh(e) ==> PairFree(e.key) && PairFree(e.value)
  }

  lemma {:induction false} PrintedIsEntries(es: seq<Element>)
    requires AllPairFree(es)
    ensures PrintedEntries(es) == Entries(es)
  {
    hide PairFree, Pair;
    if es != [] {
      PrintedIsEntries(es[1..]);
      if Fresh(es[0]) {
        PairIsIdentityIff(es[0].key);
        PairIsIdentityIff(es[0].value);
      }
    }
  }

  predicate AllKeysPairFree(es: seq<Element>) {
    forall e :: e in es && Fresh(e) ==> PairFree(e.key)
  }

  /** Printing changes no key. */
  lemma {:induction false} PrintedKeys(es: seq<Element>, k: Text)
    requires AllKeysPairFree(es)
    ensures Occurs(PrintedEntries(es), k) <==> Occurs(Entries(es), k)
  {
    hide PairFree, Pair;
    if es != [] {
      PrintedKeys(es[1..], k);
      if Fresh(es[0]) {
        PairIsIdentityIff(es[0].key);
      }
      OccursPrepended(PrintedEntry(es[0]), PrintedEntries(es[1..]), k);
      OccursPrepended(EntryOf(es[0]), Entries(es[1..]), k);
    }
  }

  lemma OccursPrepended(head: seq<(Text, Text)>, rest: seq<(Text, Text)>, k: Text)
    requires |head| <= 1
    ensures Occurs(head + rest, k) <==> (|head| == 1 && head[0].0 == k) || Occurs(rest, k)
  {
    if head == [] {
      assert head + rest == rest;
    } else {
      OccursCons(head + rest, k);
      assert (head + rest)[1..] == rest;
    }
  }

  /** The key of the first entry that is swallowed. */
  function LostKey(es: seq<Element>): Text
    requires Sound(es) && Swallowing(es)
  {
    if Runaway(es[0]) then
      assert es[1] in es[1..];
      es[1].key
    else LostKey(es[1..])
  }

  lemma {:induction false} LostKeyIsFresh(es: seq<Element>)
    requires Sound(es) && Swallowing(es)
    ensures exists e :: e in es && Fresh(e) && IsKey(e, LostKey(es))
  {
    hide Faithful, Open;
    if Runaway(es[0]) {
      assert es[1] in es[1..];
      RunawayIsOpen(es[0]);
    } else {
      LostKeyIsFresh(es[1..]);
      var e :| e in es[1..] && Fresh(e) && IsKey(e, LostKey(es[1..]));
      assert e in es;
    }
  }

  lemma RunawayIsOpen(e: Element)
    requires Runaway(e)
    ensures Open(e) && e.KeyValue? && !Fresh(e)
  {
  }

  /** When an entry swallows the line behind it, the swallowed key is in nothing the dump parses to. */
  lemma {:induction false} SwallowedKeyIsLost(es: seq<Element>, ensureAscii: bool)
    requires Sound(es) && Swallowing(es) && AllKeysPairFree(es)
    ensures var r := EntriesOf(Render(es, ensureAscii));
            r.Ok? ==> !Occurs(r.value, LostKey(es))
    decreases |es|
  {
    hide Faithful, Open, JoinKeyValue, Pair, Parse, PairFree, Fresh, Swallowed;
    var e, rest := es[0], es[1..];
    var t := Render(rest, ensureAscii);
    FreshMeans(e);
    if Runaway(e) {
      RunawayIsOpen(e);
      assert es[1] in rest;
      FreshMeans(es[1]);
      RunawayLosesNext(es, ensureAscii);
    } else {
      SwallowedKeyIsLost(rest, ensureAscii);
      LostKeyIsFresh(rest);
      var lost := LostKey(es);
      var x :| x in rest && Fresh(x) && IsKey(x, lost);
      var more := EntriesOf(t);
      if Fresh(e) {
        PairIsIdentityIff(e.key);
        PrintedThenText(e.key, e.value, ensureAscii, t);
        NotListed([(Pair(e.key), Pair(e.value))], more, lost);
      } else if !Open(e) {
        EntriesThenText(e, t);
        NotListed(EntryOf(e), more, lost);
      } else {
        AllFreshIsNotSwallowing(rest);
      }
    }
  }

  lemma NotListed(head: seq<(Text, Text)>, more: Parsed<seq<(Text, Text)>>, k: Text)
    requires forall p :: p in head ==> p.0 != k
    requires more.Ok? ==> !Occurs(more.value, k)
    ensures Listed(head, more).Ok? ==> !Occurs(Listed(head, more).value, k)
  {
    if Listed(head, more).Ok? {
      var all := head + more.value;
      forall i | 0 <= i < |all|
        ensures all[i].0 != k
      {
        if i < |head| {
          assert all[i] in head;
        } else {
          assert all[i] == more.value[i - |head|];
        }
      }
    }
  }

  lemma {:induction false} AllFreshIsNotSwallowing(es: seq<Element>)
    requires forall x :: x in es ==> Fresh(x)
    ensures !Swallowing(es)
  {
    hide Open;
    if es != [] {
      assert es[0] in es;
      AllFreshIsNotSwallowing(es[1..]);
    }
  }

  lemma OccursIn(es: seq<Element>, k: Text)
    requires forall x :: x in es ==> !IsKey(x, k)
    ensures !Occurs(Entries(es), k)
  {
    HasEntryOccurs(es, k);
    forall i | 0 <= i < |es|
      ensures !IsKey(es[i], k)
    {
      assert es[i] in es;
    }
  }

  lemma RunawayLosesNext(es: seq<Element>, ensureAscii: bool)
    requires Sound(es) && |es| > 1 && Runaway(es[0]) && es[1].KeyValue? && AllKeysPairFree(es)
    ensures var r := EntriesOf(Render(es, ensureAscii));
            r.Ok? ==> !Occurs(r.value, es[1].key)
  {
    hide Faithful, Open, JoinKeyValue, Pair, Parse, PairFree, Swallowed, Utf16Length;
    var e, f, more := es[0], es[1], es[2..];
    var rest := es[1..];
    RunawayIsOpen(e);
    assert f == rest[0] && more == rest[1..] && f in rest;
    assert Fresh(f);
    var u := Render(more, ensureAscii);
    assert Sound(rest);
    AllFreshIsNotSwallowing(more);
    RenderParses(more, ensureAscii);
    PrintedKeys(more, f.key);
    OccursIn(more, f.key);
    OpenThenLine(e, f.key, f.value, ensureAscii, u);
    assert Render(es, ensureAscii) == e.source + (JoinKeyValue(f.key, f.value, ensureAscii) + [LF] + u);
    var s := Swallowed(e, f.key, f.value, ensureAscii);
    if s.Ok? {
      EntriesOfPrepended(s.value, Render(es, ensureAscii), u);
      SwallowedKeyDiffers(e, f.key, f.value, ensureAscii);
      NotListed(EntryOf(s.value), EntriesOf(u), f.key);
    }
  }

  /** The swallowing line does not read as the key it swallowed. */
  lemma SwallowedKeyDiffers(e: Element, key: Text, value: Text, ensureAscii: bool)
    requires Faithful(e) && Runaway(e) && e.key != key
    requires SplitLines(e.source) != [] && Swallowed(e, key, value, ensureAscii).Ok?
    ensures var f := Swallowed(e, key, value, ensureAscii).value;
            f.KeyValue? && f.key != key
  {
    hide Open, JoinKeyValue, LogicalElement, Join, SplitLines, Utf16Length, Faithful, IsSimple, IsPhysical, Span,
         Flatten;
    var a := SplitLines(e.source);
    SimpleElements(e);
    FaithfulIsUnit(e);
    SimpleOrNot(a[0]);
    AllPhysical(e.source);
    JoinIsEven(a);
    WholeSource(e.source, a);
    var line := JoinKeyValue(key, value, ensureAscii);
    SwallowedKey(Join(a), e.source, key, value, ensureAscii, e.source + (line + [LF]));
  }
}
