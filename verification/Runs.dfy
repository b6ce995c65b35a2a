/** Whole runs: any load, any edits, then a dump that is parsed again. */
module Runs {
  import opened Wrappers
  import opened Chars
  import opened Lines
  import opened OrderedDicts
  import opened Regexes
  import opened Reading
  import opened EscapeLaws
  import opened Documents
  import opened SelfDelimiting
  import opened Edits
  import opened FileStates
  import opened Reparse

  // --- values in dicts --------------------------------------------------

  /** What a dict holds for a key was the last pair's value for it. */
  lemma {:induction false} DictValueOccurs(pairs: seq<(Text, Text)>, k: Text)
    requires k in AsMap(DictOf(pairs))
    ensures (k, AsMap(DictOf(pairs))[k]) in pairs
  {
    var init, last := pairs[..|pairs| - 1], pairs[|pairs| - 1];
    assert pairs == init + [last];
    PutIsUpdate(DictOf(init), last.0, last.1);
    if last.0 != k {
      DictValueOccurs(init, k);
    }
  }

  lemma {:induction false} EntryOccurs(es: seq<Element>, p: (Text, Text))
    requires p in Entries(es)
    ensures exists e :: e in es && e.KeyValue? && (e.key, e.value) == p
  {
    if p in EntryOf(es[0]) {
      assert es[0] in es;
    } else {
      EntryOccurs(es[1..], p);
      var e :| e in es[1..] && e.KeyValue? && (e.key, e.value) == p;
      assert e in es;
    }
  }

  lemma {:induction false} ElementOccurs(es: seq<Element>, e: Element)
    requires e in es && e.KeyValue?
    ensures (e.key, e.value) in Entries(es)
  {
    if es[0] != e {
      ElementOccurs(es[1..], e);
    }
  }

  lemma PairInDict(pairs: seq<(Text, Text)>, p: (Text, Text))
    requires p in pairs
    ensures p.0 in AsMap(DictOf(pairs))
  {
    DictHasOccurring(pairs, p.0);
    var i :| 0 <= i < |pairs| && pairs[i] == p;
    assert pairs[i].0 == p.0;
  }

  lemma {:induction false} FreshIsOnly(es: seq<Element>, e: Element, x: Element)
    requires Sound(es) && e in es && Fresh(e) && x in es && IsKey(x, e.key)
    ensures x == e
  {
    hide Faithful, Open;
    if es[0] != e && es[0] != x {
      FreshIsOnly(es[1..], e, x);
    }
  }

  /** A fresh entry is what the dict holds for its key. */
  lemma FreshInDict(es: seq<Element>, e: Element)
    requires Sound(es) && e in es && Fresh(e)
    ensures var m := AsMap(DictOf(Entries(es))); e.key in m && m[e.key] == e.value
  {
    hide Faithful, Open, Sound;
    ElementOccurs(es, e);
    PairInDict(Entries(es), (e.key, e.value));
    DictValueOccurs(Entries(es), e.key);
    var v := AsMap(DictOf(Entries(es)))[e.key];
    EntryOccurs(es, (e.key, v));
    var x :| x in es && x.KeyValue? && (x.key, x.value) == (e.key, v);
    FreshIsOnly(es, e, x);
  }

  // --- what a parser can return -----------------------------------------

  predicate PairFreeEntry(e: Element) {
    e.KeyValue? ==> PairFree(e.key) && PairFree(e.value)
  }

  lemma UnescapedIsPairFree(field: Text)
    requires Unescape(field).Ok?
    ensures PairFree(Unescape(field).value)
  {
    hide UnescapeRaw;
    PairIsPairFree(UnescapeRaw(field).value);
  }

  lemma LogicalIsPairFree(line: Text, source: Text)
    requires LogicalElement(line, source).Ok?
    ensures PairFreeEntry(LogicalElement(line, source).value)
  {
    hide Unescape, SeparatorSearch;
    SeparatorBounds(line);
    var m := SeparatorSearch(line, 0);
    if m.Some? {
      SeparatorIsFirstUnescaped(line);
      if line != [] {
        UnescapedIsPairFree(line[..m.value.keyEnd]);
        UnescapedIsPairFree(line[m.value.valueStart..]);
      }
    } else if line != [] {
      UnescapedIsPairFree(line);
    }
  }

  lemma {:induction false} ParsedLinesArePairFree(lines: seq<Text>)
    requires ParseLines(lines).Ok?
    ensures forall e :: e in ParseLines(lines).value ==> PairFreeEntry(e)
    decreases |lines|
  {
    hide LogicalElement, ParseLines, Span, Join, Flatten, IsCommentLine, IsBlankLine, PairFree;
    if lines == [] {
      ParseNothing();
    } else {
      ParseUnfold(lines);
      var rest := lines[FirstCount(lines)..];
      ParsedLinesArePairFree(rest);
      if !IsSimple(lines[0]) {
        LogicalIsPairFree(Join(lines), Flatten(lines[..Span(lines)]));
      }
    }
  }

  /** No parse ever returns a key or a value with adjacent halves. */
  lemma LoadedIsPairFree(text: Text, k: Text)
    requires Loads(text).Ok? && k in AsMap(Loads(text).value)
    ensures PairFree(k) && PairFree(AsMap(Loads(text).value)[k])
  {
    hide PairFree, ParseLines;
    var es := Parse(text).value;
    ParsedLinesArePairFree(SplitLines(text));
    DictValueOccurs(Entries(es), k);
    var v := AsMap(DictOf(Entries(es)))[k];
    EntryOccurs(es, (k, v));
  }

  // --- dump and reparse -------------------------------------------------

  lemma DumpReparses(es: seq<Element>, ensureAscii: bool)
    requires Sound(es) && AllPairFree(es) && !Swallowing(es)
    ensures Loads(Render(es, ensureAscii)) == Ok(DictOf(Entries(es)))
  {
    hide Sound, AllPairFree, Swallowing, Parse;
    RenderParses(es, ensureAscii);
    PrintedIsEntries(es);
  }

  lemma BadFreshIsLost(es: seq<Element>, ensureAscii: bool)
    requires Sound(es) && !AllPairFree(es)
    requires Loads(Render(es, ensureAscii)).Ok?
    ensures AsMap(Loads(Render(es, ensureAscii)).value) != AsMap(DictOf(Entries(es)))
  {
    hide Sound, Loads, PairFree, Render, AsMap, Entries, DictOf;
    var e :| e in es && Fresh(e) && !(PairFree(e.key) && PairFree(e.value));
    FreshInDict(es, e);
    var text := Render(es, ensureAscii);
    if e.key in AsMap(Loads(text).value) {
      LoadedIsPairFree(text, e.key);
    }
  }

  lemma SwallowedIsLost(es: seq<Element>, ensureAscii: bool)
    requires Sound(es) && AllPairFree(es) && Swallowing(es)
    requires Loads(Render(es, ensureAscii)).Ok?
    ensures AsMap(Loads(Render(es, ensureAscii)).value) != AsMap(DictOf(Entries(es)))
  {
    hide Sound, PairFree, Swallowing, Parse, Fresh, LostKey;
    assert AllKeysPairFree(es);
    SwallowedKeyIsLost(es, ensureAscii);
    LostKeyIsFresh(es);
    var k := LostKey(es);
    var e :| e in es && Fresh(e) && IsKey(e, k);
    FreshInDict(es, e);
    var pairs := Entries(Parse(Render(es, ensureAscii)).value);
    DictHasOccurring(pairs, k);
  }

  /** A file state comes back from its dump exactly when its fresh strings hold no adjacent halves and no entry
      swallows the line behind it; and then in the same order. */
  lemma DumpReparsesIff(es: seq<Element>, ensureAscii: bool)
    requires Sound(es)
    ensures var r := Loads(Render(es, ensureAscii));
            && (r.Ok? && AsMap(r.value) == AsMap(DictOf(Entries(es))) <==> AllPairFree(es) && !Swallowing(es))
            && (AllPairFree(es) && !Swallowing(es) ==> r == Ok(DictOf(Entries(es))))
  {
    hide Sound, AllPairFree, Swallowing, Loads;
    if AllPairFree(es) && !Swallowing(es) {
      DumpReparses(es, ensureAscii);
    } else if Loads(Render(es, ensureAscii)).Ok? {
      if !AllPairFree(es) {
        BadFreshIsLost(es, ensureAscii);
      } else {
        SwallowedIsLost(es, ensureAscii);
      }
    }
  }

  // --- runs -------------------------------------------------------------

  datatype Edit = Set(key: Text, value: Text) | Delete(key: Text)

  function Apply(es: seq<Element>, edit: Edit): seq<Element> {
    match edit
    case Set(k, v) => Assigned(es, k, v)
    case Delete(k) => Deleted(es, k)
  }

  function ApplyAll(es: seq<Element>, edits: seq<Edit>): seq<Element> {
    if edits == [] then es else Apply(ApplyAll(es, edits[..|edits| - 1]), edits[|edits| - 1])
  }

  function DictApply(d: OrderedDict, edit: Edit): OrderedDict {
    match edit
    case Set(k, v) => Put(d, k, v)
    case Delete(k) => Remove(d, k)
  }

  function DictApplyAll(d: OrderedDict, edits: seq<Edit>): OrderedDict {
    if edits == [] then d else DictApply(DictApplyAll(d, edits[..|edits| - 1]), edits[|edits| - 1])
  }

  lemma {:induction false} RunRefinesDict(es: seq<Element>, edits: seq<Edit>)
    requires Sound(es)
    ensures Sound(ApplyAll(es, edits))
    ensures DictOf(Entries(ApplyAll(es, edits))) == DictApplyAll(DictOf(Entries(es)), edits)
  {
    hide Sound, Assigned, Deleted;
    if edits != [] {
      var init, last := edits[..|edits| - 1], edits[|edits| - 1];
      RunRefinesDict(es, init);
      var mid := ApplyAll(es, init);
      match last {
        case Set(k, v) =>
          AssignedIsSound(mid, k, v);
          AssignedIsPut(mid, k, v);
        case Delete(k) =>
          DeletedIsSound(mid, k);
          DeletedIsRemove(mid, k);
      }
    }
  }

  /** Any run behaves as the ordered dict its input stands for, and its dump reads back as that dict exactly when
      no string given to it holds adjacent halves and no entry swallows the line behind it. */
  lemma WholeRun(text: Text, edits: seq<Edit>, ensureAscii: bool)
    requires Parse(text).Ok?
    ensures var es := ApplyAll(Parse(text).value, edits);
            var d := DictApplyAll(Loads(text).value, edits);
            var r := Loads(Render(es, ensureAscii));
            && DictOf(Entries(es)) == d
            && (r.Ok? && AsMap(r.value) == AsMap(d) <==> AllPairFree(es) && !Swallowing(es))
            && (AllPairFree(es) && !Swallowing(es) ==> r == Ok(d))
  {
    hide Sound, AllPairFree, Swallowing, Parse;
    var es := Parse(text).value;
    ParsedIsSound(text, es);
    RunRefinesDict(es, edits);
    DumpReparsesIff(ApplyAll(es, edits), ensureAscii);
  }

  /** The same edit on a mapping. */
  function MapApply(m: map<Text, Text>, edit: Edit): map<Text, Text> {
    match edit
    case Set(k, v) => m[k := v]
    case Delete(k) => m - {k}
  }

  function MapApplyAll(m: map<Text, Text>, edits: seq<Edit>): map<Text, Text> {
    if edits == [] then m else MapApply(MapApplyAll(m, edits[..|edits| - 1]), edits[|edits| - 1])
  }

  lemma {:induction false} DictRunIsMapRun(d: OrderedDict, edits: seq<Edit>)
    ensures AsMap(DictApplyAll(d, edits)) == MapApplyAll(AsMap(d), edits)
  {
    hide AsMap, Put, Remove;
    if edits != [] {
      var before := DictApplyAll(d, edits[..|edits| - 1]);
      DictRunIsMapRun(d, edits[..|edits| - 1]);
      match edits[|edits| - 1]
      case Set(k, v) => PutIsUpdate(before, k, v);
      case Delete(k) => RemoveIsSubtract(before, k);
    }
  }

  /** With order forgotten: a run is a run of map updates and removals on what its input loads to, and its dump loads to
      the result under the same condition. */
  lemma WholeRunAsMap(text: Text, edits: seq<Edit>, ensureAscii: bool)
    requires Parse(text).Ok?
    ensures var es := ApplyAll(Parse(text).value, edits);
            var m := MapApplyAll(AsMap(Loads(text).value), edits);
            var r := Loads(Render(es, ensureAscii));
            && AsMap(DictOf(Entries(es))) == m
            && (r.Ok? && AsMap(r.value) == m <==> AllPairFree(es) && !Swallowing(es))
  {
    hide AllPairFree, Swallowing, Parse, ApplyAll, Render, Entries, DictOf;
    WholeRun(text, edits, ensureAscii);
    DictRunIsMapRun(Loads(text).value, edits);
  }
}
