/** `merge(…, only_if_absent=True)` applied to its own output. */
module Idempotence {
  import opened Wrappers
  import opened Chars
  import opened Lines
  import opened Regexes
  import opened OrderedDicts
  import opened Reading
  import opened Writing
  import opened EscapeLaws
  import opened JoinLaws
  import opened Documents
  import opened SelfDelimiting
  import opened Edits
  import opened Repairs
  import opened FileStates
  import opened Reparse
  import opened Runs
  import opened PropertiesFiles
  import opened Sysprops

  predicate AllPresent(es: seq<Element>, updates: OrderedDict) {
    forall p :: p in updates ==> HasEntry(es, p.0)
  }

  lemma {:induction false} PresentChangesNothing(es: seq<Element>, updates: OrderedDict)
    requires AllPresent(es, updates)
    ensures Merged(es, updates, true) == es
    decreases |updates|
  {
    hide HasEntry, Assigned;
    if updates != [] {
      assert updates[0] in updates;
      PresentChangesNothing(es, updates[1..]);
    }
  }

  // --- how the text of a file ends -----------------------------------------

  /** The last element of a document ends as the document does. */
  lemma {:induction false} LastElementEnds(text: Text)
    requires Parse(text).Ok? && text != []
    ensures var es := Parse(text).value;
            && es != []
            && (IsContinued(es[|es| - 1].source) <==> IsContinued(text))
            && (EndsWithEol(es[|es| - 1].source) <==> EndsWithEol(text))
    decreases |text|
  {
    hide Open, Faithful, ParseLines, FirstElement, FirstCount, SplitLines, IsContinued, EndsWithEol;
    var lines := SplitLines(text);
    SomethingSplits(text);
    ParseUnfold(lines);
    var rest := FirstElementOf(text);
    var e := FirstElement(lines).value;
    if rest == [] {
      assert e.source + [] == e.source;
      SplitNothing();
      ParseNothing();
      assert [e] + [] == [e];
    } else {
      LastElementEnds(rest);
      var more := Parse(rest).value;
      assert ([e] + more)[|[e] + more| - 1] == more[|more| - 1];
      SuffixEnds(e.source, rest);
    }
  }

  /** Text behind a finished line ends as the whole does. */
  lemma SuffixEnds(p: Text, t: Text)
    requires EndsWithEol(p) && t != [] && CleanCut(p, t)
    ensures IsContinued(p + t) <==> IsContinued(t)
    ensures EndsWithEol(p + t) <==> EndsWithEol(t)
  {
    hide TrailingBackslashes;
    var s := p + t;
    assert |t| > 1 ==> s[|s| - 2] == t[|t| - 2];
    assert EolLength(s) == EolLength(t);
    assert WithoutEol(s) == p + WithoutEol(t);
    EolStopsRun(p);
    TrailingBackslashesAppend(p, WithoutEol(t));
  }

  lemma EolStopsRun(p: Text)
    requires EndsWithEol(p)
    ensures TrailingBackslashes(p) == 0
  {
  }

  /** The text ends in an LF behind a character that is no line ending and no left-over backslash. */
  predicate EndsPrinted(t: Text) {
    && |t| > 1 && t[|t| - 1] == LF && !IsEol(t[|t| - 2])
    && TrailingBackslashes(t[..|t| - 1]) % 2 == 0
  }

  lemma PrintedEnd(line: Text)
    requires Balanced(line) && line != []
    ensures EndsPrinted(line + [LF])
  {
    assert (line + [LF])[..|line|] == line;
  }

  lemma EndsPrintedBehind(p: Text, t: Text)
    requires EndsPrinted(t) && EndsWithEol(p)
    ensures EndsPrinted(p + t)
  {
    hide TrailingBackslashes;
    assert (p + t)[..|p + t| - 1] == p + t[..|t| - 1];
    EolStopsRun(p);
    TrailingBackslashesAppend(p, t[..|t| - 1]);
  }

  lemma EndsPrintedMeans(t: Text)
    requires EndsPrinted(t)
    ensures t != [] && EndsWithEol(t) && !IsContinued(t)
  {
    assert WithoutEol(t) == t[..|t| - 1];
  }

  /** A file to which a key was added ends in a printed line. */
  lemma {:induction false} RenderEndsInFresh(es: seq<Element>)
    requires Sound(es) && es != [] && Fresh(es[|es| - 1])
    ensures EndsPrinted(Render(es, true))
    decreases |es|
  {
    hide JoinKeyValue, EndsPrinted, Open, Faithful, Fresh, Balanced;
    var e, rest := es[0], es[1..];
    var t := Render(rest, true);
    FreshMeans(e);
    if Fresh(e) {
      var line := JoinKeyValue(e.key, e.value, true);
      JoinShape(e.key, e.value, true);
      PrintedEnd(line);
      if rest == [] {
        assert line + [LF] + [] == line + [LF];
      } else {
        RenderEndsInFresh(rest);
        EndsPrintedBehind(line + [LF], t);
      }
    } else {
      RenderEndsInFresh(rest);
      EndsPrintedBehind(e.source, t);
    }
  }

  // --- one more merge ---------------------------------------------------

  /** Adding to a file whose last line is finished makes its text longer. */
  lemma AppendingGrows(es: seq<Element>, k: Text, v: Text)
    requires !HasEntry(es, k)
    requires es != [] ==> EndsWithEol(es[|es| - 1].source) && !IsContinued(es[|es| - 1].source)
    ensures |Render(Assigned(es, k, v), true)| > |Render(es, true)|
    ensures var after := Assigned(es, k, v); after != [] && Fresh(after[|after| - 1])
  {
    hide JoinKeyValue, IsContinued, Render;
    var f := KeyValue(k, v, []);
    RenderOneFresh(f);
    if es == [] {
      assert [] + [f] == [f];
      RenderNone();
    } else {
      var init, last := es[..|es| - 1], es[|es| - 1];
      NotContinuedIsKept(last);
      assert Repaired(last) == last;
      assert init + [last] == es;
      RenderAppend(es, [f]);
    }
  }

  lemma RenderNone()
    ensures Render([], true) == []
  {
  }

  lemma RenderOneFresh(f: Element)
    requires Fresh(f)
    ensures Render([f], true) == JoinKeyValue(f.key, f.value, true) + [LF]
  {
    assert [f][1..] == [];
    assert Render([f], true) == RenderOne(f, true) + Render([f][1..], true);
  }

  lemma {:induction false} RenderAppend(a: seq<Element>, b: seq<Element>)
    ensures Render(a + b, true) == Render(a, true) + Render(b, true)
  {
    hide RenderOne;
    if a == [] {
      assert a + b == b;
    } else {
      assert (a + b)[1..] == a[1..] + b;
      RenderAppend(a[1..], b);
    }
  }

  /** Every further key makes the text longer still. */
  lemma {:induction false} MergingGrows(es: seq<Element>, updates: OrderedDict)
    requires es != [] && Fresh(es[|es| - 1])
    ensures |Render(Merged(es, updates, true), true)| >= |Render(es, true)|
    decreases |updates|
  {
    hide Render, HasEntry, Reassigned;
    if updates != [] {
      var k, v := updates[0].0, updates[0].1;
      if HasEntry(es, k) {
        MergingGrows(es, updates[1..]);
      } else {
        var f := KeyValue(k, v, []);
        assert es[..|es| - 1] + [es[|es| - 1]] == es;
        assert Assigned(es, k, v) == es + [f];
        RenderAppend(es, [f]);
        MergingGrows(es + [f], updates[1..]);
      }
    }
  }

  lemma {:induction false} MissingGrows(es: seq<Element>, updates: OrderedDict)
    requires !AllPresent(es, updates)
    requires es != [] ==> EndsWithEol(es[|es| - 1].source) && !IsContinued(es[|es| - 1].source)
    ensures |Render(Merged(es, updates, true), true)| > |Render(es, true)|
    decreases |updates|
  {
    hide Render, HasEntry, Assigned, IsContinued;
    assert updates != [];
    var k, v := updates[0].0, updates[0].1;
    if HasEntry(es, k) {
      assert !AllPresent(es, updates[1..]) by {
        assert forall p :: p in updates <==> p == updates[0] || p in updates[1..];
      }
      MissingGrows(es, updates[1..]);
    } else {
      AppendingGrows(es, k, v);
      MergingGrows(Assigned(es, k, v), updates[1..]);
    }
  }

  /** The keys a merge adds hold no adjacent halves. */
  predicate AddedKeysPairFree(es: seq<Element>, updates: OrderedDict) {
    forall p :: p in updates && !HasEntry(es, p.0) ==> PairFree(p.0)
  }

  /** When everything is there already, the merge returns its input byte for byte. */
  lemma NothingToAdd(text: Text, updates: OrderedDict)
    requires Parse(text).Ok? && AllPresent(Parse(text).value, updates)
    ensures MergeText(text, updates, true) == Ok(text)
  {
    hide Parse, Sound, Render, Merged, AllPresent;
    PresentChangesNothing(Parse(text).value, updates);
    ParsedIsSound(text, Parse(text).value);
  }

  lemma {:induction false} FreshFromUpdates(es: seq<Element>, updates: OrderedDict, e: Element)
    requires e in Merged(es, updates, true) && Fresh(e) && e !in es
    ensures exists p :: p in updates && p == (e.key, e.value) && !HasEntry(es, p.0)
    decreases |updates|
  {
    hide HasEntry, Assigned;
    var k, v, rest := updates[0].0, updates[0].1, updates[1..];
    var next := if HasEntry(es, k) then es else Assigned(es, k, v);
    AssignedMembers(es, k, v, e);
    if e in next {
      assert updates[0] == (e.key, e.value);
    } else {
      FreshFromUpdates(next, rest, e);
      var p :| p in rest && p == (e.key, e.value) && !HasEntry(next, p.0);
      AssignedPresence(es, k, v, p.0);
      assert p in updates;
    }
  }

  lemma MergedPresence(es: seq<Element>, updates: OrderedDict, k: Text)
    requires Sound(es) && IsDict(updates)
    ensures HasEntry(Merged(es, updates, true), k) <==> HasEntry(es, k) || HasKey(updates, k)
  {
    hide Sound, HasEntry, DictOf, Entries, Merged, MergedDict, IsDict;
    MergedIsSound(es, updates, true);
    MergedDictIsOverride(DictOf(Entries(es)), updates, true);
    PresenceAgrees(es, k);
    PresenceAgrees(Merged(es, updates, true), k);
  }

  lemma {:induction false} MergedEndsFresh(es: seq<Element>, updates: OrderedDict)
    requires !AllPresent(es, updates) || (es != [] && Fresh(es[|es| - 1]))
    ensures var m := Merged(es, updates, true); m != [] && Fresh(m[|m| - 1])
    decreases |updates|
  {
    hide HasEntry, Assigned, AllPresent, Fresh;
    if updates == [] {
      NothingIsPresent(es);
    } else {
      var k, v, rest := updates[0].0, updates[0].1, updates[1..];
      PresentStep(es, updates);
      if HasEntry(es, k) {
        MergedEndsFresh(es, rest);
      } else {
        AssignedEndsFresh(es, k, v);
        MergedEndsFresh(Assigned(es, k, v), rest);
      }
    }
  }

  lemma NothingIsPresent(es: seq<Element>)
    ensures AllPresent(es, [])
  {
  }

  lemma PresentStep(es: seq<Element>, updates: OrderedDict)
    requires updates != []
    ensures AllPresent(es, updates) <==> HasEntry(es, updates[0].0) && AllPresent(es, updates[1..])
  {
    hide HasEntry;
    assert forall p :: p in updates <==> p == updates[0] || p in updates[1..];
  }

  lemma AssignedEndsFresh(es: seq<Element>, k: Text, v: Text)
    requires !HasEntry(es, k)
    ensures var next := Assigned(es, k, v); next != [] && Fresh(next[|next| - 1])
  {
    hide Repaired;
  }

  lemma AddedKeysAreKept(es: seq<Element>, updates: OrderedDict)
    requires (forall i :: 0 <= i < |es| ==> !Fresh(es[i])) && AddedKeysPairFree(es, updates)
    ensures AllKeysPairFree(Merged(es, updates, true))
  {
    hide HasEntry, PairFree, Merged;
    forall e | e in Merged(es, updates, true) && Fresh(e)
      ensures PairFree(e.key)
    {
      FreshFromUpdates(es, updates, e);
    }
  }

  /** What a reparse still knows of a merged file: all of its keys, or not the first that was swallowed. */
  lemma ReparsedKeys(m: seq<Element>, k: Text)
    requires Sound(m) && AllKeysPairFree(m) && Parse(Render(m, true)).Ok?
    ensures !Swallowing(m) ==> (HasEntry(Parse(Render(m, true)).value, k) <==> HasEntry(m, k))
    ensures Swallowing(m) && k == LostKey(m) ==> !HasEntry(Parse(Render(m, true)).value, k)
  {
    hide Parse, Sound, Render, HasEntry, Swallowing, AllKeysPairFree, LostKey;
    HasEntryOccurs(Parse(Render(m, true)).value, k);
    HasEntryOccurs(m, k);
    if Swallowing(m) {
      SwallowedKeyIsLost(m, true);
    } else {
      RenderParses(m, true);
      PrintedKeys(m, k);
    }
  }

  /** After adding, every update is found again exactly when no key was changed and none was swallowed. */
  lemma AllFoundAgainIff(text: Text, updates: OrderedDict)
    requires Parse(text).Ok? && IsDict(updates)
    requires Parse(MergeText(text, updates, true).value).Ok?
    ensures var es := Parse(text).value;
            AllPresent(Parse(MergeText(text, updates, true).value).value, updates)
            <==> AddedKeysPairFree(es, updates) && !Swallowing(Merged(es, updates, true))
  {
    hide Parse, Sound, Render, HasEntry, Swallowing, Merged, IsDict, AllKeysPairFree, PairFree, LostKey, Open;
    var es := Parse(text).value;
    var m := Merged(es, updates, true);
    var again := Parse(Render(m, true)).value;
    ParsedIsSound(text, es);
    MergedIsSound(es, updates, true);
    if !AddedKeysPairFree(es, updates) {
      var p :| p in updates && !HasEntry(es, p.0) && !PairFree(p.0);
      PresenceAgrees(again, p.0);
      if HasEntry(again, p.0) {
        LoadedIsPairFree(Render(m, true), p.0);
      }
    } else {
      AddedKeysAreKept(es, updates);
      if Swallowing(m) {
        LostUpdate(es, updates);
      } else {
        forall p | p in updates
          ensures HasEntry(again, p.0)
        {
          ReparsedKeys(m, p.0);
          MergedPresence(es, updates, p.0);
          InIsKey(updates, p);
        }
      }
    }
  }

  lemma LostUpdate(es: seq<Element>, updates: OrderedDict)
    requires (forall i :: 0 <= i < |es| ==> !Fresh(es[i])) && Sound(es) && IsDict(updates)
    requires var m := Merged(es, updates, true);
             Sound(m) && AllKeysPairFree(m) && Swallowing(m) && Parse(Render(m, true)).Ok?
    ensures !AllPresent(Parse(Render(Merged(es, updates, true), true)).value, updates)
  {
    hide Parse, Sound, Render, HasEntry, Swallowing, Merged, IsDict, AllKeysPairFree, LostKey;
    var m := Merged(es, updates, true);
    LostKeyIsFresh(m);
    var e :| e in m && Fresh(e) && IsKey(e, LostKey(m));
    FreshFromUpdates(es, updates, e);
    ReparsedKeys(m, e.key);
  }

  /** Merging with `only_if_absent` twice is merging once, byte for byte, if and only if the keys it adds hold no
      adjacent surrogate halves and it buries no line. */
  lemma MergeTwiceIff(text: Text, updates: OrderedDict)
    requires Parse(text).Ok? && IsDict(updates)
    ensures var es := Parse(text).value;
            var once := MergeText(text, updates, true).value;
            MergeText(once, updates, true) == Ok(once)
            <==> AddedKeysPairFree(es, updates) && !BuriesLine(es, updates, true)
  {
    hide Parse, Sound, Render, Swallowing, Merged, IsDict, HasEntry, Hollow, Open, AddedKeysPairFree, EndsPrinted;
    var es := Parse(text).value;
    var m := Merged(es, updates, true);
    var once := Render(m, true);
    ParsedIsSound(text, es);
    MergeSwallowsIff(text, updates, true);
    if AllPresent(es, updates) {
      NothingToAdd(text, updates);
      NothingAdded(es, updates);
    } else {
      MergedIsSound(es, updates, true);
      MergedEndsFresh(es, updates);
      RenderEndsInFresh(m);
      EndsPrintedMeans(once);
      if Parse(once).Ok? {
        AllFoundAgainIff(text, updates);
        var again := Parse(once).value;
        LastElementEnds(once);
        ParsedIsSound(once, again);
        if AllPresent(again, updates) {
          NothingToAdd(once, updates);
        } else {
          MissingGrows(again, updates);
        }
      } else {
        OnlySwallowingBreaks(m);
      }
    }
  }

  lemma NothingAdded(es: seq<Element>, updates: OrderedDict)
    requires AllPresent(es, updates)
    ensures AddedKeysPairFree(es, updates) && !Appends(es, updates)
  {
  }

  lemma OnlySwallowingBreaks(m: seq<Element>)
    requires Sound(m) && Parse(Render(m, true)).Err?
    ensures Swallowing(m)
  {
    hide Parse, Sound, Render, Swallowing;
    if !Swallowing(m) {
      RenderParses(m, true);
    }
  }
}
