/** What a merge leaves alone: the lines it does not rewrite keep their text and their order. */
module Untouched {
  import opened Sequences
  import opened Wrappers
  import opened Chars
  import opened Lines
  import opened Regexes
  import opened OrderedDicts
  import opened Reading
  import opened Writing
  import opened Documents
  import opened SelfDelimiting
  import opened Edits
  import opened Repairs
  import opened FileStates
  import opened Sysprops
  import opened Guarantees

  /** The elements still in their own words, in file order. */
  function Kept(es: seq<Element>): seq<Element> {
    if es == [] then [] else (if Fresh(es[0]) then [] else [es[0]]) + Kept(es[1..])
  }

  /** Those of `kept` that no update rewrites. */
  function Surviving(kept: seq<Element>, es: seq<Element>, updates: OrderedDict, onlyIfAbsent: bool): seq<Element> {
    if kept == [] then []
    else
      (if kept[0].KeyValue? && Rewritten(es, updates, kept[0].key, onlyIfAbsent) then [] else [kept[0]])
      + Surviving(kept[1..], es, updates, onlyIfAbsent)
  }

  lemma {:induction false} KeptAppend(a: seq<Element>, b: seq<Element>)
    ensures Kept(a + b) == Kept(a) + Kept(b)
  {
    if a == [] {
      assert a + b == b;
    } else {
      assert (a + b)[1..] == a[1..] + b;
      KeptAppend(a[1..], b);
    }
  }

  lemma KeptOne(e: Element)
    ensures Kept([e]) == if Fresh(e) then [] else [e]
  {
    assert [e][1..] == [];
  }

  lemma {:induction false} KeptDeleted(es: seq<Element>, k: Text)
    ensures Kept(Deleted(es, k)) == Deleted(Kept(es), k)
  {
    if es != [] {
      var e, rest := es[0], es[1..];
      KeptDeleted(rest, k);
      KeptAppend(if IsKey(e, k) then [] else [e], Deleted(rest, k));
      KeptOne(e);
      DeletedPrepended(e, Kept(rest), k);
      assert [] + Kept(rest) == Kept(rest);
    }
  }

  lemma DeletedPrepended(e: Element, rest: seq<Element>, k: Text)
    ensures Deleted([e] + rest, k) == (if IsKey(e, k) then [] else [e]) + Deleted(rest, k)
    ensures Kept([]) == []
  {
    assert ([e] + rest)[1..] == rest;
  }

  lemma {:induction false} KeptReassigned(es: seq<Element>, k: Text, v: Text)
    ensures Kept(Reassigned(es, k, v)) == Deleted(Kept(es), k)
  {
    if es != [] {
      var e, rest := es[0], es[1..];
      DeletedPrepended(e, Kept(rest), k);
      assert [] + Kept(rest) == Kept(rest);
      if IsKey(e, k) {
        KeptDeleted(rest, k);
        assert ([KeyValue(k, v, [])] + Deleted(rest, k))[1..] == Deleted(rest, k);
      } else {
        KeptReassigned(rest, k, v);
        assert ([e] + Reassigned(rest, k, v))[1..] == Reassigned(rest, k, v);
      }
    }
  }

  /** One update's share of the rewriting, then the others'. */
  lemma {:induction false} SurvivingStep(kept: seq<Element>, es: seq<Element>, updates: OrderedDict, onlyIfAbsent: bool)
    requires IsDict(updates) && updates != []
    ensures var k, rest := updates[0].0, updates[1..];
            var skipped := onlyIfAbsent && HasEntry(es, k);
            var next := if skipped then es else Assigned(es, k, updates[0].1);
            Surviving(kept, es, updates, onlyIfAbsent)
            == Surviving(if skipped then kept else Deleted(kept, k), next, rest, onlyIfAbsent)
    decreases |kept|
  {
    hide Assigned, HasEntry, Rewritten;
    var k, rest := updates[0].0, updates[1..];
    var skipped := onlyIfAbsent && HasEntry(es, k);
    if kept != [] {
      var e, more := kept[0], kept[1..];
      SurvivingStep(more, es, updates, onlyIfAbsent);
      if e.KeyValue? {
        LaterUpdates(es, updates, onlyIfAbsent, e.key);
        RewrittenFirst(es, updates, onlyIfAbsent);
        if skipped && e.key == k {
          NeverRewritten(es, updates, k);
          NeverRewritten(es, rest, k);
        }
      }
      var less := Deleted(more, k);
      assert ([e] + less)[1..] == less;
      assert [] + less == less;
    }
  }

  lemma {:induction false} NothingRewritten(kept: seq<Element>, es: seq<Element>, onlyIfAbsent: bool)
    ensures Surviving(kept, es, [], onlyIfAbsent) == kept
  {
    if kept != [] {
      NothingRewritten(kept[1..], es, onlyIfAbsent);
    }
  }

  lemma {:induction false} NoEntryKept(es: seq<Element>, k: Text)
    requires !HasEntry(es, k)
    ensures Deleted(Kept(es), k) == Kept(es)
  {
    if es != [] {
      HasEntryCons(es, k);
      NoEntryKept(es[1..], k);
      DeletedPrepended(es[0], Kept(es[1..]), k);
      assert [] + Kept(es[1..]) == Kept(es[1..]);
    }
  }

  /** The file with its last line repaired. */
  function LastRepaired(es: seq<Element>): seq<Element> {
    if es == [] then [] else es[..|es| - 1] + [Repaired(es[|es| - 1])]
  }

  function RepairAll(es: seq<Element>): seq<Element> {
    if es == [] then [] else [Repaired(es[0])] + RepairAll(es[1..])
  }

  /** No repair would change an element other than the last. */
  predicate SteadyInit(es: seq<Element>) {
    |es| > 1 ==> Repaired(es[0]) == es[0] && SteadyInit(es[1..])
  }

  lemma {:induction false} SteadyRepairs(es: seq<Element>)
    requires SteadyInit(es)
    ensures RepairAll(es) == LastRepaired(es)
  {
    hide Repaired;
    if |es| == 1 {
      assert es[1..] == [];
    } else if |es| > 1 {
      SteadyRepairs(es[1..]);
      assert es[..|es| - 1] == [es[0]] + es[1..][..|es| - 2];
    }
  }

  lemma {:induction false} DeletedIsSteady(es: seq<Element>, k: Text)
    requires SteadyInit(es)
    ensures SteadyInit(Deleted(es, k))
  {
    hide Repaired;
    if es != [] {
      var less := Deleted(es[1..], k);
      DeletedIsSteady(es[1..], k);
      assert ([es[0]] + less)[1..] == less;
      assert [] + less == less;
    }
  }

  lemma {:induction false} ReassignedIsSteady(es: seq<Element>, k: Text, v: Text)
    requires SteadyInit(es)
    ensures SteadyInit(Reassigned(es, k, v))
  {
    hide Repaired;
    if es != [] {
      var f := KeyValue(k, v, []);
      RepairedKeepsKey(f);
      if IsKey(es[0], k) {
        var less := Deleted(es[1..], k);
        DeletedIsSteady(es[1..], k);
        assert ([f] + less)[1..] == less;
      } else {
        var less := Reassigned(es[1..], k, v);
        ReassignedIsSteady(es[1..], k, v);
        assert ([es[0]] + less)[1..] == less;
      }
    }
  }

  lemma {:induction false} KeptRepaired(es: seq<Element>)
    ensures Kept(RepairAll(es)) == RepairAll(Kept(es))
  {
    hide Repaired;
    if es != [] {
      KeptRepaired(es[1..]);
      RepairedKeepsKey(es[0]);
      var more := RepairAll(es[1..]);
      assert ([Repaired(es[0])] + more)[1..] == more;
      var kept := Kept(es[1..]);
      assert ([es[0]] + kept)[1..] == kept;
      assert [] + kept == kept;
      assert [] + RepairAll(kept) == RepairAll(kept);
    }
  }

  lemma {:induction false} SurvivingRepaired(kept: seq<Element>, es: seq<Element>, updates: OrderedDict,
                                             onlyIfAbsent: bool)
    ensures Surviving(RepairAll(kept), es, updates, onlyIfAbsent) ==
            RepairAll(Surviving(kept, es, updates, onlyIfAbsent))
    decreases |kept|
  {
    hide Repaired, Rewritten;
    if kept != [] {
      SurvivingRepaired(kept[1..], es, updates, onlyIfAbsent);
      RepairedKeepsKey(kept[0]);
      var more := RepairAll(kept[1..]);
      assert ([Repaired(kept[0])] + more)[1..] == more;
      var rest := Surviving(kept[1..], es, updates, onlyIfAbsent);
      assert ([kept[0]] + rest)[1..] == rest;
      assert [] + rest == rest;
      assert [] + RepairAll(rest) == RepairAll(rest);
    }
  }

  lemma KeptAppended(es: seq<Element>, k: Text, v: Text)
    requires SteadyInit(es)
    ensures Kept(Appended(es, k, v)) == RepairAll(Kept(es))
  {
    hide Repaired;
    var f := KeyValue(k, v, []);
    SteadyRepairs(es);
    KeptRepaired(es);
    KeptAppend(LastRepaired(es), [f]);
    KeptOne(f);
    assert Appended(es, k, v) == LastRepaired(es) + [f];
  }

  lemma KeptOfFreshAssigned(es: seq<Element>, k: Text, v: Text)
    requires es != [] && Fresh(es[|es| - 1]) && !IsKey(es[|es| - 1], k)
    ensures Kept(Assigned(es, k, v)) == Deleted(Kept(es), k)
    ensures var next := Assigned(es, k, v); next != [] && Fresh(next[|next| - 1])
  {
    hide HasEntry, Reassigned, Deleted, Kept, Repaired;
    var init, last := es[..|es| - 1], es[|es| - 1];
    assert es == init + [last];
    if HasEntry(es, k) {
      ReassignedSnoc(init, last, k, v);
      KeptReassigned(es, k, v);
    } else {
      var f := KeyValue(k, v, []);
      RepairedKeepsKey(last);
      assert Appended(es, k, v) == es + [f];
      KeptAppend(es, [f]);
      KeptOne(f);
      NoEntryKept(es, k);
    }
  }

  /** Behind a fresh last line no repair ever happens again. */
  lemma {:induction false} KeptOfMergedFresh(es: seq<Element>, updates: OrderedDict, onlyIfAbsent: bool)
    requires es != [] && Fresh(es[|es| - 1]) && IsDict(updates) && FreshApart(es, updates)
    ensures Kept(Merged(es, updates, onlyIfAbsent)) == Surviving(Kept(es), es, updates, onlyIfAbsent)
    decreases |updates|
  {
    hide HasEntry, Assigned, Surviving, Kept, Deleted;
    if updates == [] {
      NothingRewritten(Kept(es), es, onlyIfAbsent);
    } else {
      var k, v, rest := updates[0].0, updates[0].1, updates[1..];
      SurvivingStep(Kept(es), es, updates, onlyIfAbsent);
      StillApart(es, updates);
      assert es[|es| - 1] in es && HasKey(updates, k);
      if onlyIfAbsent && HasEntry(es, k) {
        KeptOfMergedFresh(es, rest, onlyIfAbsent);
      } else {
        KeptOfFreshAssigned(es, k, v);
        KeptOfMergedFresh(Assigned(es, k, v), rest, onlyIfAbsent);
      }
    }
  }

  lemma {:induction false} KeptOfMerged(es: seq<Element>, updates: OrderedDict, onlyIfAbsent: bool)
    requires SteadyInit(es) && IsDict(updates) && FreshApart(es, updates)
    ensures var left := Surviving(Kept(es), es, updates, onlyIfAbsent);
            Kept(Merged(es, updates, onlyIfAbsent)) == if Appends(es, updates) then RepairAll(left) else left
    decreases |updates|
  {
    hide HasEntry, Reassigned, Surviving, Kept, Deleted, Appends, RepairAll, Repaired, SteadyInit;
    if updates == [] {
      NothingAppends(es);
      NothingRewritten(Kept(es), es, onlyIfAbsent);
    } else {
      var k, v, rest := updates[0].0, updates[0].1, updates[1..];
      LaterUpdates(es, updates, onlyIfAbsent, k);
      StillApart(es, updates);
      SurvivingStep(Kept(es), es, updates, onlyIfAbsent);
      if HasEntry(es, k) {
        if !onlyIfAbsent {
          KeptReassigned(es, k, v);
          ReassignedIsSteady(es, k, v);
        }
        KeptOfMerged(if onlyIfAbsent then es else Assigned(es, k, v), rest, onlyIfAbsent);
      } else {
        KeptAppended(es, k, v);
        KeptOfMergedFresh(Assigned(es, k, v), rest, onlyIfAbsent);
        NoEntryKept(es, k);
        SurvivingRepaired(Kept(es), Assigned(es, k, v), rest, onlyIfAbsent);
      }
    }
  }

  /** What a merge does to the text it was given: every line it does not rewrite is still there, in order and in its own
      words; only when it adds a key, the last line may be finished first. */
  lemma MergeKeepsText(text: Text, updates: OrderedDict, onlyIfAbsent: bool)
    requires Parse(text).Ok? && IsDict(updates)
    ensures var es := Parse(text).value;
            Kept(Merged(es, updates, onlyIfAbsent))
            == Surviving(if Appends(es, updates) then LastRepaired(es) else es, es, updates, onlyIfAbsent)
  {
    hide Parse, Sound, Surviving, Appends, RepairAll, Repaired, SteadyInit, Merged, LastRepaired, Open;
    var es := Parse(text).value;
    ParsedIsSound(text, es);
    KeptIsPairFree(es, updates);
    AllKept(es);
    ParsedIsSteady(es);
    SteadyRepairs(es);
    SurvivingRepaired(es, es, updates, onlyIfAbsent);
    KeptOfMerged(es, updates, onlyIfAbsent);
  }

  lemma {:induction false} AllKept(es: seq<Element>)
    requires forall i :: 0 <= i < |es| ==> !Fresh(es[i])
    ensures Kept(es) == es
  {
    if es != [] {
      AllKept(es[1..]);
    }
  }

  /** A parsed line other than the last needs no repair. */
  lemma {:induction false} ParsedIsSteady(es: seq<Element>)
    requires Sound(es) && (forall i :: 0 <= i < |es| ==> !Fresh(es[i]))
    requires forall i :: 0 <= i < |es| - 1 ==> !Open(es[i])
    ensures SteadyInit(es)
  {
    hide Faithful, Repaired, Fresh;
    if |es| > 1 {
      FinishedIsSteady(es[0]);
      ParsedIsSteady(es[1..]);
    }
  }

  lemma FinishedIsSteady(e: Element)
    requires !Fresh(e) && !Open(e) && EndsWithEol(e.source)
    ensures Repaired(e) == e
  {
    NotContinuedIsKept(e);
  }

  // --- exactly when the kept text is exact ----------------------------------------

  /** The repair leaves an element in its own words exactly when it ends its line and, if it is an entry, is not
      continued. */
  lemma RepairedIsSameIff(e: Element)
    requires !Fresh(e)
    ensures Repaired(e) == e <==> EndsWithEol(e.source) && !(e.KeyValue? && IsContinued(e.source))
  {
  }

  /** The merge adds a key behind a last element that it does not rewrite and that is not finished: one that does not
      end its line, or an entry that is continued. */
  predicate FinishesLine(es: seq<Element>, updates: OrderedDict, onlyIfAbsent: bool) {
    && es != [] && Appends(es, updates)
    && var last := es[|es| - 1];
       && !(last.KeyValue? && Rewritten(es, updates, last.key, onlyIfAbsent))
       && (!EndsWithEol(last.source) || (last.KeyValue? && IsContinued(last.source)))
  }

  lemma {:induction false} SurvivingAppend(a: seq<Element>, b: seq<Element>, es: seq<Element>, updates: OrderedDict,
                                           onlyIfAbsent: bool)
    ensures Surviving(a + b, es, updates, onlyIfAbsent) ==
            Surviving(a, es, updates, onlyIfAbsent) + Surviving(b, es, updates, onlyIfAbsent)
  {
    hide Rewritten;
    if a == [] {
      assert a + b == b && [] + Surviving(b, es, updates, onlyIfAbsent) == Surviving(b, es, updates, onlyIfAbsent);
    } else {
      hide *;
      SurvivingAppend(a[1..], b, es, updates, onlyIfAbsent);
      SurvivingPrepended(a[0], a[1..] + b, es, updates, onlyIfAbsent);
      SurvivingPrepended(a[0], a[1..], es, updates, onlyIfAbsent);
      assert a + b == [a[0]] + (a[1..] + b);
      assert a == [a[0]] + a[1..];
      Associates(Surviving([a[0]], es, updates, onlyIfAbsent), Surviving(a[1..], es, updates, onlyIfAbsent),
                 Surviving(b, es, updates, onlyIfAbsent));
    }
  }

  lemma SurvivingPrepended(e: Element, more: seq<Element>, es: seq<Element>, updates: OrderedDict, onlyIfAbsent: bool)
    ensures Surviving([e] + more, es, updates, onlyIfAbsent) ==
            Surviving([e], es, updates, onlyIfAbsent) + Surviving(more, es, updates, onlyIfAbsent)
  {
    hide Rewritten;
    assert ([e] + more)[1..] == more;
    SurvivingOne(e, es, updates, onlyIfAbsent);
  }

  lemma SurvivingOne(e: Element, es: seq<Element>, updates: OrderedDict, onlyIfAbsent: bool)
    ensures Surviving([e], es, updates, onlyIfAbsent) ==
            if e.KeyValue? && Rewritten(es, updates, e.key, onlyIfAbsent) then [] else [e]
  {
    hide Rewritten;
    var one := [e];
    assert one[1..] == [];
  }

  /** The lines a merge does not rewrite keep their exact text if and only if it finishes no line. */
  lemma KeepsExactTextIff(text: Text, updates: OrderedDict, onlyIfAbsent: bool)
    requires Parse(text).Ok? && IsDict(updates)
    ensures var es := Parse(text).value;
            Kept(Merged(es, updates, onlyIfAbsent)) == Surviving(es, es, updates, onlyIfAbsent)
            <==> !FinishesLine(es, updates, onlyIfAbsent)
  {
    hide Parse, Sound, Surviving, Appends, Repaired, Merged, Rewritten, IsContinued, EndsWithEol, Fresh, Open;
    MergeKeepsText(text, updates, onlyIfAbsent);
    var es := Parse(text).value;
    ParsedIsSound(text, es);
    if es != [] {
      var init, last := es[..|es| - 1], es[|es| - 1];
      assert es == init + [last];
      SurvivingAppend(init, [last], es, updates, onlyIfAbsent);
      SurvivingAppend(init, [Repaired(last)], es, updates, onlyIfAbsent);
      SurvivingOne(last, es, updates, onlyIfAbsent);
      SurvivingOne(Repaired(last), es, updates, onlyIfAbsent);
      RepairedKeepsKey(last);
      RepairedIsSameIff(last);
      assert LastRepaired(es) == init + [Repaired(last)];
      LastsDiffer(Surviving(init, es, updates, onlyIfAbsent), last, Repaired(last));
    }
  }

  lemma LastsDiffer(a: seq<Element>, x: Element, y: Element)
    ensures a + [x] == a + [y] <==> x == y
  {
    assert (a + [x])[|a|] == x && (a + [y])[|a|] == y;
  }

  /** The text `a=b` without a line break. */
  function UnfinishedInput(): Text {
    [0x61, EQUALS, 0x62]
  }

  lemma UnfinishedInputParses()
    ensures Parse(UnfinishedInput()) == Ok([KeyValue([0x61], [0x62], UnfinishedInput())])
  {
    hide SplitLines, Span, Join, LogicalElement, IsCommentLine, IsBlankLine, TrailingBackslashes, IsContinued;
    hide DropContinuation, Continues;
    var s := UnfinishedInput();
    var e := KeyValue([0x61], [0x62], s);
    LineIsPhysical(s, []);
    assert s + [] == s;
    PhysicalAlone(s);
    LetterEntry(s);
    UnfinishedLogicalLine();
    WholeSource(s, [s]);
    UnitIsFaithful(e);
  }

  lemma UnfinishedLogicalLine()
    ensures var s := UnfinishedInput(); !IsSimple(s) && Span([s]) == 1 && Join([s]) == s
  {
    hide SplitLines, IsContinued, DropContinuation, RStripEol;
    var s := UnfinishedInput();
    StripOfLine(s, []);
    assert s + [] == s;
    ContinuedWithoutEol(s);
    assert TrailingBackslashes(s) == 0;
    JoinOfOne(s);
  }

  /** Adding any other key to it changes the text of the entry that is there: it gets a line break it did not have. */
  lemma UnfinishedInputChanges(key: Text, value: Text, onlyIfAbsent: bool)
    requires key != [0x61]
    ensures MergeText(UnfinishedInput(), [(key, value)], onlyIfAbsent) ==
            Ok(UnfinishedInput() + [LF] + (JoinKeyValue(key, value, true) + [LF]))
    ensures FinishesLine(Parse(UnfinishedInput()).value, [(key, value)], onlyIfAbsent)
  {
    hide Parse, JoinKeyValue, IsContinued, DropContinuation;
    UnfinishedInputParses();
    var s := UnfinishedInput();
    var e := KeyValue([0x61], [0x62], s);
    var f := KeyValue(key, value, []);
    var updates := [(key, value)];
    OneUpdate(key, value);
    assert updates[1..] == [];
    NotContinuedIsKept(e);
    LetterIsNotContinued();
    assert !HasEntry([e], key);
    assert updates[0] in updates;
    assert Merged([e], updates, onlyIfAbsent) == [e.WithSource(s + [LF])] + [f];
    RenderAppendOne(e.WithSource(s + [LF]), f);
  }

  lemma LetterIsNotContinued()
    ensures !IsContinued(UnfinishedInput())
  {
    var s := UnfinishedInput();
    ContinuedWithoutEol(s);
    assert TrailingBackslashes(s) == 0;
    hide IsContinued;
  }

  lemma RenderAppendOne(e: Element, f: Element)
    ensures Render([e] + [f], true) == RenderOne(e, true) + RenderOne(f, true)
  {
    hide RenderOne;
    var one := [f];
    var none := one[1..];
    assert none == [];
    assert ([e] + one)[1..] == one;
    assert Render(one, true) == RenderOne(f, true) + Render(none, true);
    assert RenderOne(f, true) + [] == RenderOne(f, true);
    assert Render([e] + one, true) == RenderOne(e, true) + Render(one, true);
  }
}
