/** Where a merge puts things: the merged file, element by element. */
module Places {
  import opened Sequences
  import opened Chars
  import opened OrderedDicts
  import opened Reading
  import opened Edits
  import opened FileStates
  import opened Sysprops
  import opened Untouched

  /** The elements with the first entry of each key of `m` given its new value where it stands, the later entries of
      those keys dropped, and everything else left alone. */
  function InPlace(es: seq<Element>, m: map<Text, Text>): seq<Element>
    decreases |es|
  {
    if es == [] then []
    else if es[0].KeyValue? && es[0].key in m then
      DeletedIsShorter(es[1..], es[0].key);
      [KeyValue(es[0].key, m[es[0].key], [])] + InPlace(Deleted(es[1..], es[0].key), m)
    else [es[0]] + InPlace(es[1..], m)
  }

  /** The updates that rewrite entries: none with `only_if_absent`. */
  function Rewriting(updates: OrderedDict, onlyIfAbsent: bool): map<Text, Text> {
    if onlyIfAbsent then map[] else AsMap(updates)
  }

  /** The entries for keys the file lacks, in the order of the updates. */
  function Added(es: seq<Element>, updates: OrderedDict): seq<Element> {
    if updates == [] then []
    else
      (if HasEntry(es, updates[0].0) then [] else [KeyValue(updates[0].0, updates[0].1, [])])
      + Added(es, updates[1..])
  }

  lemma {:induction false} DeletedIsShorter(es: seq<Element>, k: Text)
    ensures |Deleted(es, k)| <= |es|
  {
    if es != [] {
      DeletedIsShorter(es[1..], k);
    }
  }

  // --- sweeping and the single edits ------------------------------------------

  lemma {:induction false} DeletedsCommute(es: seq<Element>, k: Text, l: Text)
    ensures Deleted(Deleted(es, k), l) == Deleted(Deleted(es, l), k)
  {
    if es != [] {
      var e, rest := es[0], es[1..];
      DeletedsCommute(rest, k, l);
      DeletedPrepended(e, Deleted(rest, k), l);
      DeletedPrepended(e, Deleted(rest, l), k);
      assert [] + Deleted(rest, k) == Deleted(rest, k) && [] + Deleted(rest, l) == Deleted(rest, l);
    }
  }

  lemma ReassignedPrepended(e: Element, rest: seq<Element>, k: Text, v: Text)
    ensures Reassigned([e] + rest, k, v) ==
            if IsKey(e, k) then [KeyValue(k, v, [])] + Deleted(rest, k) else [e] + Reassigned(rest, k, v)
  {
    assert ([e] + rest)[1..] == rest;
  }

  lemma {:induction false} DeletedReassigned(es: seq<Element>, k: Text, v: Text, l: Text)
    requires k != l
    ensures Deleted(Reassigned(es, k, v), l) == Reassigned(Deleted(es, l), k, v)
  {
    if es != [] {
      var e, rest := es[0], es[1..];
      DeletedReassigned(rest, k, v, l);
      DeletedsCommute(rest, k, l);
      ReassignedPrepended(e, Deleted(rest, l), k, v);
      DeletedPrepended(KeyValue(k, v, []), Deleted(rest, k), l);
      DeletedPrepended(e, Reassigned(rest, k, v), l);
      assert [] + Deleted(rest, l) == Deleted(rest, l);
      assert [] + Reassigned(Deleted(rest, l), k, v) == Reassigned(Deleted(rest, l), k, v);
    }
  }

  lemma InPlacePrepended(e: Element, rest: seq<Element>, m: map<Text, Text>)
    ensures InPlace([e] + rest, m) ==
            if e.KeyValue? && e.key in m then [KeyValue(e.key, m[e.key], [])] + InPlace(Deleted(rest, e.key), m)
            else [e] + InPlace(rest, m)
  {
    assert ([e] + rest)[1..] == rest;
  }

  lemma {:induction false} DeletedLacks(es: seq<Element>, k: Text, l: Text)
    requires !HasEntry(es, k)
    ensures !HasEntry(Deleted(es, l), k)
  {
    forall x | x in Deleted(es, l)
      ensures !IsKey(x, k)
    {
      DeletedMembers(es, l, x);
    }
  }

  /** An update for a key that is not there rewrites nothing. */
  lemma {:induction false} AbsentIsIrrelevant(es: seq<Element>, k: Text, v: Text, m: map<Text, Text>)
    requires !HasEntry(es, k)
    ensures InPlace(es, m[k := v]) == InPlace(es, m)
    decreases |es|
  {
    hide HasEntry;
    if es != [] {
      var e, rest := es[0], es[1..];
      HasEntryCons(es, k);
      AbsentIsIrrelevant(rest, k, v, m);
      if e.KeyValue? {
        DeletedIsShorter(rest, e.key);
        DeletedLacks(rest, k, e.key);
        AbsentIsIrrelevant(Deleted(rest, e.key), k, v, m);
      }
    }
  }

  lemma {:induction false} NothingInPlace(es: seq<Element>)
    ensures InPlace(es, map[]) == es
  {
    if es != [] {
      NothingInPlace(es[1..]);
    }
  }

  /** Reassigning one key first, and sweeping the others then, is sweeping them all. */
  lemma {:induction false} ReassignedThenSwept(es: seq<Element>, k: Text, v: Text, m: map<Text, Text>)
    requires k !in m
    ensures InPlace(Reassigned(es, k, v), m) == InPlace(es, m[k := v])
    decreases |es|
  {
    hide HasEntry, Deleted;
    if es != [] {
      var e, rest := es[0], es[1..];
      if IsKey(e, k) {
        InPlacePrepended(KeyValue(k, v, []), Deleted(rest, k), m);
        DeletedHasNone(rest, k);
        AbsentIsIrrelevant(Deleted(rest, k), k, v, m);
      } else {
        InPlacePrepended(e, Reassigned(rest, k, v), m);
        ReassignedThenSwept(rest, k, v, m);
        if e.KeyValue? {
          DeletedReassigned(rest, k, v, e.key);
          DeletedIsShorter(rest, e.key);
          ReassignedThenSwept(Deleted(rest, e.key), k, v, m);
        }
      }
    }
  }

  /** A new entry behind the others takes no part in the sweep. */
  lemma {:induction false} SweptSnoc(es: seq<Element>, f: Element, m: map<Text, Text>)
    requires f.KeyValue? && f.key !in m
    ensures InPlace(es + [f], m) == InPlace(es, m) + [f]
    decreases |es|
  {
    hide Deleted;
    if es == [] {
      assert es + [f] == [f] + es;
      InPlacePrepended(f, es, m);
    } else {
      var e, rest := es[0], es[1..];
      assert es + [f] == [e] + (rest + [f]);
      InPlacePrepended(e, rest + [f], m);
      SweptSnoc(rest, f, m);
      if e.KeyValue? && e.key in m {
        ReassignedSnoc(rest, f, e.key, []);
        DeletedIsShorter(rest, e.key);
        SweptSnoc(Deleted(rest, e.key), f, m);
      }
    }
  }

  lemma {:induction false} RepairAllDeleted(es: seq<Element>, k: Text)
    ensures RepairAll(Deleted(es, k)) == Deleted(RepairAll(es), k)
  {
    hide Repaired;
    if es != [] {
      var e, rest := es[0], es[1..];
      RepairAllDeleted(rest, k);
      RepairedKeepsKey(e);
      DeletedPrepended(Repaired(e), RepairAll(rest), k);
      assert ([e] + Deleted(rest, k))[1..] == Deleted(rest, k);
      assert [] + Deleted(rest, k) == Deleted(rest, k);
      assert [] + Deleted(RepairAll(rest), k) == Deleted(RepairAll(rest), k);
    }
  }

  lemma {:induction false} RepairAllReassigned(es: seq<Element>, k: Text, v: Text)
    ensures RepairAll(Reassigned(es, k, v)) == Reassigned(RepairAll(es), k, v)
  {
    hide Repaired;
    if es != [] {
      var e, rest := es[0], es[1..];
      var f := KeyValue(k, v, []);
      RepairAllReassigned(rest, k, v);
      RepairAllDeleted(rest, k);
      RepairedKeepsKey(e);
      RepairedKeepsKey(f);
      ReassignedPrepended(Repaired(e), RepairAll(rest), k, v);
      assert ([f] + Deleted(rest, k))[1..] == Deleted(rest, k);
      assert ([e] + Reassigned(rest, k, v))[1..] == Reassigned(rest, k, v);
    }
  }

  lemma {:induction false} RepairAllPresence(es: seq<Element>, k: Text)
    ensures HasEntry(RepairAll(es), k) <==> HasEntry(es, k)
  {
    hide Repaired, HasEntry;
    if es == [] {
      NothingHasNone(k);
    } else {
      RepairAllPresence(es[1..], k);
      RepairedKeepsKey(es[0]);
      HasEntryCons(es, k);
      var r := RepairAll(es);
      assert r[1..] == RepairAll(es[1..]);
      HasEntryCons(r, k);
    }
  }

  // --- whole merges -------------------------------------------------------------

  lemma {:induction false} AddedAfter(es: seq<Element>, next: seq<Element>, k: Text, updates: OrderedDict)
    requires !HasKey(updates, k)
    requires forall l :: l != k ==> (HasEntry(next, l) <==> HasEntry(es, l))
    ensures Added(next, updates) == Added(es, updates)
  {
    hide HasEntry;
    if updates != [] {
      assert updates[0].0 != k;
      AddedAfter(es, next, k, updates[1..]);
    }
  }

  /** An update to a key that is there adds nothing; one to a key that is not adds its entry. */
  lemma AddedStep(es: seq<Element>, next: seq<Element>, updates: OrderedDict, swept: seq<Element>)
    requires updates != [] && IsDict(updates)
    requires forall l :: l != updates[0].0 ==> (HasEntry(next, l) <==> HasEntry(es, l))
    ensures HasEntry(es, updates[0].0) ==> swept + Added(next, updates[1..]) == swept + Added(es, updates)
    ensures !HasEntry(es, updates[0].0) ==>
              swept + [KeyValue(updates[0].0, updates[0].1, [])] + Added(next, updates[1..]) ==
              swept + Added(es, updates)
  {
    hide HasEntry;
    AddedAfter(es, next, updates[0].0, updates[1..]);
    var more := Added(es, updates[1..]);
    assert [] + more == more;
    assert Added(es, updates) ==
           if HasEntry(es, updates[0].0) then more else [KeyValue(updates[0].0, updates[0].1, [])] + more;
    hide Added;
    Associates(swept, [KeyValue(updates[0].0, updates[0].1, [])], more);
  }

  lemma PresenceAfter(es: seq<Element>, k: Text, v: Text)
    ensures forall l :: l != k ==> (HasEntry(Assigned(es, k, v), l) <==> HasEntry(es, l))
  {
    hide HasEntry, Assigned;
    forall l | l != k
      ensures HasEntry(Assigned(es, k, v), l) <==> HasEntry(es, l)
    {
      AssignedPresence(es, k, v, l);
    }
  }

  /** One update less to sweep for. */
  lemma RewritingStep(es: seq<Element>, updates: OrderedDict, onlyIfAbsent: bool)
    requires updates != [] && IsDict(updates)
    ensures
      var k, v, rest := updates[0].0, updates[0].1, Rewriting(updates[1..], onlyIfAbsent);
      k !in rest && Rewriting(updates, onlyIfAbsent) == if onlyIfAbsent then rest else rest[k := v]
  {
  }

  lemma ReassignedStep(es: seq<Element>, updates: OrderedDict)
    requires updates != [] && IsDict(updates)
    ensures InPlace(Reassigned(es, updates[0].0, updates[0].1), Rewriting(updates[1..], false)) ==
            InPlace(es, Rewriting(updates, false))
  {
    RewritingStep(es, updates, false);
    ReassignedThenSwept(es, updates[0].0, updates[0].1, Rewriting(updates[1..], false));
    hide InPlace, Reassigned;
  }

  lemma AppendedStep(es: seq<Element>, updates: OrderedDict, onlyIfAbsent: bool)
    requires updates != [] && IsDict(updates) && !HasEntry(es, updates[0].0)
    ensures
      var f := KeyValue(updates[0].0, updates[0].1, []);
      InPlace(es + [f], Rewriting(updates[1..], onlyIfAbsent)) == InPlace(es, Rewriting(updates, onlyIfAbsent)) + [f]
  {
    var k, v := updates[0].0, updates[0].1;
    RewritingStep(es, updates, onlyIfAbsent);
    SweptSnoc(es, KeyValue(k, v, []), Rewriting(updates[1..], onlyIfAbsent));
    AbsentIsIrrelevant(es, k, v, Rewriting(updates[1..], onlyIfAbsent));
    hide InPlace, HasEntry;
  }

  /** Behind a fresh last line no repair happens. */
  lemma {:induction false} MergedBehindFresh(es: seq<Element>, updates: OrderedDict, onlyIfAbsent: bool)
    requires es != [] && Fresh(es[|es| - 1]) && IsDict(updates) && FreshApart(es, updates)
    ensures Merged(es, updates, onlyIfAbsent) ==
            InPlace(es, Rewriting(updates, onlyIfAbsent)) + Added(es, updates)
    decreases |updates|
  {
    hide HasEntry, Reassigned, InPlace, Rewriting, Repaired, Added, Fresh;
    if updates == [] {
      NoUpdates(es, onlyIfAbsent);
      NothingAdded(es);
    } else {
      var k, v, rest := updates[0].0, updates[0].1, updates[1..];
      StillApart(es, updates);
      assert es[|es| - 1] in es && HasKey(updates, k);
      hide FreshApart;
      var swept := InPlace(es, Rewriting(updates, onlyIfAbsent));
      if onlyIfAbsent && HasEntry(es, k) {
        MergedBehindFresh(es, rest, onlyIfAbsent);
        SkippedStep(updates);
        AddedStep(es, es, updates, swept);
      } else {
        FreshIsKey(es[|es| - 1]);
        KeptOfFreshAssigned(es, k, v);
        MergedBehindFresh(Assigned(es, k, v), rest, onlyIfAbsent);
        PresenceAfter(es, k, v);
        AddedStep(es, Assigned(es, k, v), updates, swept);
        if HasEntry(es, k) {
          ReassignedStep(es, updates);
        } else {
          FreshLastIsKept(es, k, v);
          AppendedStep(es, updates, onlyIfAbsent);
        }
      }
    }
  }

  lemma FreshIsKey(e: Element)
    requires Fresh(e)
    ensures e.KeyValue?
  {
  }

  lemma NoUpdates(es: seq<Element>, onlyIfAbsent: bool)
    ensures InPlace(es, Rewriting([], onlyIfAbsent)) == es
  {
    NothingInPlace(es);
  }

  lemma SkippedStep(updates: OrderedDict)
    requires updates != []
    ensures Rewriting(updates, true) == Rewriting(updates[1..], true)
  {
  }

  lemma FreshLastIsKept(es: seq<Element>, k: Text, v: Text)
    requires es != [] && Fresh(es[|es| - 1])
    ensures Appended(es, k, v) == es + [KeyValue(k, v, [])]
  {
    RepairedKeepsKey(es[|es| - 1]);
    hide Repaired;
    assert es == es[..|es| - 1] + [es[|es| - 1]];
  }

  lemma {:induction false} MergedFromSteady(es: seq<Element>, updates: OrderedDict, onlyIfAbsent: bool)
    requires SteadyInit(es) && IsDict(updates) && FreshApart(es, updates)
    ensures Merged(es, updates, onlyIfAbsent) ==
            InPlace(if Appends(es, updates) then RepairAll(es) else es, Rewriting(updates, onlyIfAbsent))
            + Added(es, updates)
    decreases |updates|
  {
    hide HasEntry, Reassigned, InPlace, Rewriting, Repaired, Appends, SteadyInit, RepairAll, Added, FreshApart;
    if updates == [] {
      NothingAppends(es);
      NoUpdates(es, onlyIfAbsent);
      NothingAdded(es);
    } else {
      var k, v, rest := updates[0].0, updates[0].1, updates[1..];
      LaterUpdates(es, updates, onlyIfAbsent, k);
      StillApart(es, updates);
      var base := if Appends(es, updates) then RepairAll(es) else es;
      var swept := InPlace(base, Rewriting(updates, onlyIfAbsent));
      if HasEntry(es, k) && onlyIfAbsent {
        MergedFromSteady(es, rest, onlyIfAbsent);
        SkippedStep(updates);
        AddedStep(es, es, updates, swept);
      } else {
        PresenceAfter(es, k, v);
        AddedStep(es, Assigned(es, k, v), updates, swept);
        if HasEntry(es, k) {
          ReassignedIsSteady(es, k, v);
          MergedFromSteady(Assigned(es, k, v), rest, onlyIfAbsent);
          RepairAllReassigned(es, k, v);
          ReassignedStep(base, updates);
        } else {
          SteadyRepairs(es);
          FinishedThenFresh(es, k, v);
          MergedBehindFresh(Assigned(es, k, v), rest, onlyIfAbsent);
          RepairAllPresence(es, k);
          AppendedStep(RepairAll(es), updates, onlyIfAbsent);
        }
      }
    }
  }

  lemma NothingAdded(es: seq<Element>)
    ensures Added(es, []) == []
  {
  }

  lemma FinishedThenFresh(es: seq<Element>, k: Text, v: Text)
    requires !HasEntry(es, k)
    ensures
      var f, next := KeyValue(k, v, []), Assigned(es, k, v);
      next == LastRepaired(es) + [f] && next != [] && Fresh(next[|next| - 1])
  {
    hide Repaired;
  }

  /** The merged file, exactly: each key that is updated is rewritten where its first entry stands and loses its later
      ones; every comment, blank line and other entry stays where it was and as it was; the keys that are new follow in
      the order of the updates; and when there are any, the last line is finished first. */
  lemma MergedInPlace(text: Text, updates: OrderedDict, onlyIfAbsent: bool)
    requires Parse(text).Ok? && IsDict(updates)
    ensures var es := Parse(text).value;
            Merged(es, updates, onlyIfAbsent)
            == InPlace(if Appends(es, updates) then LastRepaired(es) else es, Rewriting(updates, onlyIfAbsent))
               + Added(es, updates)
  {
    hide Parse, Sound, InPlace, Appends, RepairAll, Repaired, SteadyInit, Merged, LastRepaired, Rewriting, Added;
    var es := Parse(text).value;
    ParsedIsSound(text, es);
    KeptIsPairFree(es, updates);
    ParsedIsSteady(es);
    SteadyRepairs(es);
    MergedFromSteady(es, updates, onlyIfAbsent);
  }
}
