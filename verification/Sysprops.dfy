/** `sysprops.merge`: what it promises of `system.properties`, and exactly when it keeps the promise. */
module Sysprops {
  import opened Wrappers
  import opened Chars
  import opened OrderedDicts
  import opened Reading
  import opened EscapeLaws
  import opened Documents
  import opened SelfDelimiting
  import opened Edits
  import opened Repairs
  import opened FileStates
  import opened Reparse
  import opened Runs
  import opened NodeIndex
  import opened PropertiesFiles

  /** The file after the loop of `merge`. */
  function Merged(es: seq<Element>, updates: OrderedDict, onlyIfAbsent: bool): seq<Element>
    decreases |updates|
  {
    if updates == [] then es
    else
      var k, v := updates[0].0, updates[0].1;
      Merged(if onlyIfAbsent && HasEntry(es, k) then es else Assigned(es, k, v), updates[1..], onlyIfAbsent)
  }

  function MergeText(existing: Text, updates: OrderedDict, onlyIfAbsent: bool): Parsed<Text> {
    var es :- Parse(existing);
    Ok(Render(Merged(es, updates, onlyIfAbsent), true))
  }

  lemma MergedStep(es: seq<Element>, updates: OrderedDict, i: nat, onlyIfAbsent: bool)
    requires i <= |updates|
    ensures Merged(es, updates[i..], onlyIfAbsent)
         == if i == |updates| then es
            else
              var k, v := updates[i].0, updates[i].1;
              Merged(if onlyIfAbsent && HasEntry(es, k) then es else Assigned(es, k, v), updates[i + 1..], onlyIfAbsent)
  {
    hide Assigned, HasEntry;
    if i < |updates| {
      var rest := updates[i..];
      assert rest[0] == updates[i] && rest[1..] == updates[i + 1..];
    }
  }

  method Merge(existing: Option<Text>, updates: OrderedDict, onlyIfAbsent: bool) returns (r: Parsed<Text>)
    ensures r == MergeText(if existing.Some? then existing.value else [], updates, onlyIfAbsent)
  {
    hide Parse, Assigned, Render, Merged, HasEntry, Values, Sound, Indexed;
    var text := [];
    if existing.Some? {
      text := existing.value;
    }
    var loaded := PropertiesFile.Loads(text);
    if loaded.Err? {
      return Err(loaded.error);
    }
    var props := loaded.value;
    ghost var es := Parse(text).value;
    assert updates[0..] == updates;
    for i := 0 to |updates|
      invariant props.Valid() && fresh(props.Repr())
      invariant Merged(es, updates, onlyIfAbsent) == Merged(props.Contents(), updates[i..], onlyIfAbsent)
    {
      MergedStep(props.Contents(), updates, i, onlyIfAbsent);
      var key, value := updates[i].0, updates[i].1;
      var present := props.HasNodes(key);
      if onlyIfAbsent && present {
        continue;
      }
      props.SetItem(key, value);
    }
    MergedStep(props.Contents(), updates, |updates|, onlyIfAbsent);
    var merged := props.Dumps(true);
    return Ok(merged);
  }

  // --- the dict ---------------------------------------------------------

  /** A Python dict: no key twice. */
  predicate IsDict(d: OrderedDict) {
    d != [] ==> !HasKey(d[1..], d[0].0) && IsDict(d[1..])
  }

  /** The loop of `merge` on an ordered dict. */
  function MergedDict(d: OrderedDict, updates: OrderedDict, onlyIfAbsent: bool): OrderedDict
    decreases |updates|
  {
    if updates == [] then d
    else
      var k, v := updates[0].0, updates[0].1;
      MergedDict(if onlyIfAbsent && HasKey(d, k) then d else Put(d, k, v), updates[1..], onlyIfAbsent)
  }

  lemma {:induction false} MergedIsSound(es: seq<Element>, updates: OrderedDict, onlyIfAbsent: bool)
    requires Sound(es)
    ensures Sound(Merged(es, updates, onlyIfAbsent))
    ensures DictOf(Entries(Merged(es, updates, onlyIfAbsent))) == MergedDict(DictOf(Entries(es)), updates, onlyIfAbsent)
    decreases |updates|
  {
    hide Sound, Assigned, HasEntry, HasKey, DictOf, Entries, Put;
    if updates != [] {
      var k, v := updates[0].0, updates[0].1;
      PresenceAgrees(es, k);
      AssignedIsSound(es, k, v);
      AssignedIsPut(es, k, v);
      MergedIsSound(if onlyIfAbsent && HasEntry(es, k) then es else Assigned(es, k, v), updates[1..], onlyIfAbsent);
    }
  }

  /** As a mapping: the updates win, or with `only_if_absent` what was there wins. */
  lemma {:induction false} MergedDictIsOverride(d: OrderedDict, updates: OrderedDict, onlyIfAbsent: bool)
    requires IsDict(updates)
    ensures AsMap(MergedDict(d, updates, onlyIfAbsent))
         == if onlyIfAbsent then AsMap(updates) + AsMap(d) else AsMap(d) + AsMap(updates)
    decreases |updates|
  {
    hide Put;
    if updates != [] {
      var k, v, rest := updates[0].0, updates[0].1, updates[1..];
      PutIsUpdate(d, k, v);
      MergedDictIsOverride(if onlyIfAbsent && HasKey(d, k) then d else Put(d, k, v), rest, onlyIfAbsent);
      OverrideStep(AsMap(d), AsMap(rest), k, v);
    }
  }

  lemma OverrideStep(d: map<Text, Text>, rest: map<Text, Text>, k: Text, v: Text)
    requires k !in rest
    ensures d[k := v] + rest == d + rest[k := v]
    ensures k in d ==> rest + d == rest[k := v] + d
    ensures k !in d ==> rest + d[k := v] == rest[k := v] + d
  {
  }

  // --- which updates reach the file, and in what shape --------------------

  predicate IsApplied(es: seq<Element>, k: Text, onlyIfAbsent: bool) {
    !(onlyIfAbsent && HasEntry(es, k))
  }

  predicate UpdatesPairFree(es: seq<Element>, updates: OrderedDict, onlyIfAbsent: bool) {
    forall p :: p in updates && IsApplied(es, p.0, onlyIfAbsent) ==> PairFree(p.0) && PairFree(p.1)
  }

  lemma AssignedPresence(es: seq<Element>, k: Text, v: Text, l: Text)
    ensures HasEntry(Assigned(es, k, v), l) <==> HasEntry(es, l) || l == k
  {
    hide Assigned, HasEntry, DictOf, Entries, Put;
    PresenceAgrees(es, l);
    PresenceAgrees(Assigned(es, k, v), l);
    AssignedIsPut(es, k, v);
    PutIsUpdate(DictOf(Entries(es)), k, v);
  }

  /** No fresh entry of the file is for a key still to come. */
  predicate FreshApart(es: seq<Element>, updates: OrderedDict) {
    forall e :: e in es && Fresh(e) ==> !HasKey(updates, e.key)
  }

  lemma KeyNotLater(updates: OrderedDict, p: (Text, Text))
    requires IsDict(updates) && updates != [] && p in updates[1..]
    ensures p.0 != updates[0].0
  {
    InIsKey(updates[1..], p);
  }

  lemma {:induction false} InIsKey(d: OrderedDict, p: (Text, Text))
    requires p in d
    ensures HasKey(d, p.0)
  {
    if d[0] != p {
      InIsKey(d[1..], p);
    }
  }

  /** Every element after an assignment: the new entry, one of the old not under its key, or the repaired last. */
  lemma AssignedMembers(es: seq<Element>, k: Text, v: Text, x: Element)
    ensures Fresh(x) ==> (x in Assigned(es, k, v) <==> x == KeyValue(k, v, []) || (x in es && !IsKey(x, k)))
  {
    hide Reassigned, Repaired;
    if HasEntry(es, k) {
      ReassignedMembers(es, k, v, x);
    } else {
      if es != [] {
        var init, last := es[..|es| - 1], es[|es| - 1];
        assert es == init + [last];
        RepairedKeepsKey(last);
        assert last in es;
      }
    }
  }

  lemma AssignedPairFree(es: seq<Element>, k: Text, v: Text)
    requires forall e :: e in es && Fresh(e) ==> e.key != k
    ensures AllPairFree(Assigned(es, k, v)) <==> AllPairFree(es) && PairFree(k) && PairFree(v)
    ensures forall e :: e in Assigned(es, k, v) && Fresh(e) ==> e.key == k || (e in es)
  {
    hide Assigned, PairFree;
    var f := KeyValue(k, v, []);
    AssignedMembers(es, k, v, f);
    forall e | Fresh(e)
      ensures e in Assigned(es, k, v) <==> e == f || e in es
    {
      AssignedMembers(es, k, v, e);
    }
  }

  /** The fresh strings of the merged file are the updates that reached it. */
  lemma {:induction false} MergedPairFree(es: seq<Element>, updates: OrderedDict, onlyIfAbsent: bool)
    requires IsDict(updates) && FreshApart(es, updates)
    ensures AllPairFree(Merged(es, updates, onlyIfAbsent))
       <==> AllPairFree(es) && UpdatesPairFree(es, updates, onlyIfAbsent)
    decreases |updates|
  {
    hide Assigned, HasEntry, PairFree, AllPairFree;
    if updates != [] {
      var k, v, rest := updates[0].0, updates[0].1, updates[1..];
      var next := if onlyIfAbsent && HasEntry(es, k) then es else Assigned(es, k, v);
      assert HasKey(updates, k);
      AssignedPairFree(es, k, v);
      forall p | p in rest
        ensures IsApplied(next, p.0, onlyIfAbsent) <==> IsApplied(es, p.0, onlyIfAbsent)
      {
        KeyNotLater(updates, p);
        AssignedPresence(es, k, v, p.0);
      }
      StillApart(es, updates);
      MergedPairFree(next, rest, onlyIfAbsent);
      assert updates[0] in updates;
      assert forall p :: p in updates <==> p == updates[0] || p in rest;
    }
  }

  lemma StillApart(es: seq<Element>, updates: OrderedDict)
    requires IsDict(updates) && updates != [] && FreshApart(es, updates)
    ensures FreshApart(es, updates[1..])
    ensures FreshApart(Assigned(es, updates[0].0, updates[0].1), updates[1..])
  {
    hide Assigned;
    AssignedPairFree(es, updates[0].0, updates[0].1);
  }

  // --- the line that is swallowed -----------------------------------------

  lemma {:induction false} ReassignedSnoc(init: seq<Element>, z: Element, k: Text, v: Text)
    requires !IsKey(z, k)
    ensures Reassigned(init + [z], k, v) == Reassigned(init, k, v) + [z]
    ensures Deleted(init + [z], k) == Deleted(init, k) + [z]
  {
    var all := init + [z];
    if init == [] {
      assert all == [z] && all[1..] == [];
    } else {
      assert all[1..] == init[1..] + [z];
      ReassignedSnoc(init[1..], z, k, v);
    }
  }

  lemma {:induction false} NoRunawayNoSwallowing(es: seq<Element>)
    requires forall x :: x in es[..if es == [] then 0 else |es| - 1] ==> !Runaway(x)
    ensures !Swallowing(es)
  {
    hide Runaway;
    if |es| > 1 {
      assert es[0] in es[..|es| - 1];
      assert es[..|es| - 1][1..] == es[1..][..|es| - 2];
      forall x | x in es[1..][..|es| - 2]
        ensures !Runaway(x)
      {
        assert x in es[..|es| - 1];
      }
      NoRunawayNoSwallowing(es[1..]);
    }
  }

  lemma {:induction false} RunawaySwallows(es: seq<Element>, x: Element)
    requires es != [] && x in es[..|es| - 1] && Runaway(x)
    ensures Swallowing(es)
  {
    hide Runaway;
    var init := es[..|es| - 1];
    if es[0] != x {
      assert x in init[1..];
      assert init[1..] == es[1..][..|es| - 2];
      RunawaySwallows(es[1..], x);
    }
  }

  /** A closed last element stays closed when repaired, and no comment or blank ever runs away. */
  lemma RepairedRunsAwayIffHollow(e: Element)
    requires Fresh(e) || Faithful(e)
    ensures Runaway(Repaired(e)) <==> !Fresh(e) && Hollow(e)
    ensures !Fresh(e) && Hollow(e) ==> Runaway(e)
  {
    hide Faithful;
    RepairedKeepsKey(e);
    if !Fresh(e) {
      RepairIsFaithful(e);
      RunawayMeans(e);
      RunawayMeans(Repaired(e));
    }
  }

  lemma RunawayMeans(e: Element)
    ensures Runaway(e) <==> !Fresh(e) && e.KeyValue? && Open(e)
    ensures Hollow(e) ==> e.KeyValue? && Open(e)
  {
  }

  /** Nothing runs away. */
  predicate Tame(es: seq<Element>) {
    forall x :: x in es ==> !Runaway(x)
  }

  lemma AssignedIsTame(es: seq<Element>, k: Text, v: Text)
    requires Sound(es) && Tame(es)
    ensures Tame(Assigned(es, k, v))
  {
    hide Runaway, Sound, Reassigned, Repaired;
    var f := KeyValue(k, v, []);
    FreshIsTame(f);
    if HasEntry(es, k) {
      forall x | x in Reassigned(es, k, v)
        ensures !Runaway(x)
      {
        ReassignedMembers(es, k, v, x);
      }
    } else if es != [] {
      var init, last := es[..|es| - 1], es[|es| - 1];
      LastIsSound(es);
      RepairedRunsAwayIffHollow(last);
      assert last in es;
    }
  }

  lemma FreshIsTame(f: Element)
    requires Fresh(f)
    ensures !Runaway(f)
  {
  }

  lemma {:induction false} LastIsSound(es: seq<Element>)
    requires Sound(es) && es != []
    ensures Fresh(es[|es| - 1]) || Faithful(es[|es| - 1])
  {
    hide Faithful, Open;
    if |es| > 1 {
      LastIsSound(es[1..]);
    }
  }

  /** The hollow element `z` has been repaired and buried under fresh entries. */
  predicate Buried(es: seq<Element>, z: Element) {
    && es != [] && Repaired(z) in es && Fresh(es[|es| - 1])
    && forall x :: x in es && Runaway(x) ==> x == Repaired(z)
  }

  lemma BuriedStays(es: seq<Element>, z: Element, k: Text, v: Text)
    requires Sound(es) && Buried(es, z) && z.KeyValue? && !Fresh(z) && z.key != k
    requires HasEntry(es, k) ==> !IsKey(es[|es| - 1], k)
    ensures Buried(Assigned(es, k, v), z)
  {
    hide Runaway, Sound, Reassigned, Repaired;
    var f := KeyValue(k, v, []);
    var init, last := es[..|es| - 1], es[|es| - 1];
    assert es == init + [last];
    FreshIsTame(f);
    RepairedKeepsKey(z);
    RepairedKeepsKey(last);
    if HasEntry(es, k) {
      ReassignedSnoc(init, last, k, v);
      ReassignedMembers(es, k, v, Repaired(z));
      forall x | x in Reassigned(es, k, v) && Runaway(x)
        ensures x == Repaired(z)
      {
        ReassignedMembers(es, k, v, x);
      }
    } else {
      assert Appended(es, k, v) == es + [f];
    }
  }

  lemma BuriedSwallows(es: seq<Element>, z: Element)
    requires Buried(es, z) && Faithful(z) && !Fresh(z)
    ensures Swallowing(es) <==> Hollow(z)
  {
    hide Runaway, Repaired, Hollow, Faithful;
    RepairedRunsAwayIffHollow(z);
    RepairedKeepsKey(z);
    if Hollow(z) {
      var i :| 0 <= i < |es| && es[i] == Repaired(z);
      assert i < |es| - 1;
      assert es[..|es| - 1][i] == Repaired(z);
      RunawaySwallows(es, Repaired(z));
    } else {
      NoRunawayNoSwallowing(es);
    }
  }

  /** Assigning to the key of the element that would run away removes it. */
  lemma ReassignedTames(es: seq<Element>, k: Text, v: Text)
    requires HasEntry(es, k) && forall x :: x in es && Runaway(x) ==> IsKey(x, k)
    ensures Tame(Assigned(es, k, v))
  {
    hide Runaway, Reassigned;
    FreshIsTame(KeyValue(k, v, []));
    forall x | x in Reassigned(es, k, v)
      ensures !Runaway(x)
    {
      ReassignedMembers(es, k, v, x);
    }
  }

  lemma {:induction false} MergedTame(es: seq<Element>, updates: OrderedDict, onlyIfAbsent: bool)
    requires Sound(es) && Tame(es)
    ensures !Swallowing(Merged(es, updates, onlyIfAbsent))
    decreases |updates|
  {
    hide Runaway, Sound, Assigned, HasEntry;
    if updates == [] {
      NoRunawayNoSwallowing(es);
    } else {
      var k, v := updates[0].0, updates[0].1;
      AssignedIsTame(es, k, v);
      AssignedIsSound(es, k, v);
      MergedTame(if onlyIfAbsent && HasEntry(es, k) then es else Assigned(es, k, v), updates[1..], onlyIfAbsent);
    }
  }

  /** Some update is for `k` and is not skipped. */
  predicate Rewritten(es: seq<Element>, updates: OrderedDict, k: Text, onlyIfAbsent: bool) {
    HasKey(updates, k) && IsApplied(es, k, onlyIfAbsent)
  }

  lemma {:induction false} MergedBuried(es: seq<Element>, z: Element, updates: OrderedDict, onlyIfAbsent: bool)
    requires Sound(es) && Buried(es, z) && z.KeyValue? && !Fresh(z) && Faithful(z) && HasEntry(es, z.key)
    requires IsDict(updates) && FreshApart(es, updates)
    ensures Swallowing(Merged(es, updates, onlyIfAbsent))
       <==> Hollow(z) && !Rewritten(es, updates, z.key, onlyIfAbsent)
    decreases |updates|
  {
    hide Runaway, Sound, Assigned, HasEntry, Repaired, Faithful, Hollow;
    if updates == [] {
      BuriedSwallows(es, z);
    } else {
      var k, v, rest := updates[0].0, updates[0].1, updates[1..];
      var next := if onlyIfAbsent && HasEntry(es, k) then es else Assigned(es, k, v);
      assert HasKey(updates, k);
      AssignedIsSound(es, k, v);
      AssignedPresence(es, k, v, z.key);
      StillApart(es, updates);
      if k == z.key && !onlyIfAbsent {
        RepairedKeepsKey(z);
        ReassignedTames(es, k, v);
        MergedTame(next, rest, onlyIfAbsent);
      } else {
        assert es[|es| - 1] in es;
        if k != z.key {
          BuriedStays(es, z, k, v);
        }
        MergedBuried(next, z, rest, onlyIfAbsent);
      }
    }
  }

  /** Some update is for a key the file lacks, so that a line is put behind its last. */
  predicate Appends(es: seq<Element>, updates: OrderedDict) {
    exists p :: p in updates && !HasEntry(es, p.0)
  }

  /** The element `z` is still the last, and only it could run away. */
  predicate Bare(es: seq<Element>, z: Element) {
    && es != [] && es[|es| - 1] == z && !Fresh(z) && Faithful(z)
    && Tame(es[..|es| - 1])
  }

  lemma BareAppended(es: seq<Element>, z: Element, k: Text, v: Text)
    requires Bare(es, z) && !HasEntry(es, k)
    ensures Buried(Assigned(es, k, v), z)
  {
    hide Runaway, Repaired, Faithful;
    FreshIsTame(KeyValue(k, v, []));
    var after := Appended(es, k, v);
    assert after[|es| - 1] == Repaired(z);
  }

  lemma BareReassigned(es: seq<Element>, z: Element, k: Text, v: Text)
    requires Bare(es, z) && HasEntry(es, k)
    ensures IsKey(z, k) ==> Tame(Assigned(es, k, v))
    ensures !IsKey(z, k) ==> Bare(Assigned(es, k, v), z)
  {
    hide Runaway, Reassigned, Faithful;
    var init := es[..|es| - 1];
    assert es == init + [z];
    if IsKey(z, k) {
      ReassignedTames(es, k, v);
    } else {
      ReassignedSnoc(init, z, k, v);
      FreshIsTame(KeyValue(k, v, []));
      var after := Reassigned(init, k, v);
      assert (after + [z])[..|after + [z]| - 1] == after;
      forall x | x in after
        ensures !Runaway(x)
      {
        ReassignedMembers(init, k, v, x);
      }
    }
  }

  /** What one update leaves for the later ones to find. */
  lemma LaterUpdates(es: seq<Element>, updates: OrderedDict, onlyIfAbsent: bool, l: Text)
    requires IsDict(updates) && updates != []
    ensures var k, rest := updates[0].0, updates[1..];
            var next := if onlyIfAbsent && HasEntry(es, k) then es else Assigned(es, k, updates[0].1);
            && (Appends(es, updates) <==> !HasEntry(es, k) || Appends(next, rest))
            && (l != k ==> (Rewritten(es, updates, l, onlyIfAbsent) <==> Rewritten(next, rest, l, onlyIfAbsent)))
  {
    hide Assigned, HasEntry;
    var k, v, rest := updates[0].0, updates[0].1, updates[1..];
    var next := if onlyIfAbsent && HasEntry(es, k) then es else Assigned(es, k, v);
    AssignedPresence(es, k, v, l);
    forall p | p in rest
      ensures HasEntry(next, p.0) <==> HasEntry(es, p.0)
    {
      KeyNotLater(updates, p);
      AssignedPresence(es, k, v, p.0);
    }
    assert forall p :: p in updates <==> p == updates[0] || p in rest;
    if Appends(next, rest) {
      var p :| p in rest && !HasEntry(next, p.0);
      assert p in updates;
    }
  }

  lemma LastIsPresent(es: seq<Element>, z: Element)
    requires es != [] && es[|es| - 1] == z && z.KeyValue?
    ensures HasEntry(es, z.key)
  {
    assert IsKey(es[|es| - 1], z.key);
  }

  lemma BareCommentIsTame(es: seq<Element>, z: Element)
    requires Bare(es, z) && !z.KeyValue?
    ensures Tame(es) && !Hollow(z)
  {
    hide Faithful;
    RunawayMeans(z);
    assert es == es[..|es| - 1] + [z];
  }

  /** A merge buries a line exactly when the file ends in a hollow entry that it does not rewrite and it appends. */
  lemma {:induction false} MergedBare(es: seq<Element>, z: Element, updates: OrderedDict, onlyIfAbsent: bool)
    requires Sound(es) && Bare(es, z) && z.KeyValue? && IsDict(updates) && FreshApart(es, updates)
    ensures Swallowing(Merged(es, updates, onlyIfAbsent))
       <==> Hollow(z) && Appends(es, updates) && !Rewritten(es, updates, z.key, onlyIfAbsent)
    decreases |updates|
  {
    hide Runaway, Sound, Assigned, HasEntry, Repaired, Faithful, Hollow, Appends, Rewritten;
    if updates == [] {
      NothingAppends(es);
      NoRunawayNoSwallowing(es);
    } else {
      var k, v, rest := updates[0].0, updates[0].1, updates[1..];
      var next := if onlyIfAbsent && HasEntry(es, k) then es else Assigned(es, k, v);
      AssignedIsSound(es, k, v);
      StillApart(es, updates);
      LaterUpdates(es, updates, onlyIfAbsent, z.key);
      LastIsPresent(es, z);
      RewrittenFirst(es, updates, onlyIfAbsent);
      if next == es && onlyIfAbsent && HasEntry(es, k) {
        if k == z.key {
          NeverRewritten(es, updates, z.key);
          NeverRewritten(es, rest, z.key);
        }
        MergedBare(es, z, rest, onlyIfAbsent);
      } else if HasEntry(es, k) {
        BareReassigned(es, z, k, v);
        if k == z.key {
          MergedTame(next, rest, onlyIfAbsent);
        } else {
          MergedBare(next, z, rest, onlyIfAbsent);
        }
      } else {
        BareAppended(es, z, k, v);
        AssignedPresence(es, k, v, z.key);
        MergedBuried(next, z, rest, onlyIfAbsent);
      }
    }
  }

  lemma NothingAppends(es: seq<Element>)
    ensures !Appends(es, [])
  {
  }

  lemma RewrittenFirst(es: seq<Element>, updates: OrderedDict, onlyIfAbsent: bool)
    requires updates != []
    ensures IsApplied(es, updates[0].0, onlyIfAbsent) ==> Rewritten(es, updates, updates[0].0, onlyIfAbsent)
  {
  }

  lemma NeverRewritten(es: seq<Element>, updates: OrderedDict, k: Text)
    requires HasEntry(es, k)
    ensures !Rewritten(es, updates, k, true)
  {
  }

  // --- the contract of merge ----------------------------------------------

  /** The file ends in an entry whose last line is a lone backslash, the merge does not rewrite that entry, and it
      adds a key. */
  predicate BuriesLine(es: seq<Element>, updates: OrderedDict, onlyIfAbsent: bool) {
    && es != [] && Hollow(es[|es| - 1])
    && Appends(es, updates) && !Rewritten(es, updates, es[|es| - 1].key, onlyIfAbsent)
  }

  lemma MergeSwallowsIff(text: Text, updates: OrderedDict, onlyIfAbsent: bool)
    requires Parse(text).Ok? && IsDict(updates)
    ensures var es := Parse(text).value;
            Swallowing(Merged(es, updates, onlyIfAbsent)) <==> BuriesLine(es, updates, onlyIfAbsent)
  {
    hide Parse, Sound, Hollow, Faithful, Runaway, Merged, Open, Appends, Rewritten;
    var es := Parse(text).value;
    ParsedIsSound(text, es);
    if es == [] {
      MergedTame(es, updates, onlyIfAbsent);
    } else {
      var z := es[|es| - 1];
      forall x | x in es[..|es| - 1]
        ensures !Runaway(x)
      {
        RunawayMeans(x);
      }
      LastIsSound(es);
      assert Bare(es, z);
      assert FreshApart(es, updates);
      if z.KeyValue? {
        MergedBare(es, z, updates, onlyIfAbsent);
      } else {
        BareCommentIsTame(es, z);
        MergedTame(es, updates, onlyIfAbsent);
      }
    }
  }

  /** The commuting square, with the exact condition under which it commutes: parsing the merged text gives the parsed
      dict overridden by the updates (with `only_if_absent`, extended by them) if and only if the updates that reach the
      file hold no adjacent surrogate halves and the merge buries no line. It then keeps the dict's order as well. */
  lemma MergeCommutesIff(text: Text, updates: OrderedDict, onlyIfAbsent: bool)
    requires Parse(text).Ok? && IsDict(updates)
    ensures MergeText(text, updates, onlyIfAbsent).Ok?
    ensures var es := Parse(text).value;
            var before := AsMap(Loads(text).value);
            var wanted := if onlyIfAbsent then AsMap(updates) + before else before + AsMap(updates);
            var r := Loads(MergeText(text, updates, onlyIfAbsent).value);
            var good := UpdatesPairFree(es, updates, onlyIfAbsent) && !BuriesLine(es, updates, onlyIfAbsent);
            && (r.Ok? && AsMap(r.value) == wanted <==> good)
            && (good ==> r == Ok(MergedDict(Loads(text).value, updates, onlyIfAbsent)))
  {
    hide Parse, Sound, Merged, MergedDict, Swallowing, BuriesLine, UpdatesPairFree, AllPairFree, Render, AsMap;
    var es := Parse(text).value;
    ParsedIsSound(text, es);
    MergedIsSound(es, updates, onlyIfAbsent);
    MergedDictIsOverride(Loads(text).value, updates, onlyIfAbsent);
    MergeSwallowsIff(text, updates, onlyIfAbsent);
    KeptIsPairFree(es, updates);
    MergedPairFree(es, updates, onlyIfAbsent);
    DumpReparsesIff(Merged(es, updates, onlyIfAbsent), true);
  }

  lemma KeptIsPairFree(es: seq<Element>, updates: OrderedDict)
    requires forall i :: 0 <= i < |es| ==> !Fresh(es[i])
    ensures AllPairFree(es) && FreshApart(es, updates)
  {
  }
}
