/** The value-level meaning of `PropertiesFile`: its elements in file order, and what each operation makes of them. */
module Edits {
  import opened Chars
  import opened Regexes
  import opened OrderedDicts
  import opened Reading
  import opened Writing

  /** New or reassigned, to be formatted when dumped: the source is `_NOSOURCE`. */
  predicate Fresh(e: Element) {
    e.KeyValue? && e.source == []
  }

  /** The text one element is dumped as. */
  function RenderOne(e: Element, ensureAscii: bool): Text {
    if Fresh(e) then JoinKeyValue(e.key, e.value, ensureAscii) + [LF] else e.source
  }

  function Render(es: seq<Element>, ensureAscii: bool): Text {
    if es == [] then [] else RenderOne(es[0], ensureAscii) + Render(es[1..], ensureAscii)
  }

  /** What `__setitem__` does to the last element before a new key is put behind it. */
  function Repaired(e: Element): Element {
    if Fresh(e) then e
    else
      var source := if e.KeyValue? then DropContinuation(e.source) else e.source;
      e.WithSource(if EndsWithEol(source) then source else source + [LF])
  }

  predicate IsKey(e: Element, k: Text) {
    e.KeyValue? && e.key == k
  }

  predicate HasEntry(es: seq<Element>, k: Text) {
    exists i :: 0 <= i < |es| && IsKey(es[i], k)
  }

  /** All elements but the entries for `k`. */
  function Deleted(es: seq<Element>, k: Text): seq<Element> {
    if es == [] then []
    else (if IsKey(es[0], k) then [] else [es[0]]) + Deleted(es[1..], k)
  }

  /** The first entry for `k` reassigned and the later ones dropped. */
  function Reassigned(es: seq<Element>, k: Text, v: Text): seq<Element> {
    if es == [] then []
    else if IsKey(es[0], k) then [KeyValue(k, v, [])] + Deleted(es[1..], k)
    else [es[0]] + Reassigned(es[1..], k, v)
  }

  /** The last element repaired and a new entry put behind it. */
  function Appended(es: seq<Element>, k: Text, v: Text): seq<Element> {
    (if es == [] then [] else es[..|es| - 1] + [Repaired(es[|es| - 1])]) + [KeyValue(k, v, [])]
  }

  /** `pf[k] = v` */
  function Assigned(es: seq<Element>, k: Text, v: Text): seq<Element> {
    if HasEntry(es, k) then Reassigned(es, k, v) else Appended(es, k, v)
  }

  // --- what the dict sees -----------------------------------------------

  lemma {:induction false} EntriesAppend(a: seq<Element>, b: seq<Element>)
    ensures Entries(a + b) == Entries(a) + Entries(b)
  {
    if a == [] {
      assert a + b == b;
    } else {
      assert (a + b)[1..] == a[1..] + b;
      EntriesAppend(a[1..], b);
    }
  }

  lemma EntriesOne(e: Element)
    ensures Entries([e]) == EntryOf(e)
  {
    assert [e][1..] == [];
  }

  lemma {:induction false} HasEntryOccurs(es: seq<Element>, k: Text)
    ensures HasEntry(es, k) <==> Occurs(Entries(es), k)
  {
    if es != [] {
      HasEntryOccurs(es[1..], k);
      HasEntryCons(es, k);
      if es[0].KeyValue? {
        OccursCons(Entries(es), k);
        assert Entries(es)[1..] == Entries(es[1..]);
      } else {
        assert Entries(es) == Entries(es[1..]);
      }
    }
  }

  lemma HasEntryCons(es: seq<Element>, k: Text)
    requires es != []
    ensures HasEntry(es, k) <==> IsKey(es[0], k) || HasEntry(es[1..], k)
  {
    if HasEntry(es, k) && !IsKey(es[0], k) {
      var i :| 0 <= i < |es| && IsKey(es[i], k);
      assert es[1..][i - 1] == es[i];
    }
    if HasEntry(es[1..], k) {
      var i :| 0 <= i < |es[1..]| && IsKey(es[1..][i], k);
      assert es[i + 1] == es[1..][i];
    }
  }

  lemma NothingHasNone(k: Text)
    ensures !HasEntry([], k)
  {
  }

  lemma {:induction false} DeletedHasNone(es: seq<Element>, k: Text)
    ensures !HasEntry(Deleted(es, k), k)
  {
    hide HasEntry, Deleted;
    if es == [] {
      NothingHasNone(k);
      DeletedCase(es, k);
    } else {
      DeletedHasNone(es[1..], k);
      DeletedCase(es, k);
      if !IsKey(es[0], k) {
        HasEntryCons([es[0]] + Deleted(es[1..], k), k);
        assert ([es[0]] + Deleted(es[1..], k))[1..] == Deleted(es[1..], k);
      }
    }
  }

  lemma DeletedCase(es: seq<Element>, k: Text)
    ensures Deleted(es, k) ==
            if es == [] then []
            else if IsKey(es[0], k) then Deleted(es[1..], k)
            else [es[0]] + Deleted(es[1..], k)
  {
    assert es != [] ==> [] + Deleted(es[1..], k) == Deleted(es[1..], k);
  }

  lemma {:induction false} EntriesDeleted(es: seq<Element>, k: Text)
    ensures Entries(Deleted(es, k)) == Remove(Entries(es), k)
  {
    if es != [] {
      EntriesDeleted(es[1..], k);
      var head := if IsKey(es[0], k) then [] else [es[0]];
      EntriesAppend(head, Deleted(es[1..], k));
      EntriesOne(es[0]);
      RemovePrepended(EntryOf(es[0]), Entries(es[1..]), k);
    }
  }

  lemma RemovePrepended(head: seq<(Text, Text)>, rest: seq<(Text, Text)>, k: Text)
    requires |head| <= 1
    ensures Remove(head + rest, k) == (if |head| == 1 && head[0].0 == k then [] else head) + Remove(rest, k)
  {
    if head == [] {
      assert head + rest == rest;
    } else {
      assert (head + rest)[1..] == rest;
    }
  }

  lemma {:induction false} EntriesReassigned(es: seq<Element>, k: Text, v: Text)
    ensures Entries(Reassigned(es, k, v)) == Rewrite(Entries(es), k, v)
  {
    if es != [] {
      var rest := es[1..];
      if IsKey(es[0], k) {
        EntriesDeleted(rest, k);
        assert Entries(es)[1..] == Entries(rest);
        assert ([KeyValue(k, v, [])] + Deleted(rest, k))[1..] == Deleted(rest, k);
      } else {
        EntriesReassigned(rest, k, v);
        assert ([es[0]] + Reassigned(rest, k, v))[1..] == Reassigned(rest, k, v);
        if es[0].KeyValue? {
          assert Entries(es)[1..] == Entries(rest);
        } else {
          assert Entries(es) == Entries(rest);
        }
      }
    }
  }

  lemma EntriesAppended(es: seq<Element>, k: Text, v: Text)
    ensures Entries(Appended(es, k, v)) == Entries(es) + [(k, v)]
  {
    var e := KeyValue(k, v, []);
    EntriesOne(e);
    if es == [] {
      assert [] + [e] == [e];
    } else {
      var init, last := es[..|es| - 1], es[|es| - 1];
      EntriesAppend(init + [Repaired(last)], [e]);
      EntriesAppend(init, [Repaired(last)]);
      EntriesAppend(init, [last]);
      EntriesOne(last);
      EntriesOne(Repaired(last));
      assert es == init + [last];
    }
  }

  /** An assignment to the file is an assignment to the ordered dict it stands for. */
  lemma AssignedIsPut(es: seq<Element>, k: Text, v: Text)
    ensures DictOf(Entries(Assigned(es, k, v))) == Put(DictOf(Entries(es)), k, v)
  {
    HasEntryOccurs(es, k);
    if HasEntry(es, k) {
      EntriesReassigned(es, k, v);
      DictOfRewrite(Entries(es), k, v);
    } else {
      EntriesAppended(es, k, v);
      DictOfSnoc(Entries(es), (k, v));
    }
  }

  /** A deletion from the file is a deletion from the ordered dict it stands for. */
  lemma DeletedIsRemove(es: seq<Element>, k: Text)
    ensures DictOf(Entries(Deleted(es, k))) == Remove(DictOf(Entries(es)), k)
  {
    EntriesDeleted(es, k);
    DictOfRemove(Entries(es), k);
  }
}
