/** What merging writes is ASCII: an ASCII file stays one, whatever keys and values go into it. */
module PlainText {
  import opened Wrappers
  import opened Chars
  import opened Regexes
  import opened Reading
  import opened Writing
  import opened OrderedDicts
  import opened Edits
  import opened FileStates
  import opened Sysprops
  import opened EscapeTables

  predicate IsAscii(s: Text) {
    forall i :: 0 <= i < |s| ==> s[i] < 0x80
  }

  /** What an element holds of the file is ASCII. */
  predicate IsAsciiElement(e: Element) {
    IsAscii(e.source)
  }

  ghost predicate AllAscii(es: seq<Element>) {
    forall e :: e in es ==> IsAsciiElement(e)
  }

  lemma AsciiAppendIff(a: Text, b: Text)
    ensures IsAscii(a + b) <==> IsAscii(a) && IsAscii(b)
  {
    if IsAscii(a + b) {
      forall i | 0 <= i < |b|
        ensures b[i] < 0x80
      {
        assert (a + b)[|a| + i] == b[i];
      }
      forall i | 0 <= i < |a|
        ensures a[i] < 0x80
      {
        assert (a + b)[i] == a[i];
      }
    }
  }

  lemma PlainIsAscii(s: Text)
    requires IsPlainAscii(s)
    ensures IsAscii(s + [LF])
  {
  }

  /** A fresh entry is written as one plain line. */
  lemma FreshIsPlain(e: Element)
    requires Fresh(e)
    ensures exists line :: IsPlainAscii(line) && RenderOne(e, true) == line + [0x0A]
  {
    LineIsPlain(e.key, e.value);
    hide IsPlainAscii, JoinKeyValue;
    assert RenderOne(e, true) == JoinKeyValue(e.key, e.value, true) + [0x0A];
  }

  lemma RenderOneAscii(e: Element)
    ensures IsAscii(RenderOne(e, true)) <==> IsAsciiElement(e)
  {
    if Fresh(e) {
      LineIsPlain(e.key, e.value);
      PlainIsAscii(JoinKeyValue(e.key, e.value, true));
    }
    hide JoinKeyValue, IsPlainAscii;
  }

  /** A file is written in ASCII exactly when what it holds of its input is ASCII. */
  lemma {:induction false} RenderAsciiIff(es: seq<Element>)
    ensures IsAscii(Render(es, true)) <==> AllAscii(es)
  {
    hide IsAscii, RenderOne, IsAsciiElement, Fresh;
    if es == [] {
      assert IsAscii([]) by {
        NothingIsAscii();
      }
    } else {
      RenderAsciiIff(es[1..]);
      RenderOneAscii(es[0]);
      AsciiAppendIff(RenderOne(es[0], true), Render(es[1..], true));
      assert es == [es[0]] + es[1..];
    }
  }

  lemma NothingIsAscii()
    ensures IsAscii([])
  {
  }

  lemma RepairedIsAscii(e: Element)
    requires IsAsciiElement(e)
    ensures IsAsciiElement(Repaired(e))
  {
    var chopped := DropContinuation(e.source);
    assert chopped <= e.source;
    hide DropContinuation;
    assert IsAscii(e.source) ==> IsAscii(chopped);
  }

  lemma AssignedIsAscii(es: seq<Element>, k: Text, v: Text)
    requires AllAscii(es)
    ensures AllAscii(Assigned(es, k, v))
  {
    hide IsAsciiElement, HasEntry, Repaired, Reassigned, Appended;
    var fresh_ := KeyValue(k, v, []);
    assert IsAsciiElement(fresh_) by {
      FreshHoldsNothing(k, v);
    }
    forall x | x in Assigned(es, k, v)
      ensures IsAsciiElement(x)
    {
      if HasEntry(es, k) {
        ReassignedMembers(es, k, v, x);
      } else if x != fresh_ && es != [] {
        var y := AppendedMembers(es, k, v, x);
        RepairedIsAscii(y);
      } else if es == [] {
        AppendedToNothing(k, v);
      }
    }
  }

  lemma FreshHoldsNothing(k: Text, v: Text)
    ensures IsAsciiElement(KeyValue(k, v, []))
  {
  }

  lemma AppendedToNothing(k: Text, v: Text)
    ensures Appended([], k, v) == [KeyValue(k, v, [])]
  {
  }

  lemma {:induction false} MergedIsAscii(es: seq<Element>, updates: OrderedDict, onlyIfAbsent: bool)
    requires AllAscii(es)
    ensures AllAscii(Merged(es, updates, onlyIfAbsent))
    decreases |updates|
  {
    hide AllAscii, HasEntry, Assigned;
    if updates != [] {
      var k, v := updates[0].0, updates[0].1;
      AssignedIsAscii(es, k, v);
      MergedIsAscii(if onlyIfAbsent && HasEntry(es, k) then es else Assigned(es, k, v), updates[1..], onlyIfAbsent);
    }
  }

  /** An ASCII file is still one after any merge, with keys and values of any characters. */
  lemma MergeStaysAscii(existing: Text, updates: OrderedDict, onlyIfAbsent: bool)
    requires IsAscii(existing) && MergeText(existing, updates, onlyIfAbsent).Ok?
    ensures IsAscii(MergeText(existing, updates, onlyIfAbsent).value)
  {
    var es := Parse(existing).value;
    ParsedIsSound(existing, es);
    hide Parse, Sound, IsAscii, Render, Merged;
    RenderAsciiIff(es);
    MergedIsAscii(es, updates, onlyIfAbsent);
    RenderAsciiIff(Merged(es, updates, onlyIfAbsent));
  }
}
