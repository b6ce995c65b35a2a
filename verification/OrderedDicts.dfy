/** Python's insertion-ordered `dict` and `OrderedDict` from text to text: the reference `PropertiesFile` is held to. */
module OrderedDicts {
  import opened Chars

  /** The items in iteration order. */
  type OrderedDict = seq<(Text, Text)>

  /** `d[k] = v`: a present key keeps its place, a new one goes last. */
  function Put(d: OrderedDict, k: Text, v: Text): OrderedDict {
    if d == [] then [(k, v)]
    else if d[0].0 == k then [(k, v)] + d[1..]
    else [d[0]] + Put(d[1..], k, v)
  }

  /** `del d[k]`, and nothing when `k` is absent. */
  function Remove(d: OrderedDict, k: Text): OrderedDict {
    if d == [] then []
    else if d[0].0 == k then Remove(d[1..], k)
    else [d[0]] + Remove(d[1..], k)
  }

  function Keys(d: OrderedDict): seq<Text> {
    if d == [] then [] else [d[0].0] + Keys(d[1..])
  }

  /** `dict(pairs)`: one assignment per pair, from the left. */
  function DictOf(pairs: seq<(Text, Text)>): OrderedDict {
    if pairs == [] then []
    else
      var last := pairs[|pairs| - 1];
      Put(DictOf(pairs[..|pairs| - 1]), last.0, last.1)
  }

  /** The same items with order forgotten, as `==` on dicts compares them. */
  function AsMap(d: OrderedDict): map<Text, Text> {
    if d == [] then map[] else AsMap(d[1..])[d[0].0 := d[0].1]
  }

  predicate HasKey(d: OrderedDict, k: Text) {
    k in AsMap(d)
  }

  // --- laws -------------------------------------------------------------

  lemma {:induction false} PutIsUpdate(d: OrderedDict, k: Text, v: Text)
    ensures AsMap(Put(d, k, v)) == AsMap(d)[k := v]
  {
    if d != [] && d[0].0 != k {
      PutIsUpdate(d[1..], k, v);
    }
  }

  lemma {:induction false} RemoveIsSubtract(d: OrderedDict, k: Text)
    ensures AsMap(Remove(d, k)) == AsMap(d) - {k}
  {
    if d != [] {
      RemoveIsSubtract(d[1..], k);
    }
  }

  lemma {:induction false} PutPresentKeepsKeys(d: OrderedDict, k: Text, v: Text)
    ensures Keys(Put(d, k, v)) == if HasKey(d, k) then Keys(d) else Keys(d) + [k]
  {
    if d != [] && d[0].0 != k {
      PutPresentKeepsKeys(d[1..], k, v);
    }
  }

  /** The keys without `k`, as `OrderedDict.pop` leaves them. */
  function RemoveKey(keys: seq<Text>, k: Text): seq<Text> {
    if keys == [] then []
    else if keys[0] == k then RemoveKey(keys[1..], k)
    else [keys[0]] + RemoveKey(keys[1..], k)
  }

  lemma {:induction false} RemoveRemovesKey(d: OrderedDict, k: Text)
    ensures Keys(Remove(d, k)) == RemoveKey(Keys(d), k)
  {
    if d != [] {
      RemoveRemovesKey(d[1..], k);
      assert Keys(d)[1..] == Keys(d[1..]);
      if d[0].0 != k {
        assert ([d[0]] + Remove(d[1..], k))[1..] == Remove(d[1..], k);
      }
    }
  }

  lemma {:induction false} PutOverwrites(d: OrderedDict, k: Text, v: Text, w: Text)
    ensures Put(Put(d, k, v), k, w) == Put(d, k, w)
  {
    if d == [] {
      assert [(k, v)][1..] == [];
    } else if d[0].0 != k {
      PutOverwrites(d[1..], k, v, w);
      assert ([d[0]] + Put(d[1..], k, v))[1..] == Put(d[1..], k, v);
    } else {
      assert ([(k, v)] + d[1..])[1..] == d[1..];
    }
  }

  /** Assignments to different keys commute once the first key has its place. */
  lemma {:induction false} PutsCommute(d: OrderedDict, k: Text, v: Text, l: Text, w: Text)
    requires k != l && HasKey(d, k)
    ensures Put(Put(d, k, v), l, w) == Put(Put(d, l, w), k, v)
  {
    var rest := d[1..];
    if d[0].0 == k {
      assert ([(k, v)] + rest)[1..] == rest;
      assert ([d[0]] + Put(rest, l, w))[1..] == Put(rest, l, w);
    } else if d[0].0 == l {
      assert ([(l, w)] + rest)[1..] == rest;
      assert ([d[0]] + Put(rest, k, v))[1..] == Put(rest, k, v);
    } else {
      PutsCommute(rest, k, v, l, w);
      assert ([d[0]] + Put(rest, k, v))[1..] == Put(rest, k, v);
      assert ([d[0]] + Put(rest, l, w))[1..] == Put(rest, l, w);
    }
  }

  lemma {:induction false} RemoveAfterPut(d: OrderedDict, k: Text, l: Text, w: Text)
    ensures Remove(Put(d, l, w), k) == if k == l then Remove(d, k) else Put(Remove(d, k), l, w)
  {
    if d == [] {
      assert [(l, w)][1..] == [];
    } else if d[0].0 == l {
      assert ([(l, w)] + d[1..])[1..] == d[1..];
      if k != l {
        assert ([(l, d[0].1)] + Remove(d[1..], k))[1..] == Remove(d[1..], k);
      }
    } else {
      RemoveAfterPut(d[1..], k, l, w);
      assert ([d[0]] + Put(d[1..], l, w))[1..] == Put(d[1..], l, w);
      if d[0].0 != k {
        assert ([d[0]] + Remove(d[1..], k))[1..] == Remove(d[1..], k);
      }
    }
  }

  // --- editing the pairs a dict is made of ------------------------------

  /** The pairs with the first occurrence of `k` given `v` and the later ones dropped. */
  function Rewrite(pairs: seq<(Text, Text)>, k: Text, v: Text): seq<(Text, Text)> {
    if pairs == [] then []
    else if pairs[0].0 == k then [(k, v)] + Remove(pairs[1..], k)
    else [pairs[0]] + Rewrite(pairs[1..], k, v)
  }

  predicate Occurs(pairs: seq<(Text, Text)>, k: Text) {
    exists i :: 0 <= i < |pairs| && pairs[i].0 == k
  }

  lemma {:induction false} RemoveSnoc(pairs: seq<(Text, Text)>, last: (Text, Text), k: Text)
    ensures Remove(pairs + [last], k) == Remove(pairs, k) + if last.0 == k then [] else [last]
  {
    if pairs == [] {
      assert pairs + [last] == [last] && [last][1..] == [];
    } else {
      assert (pairs + [last])[1..] == pairs[1..] + [last];
      RemoveSnoc(pairs[1..], last, k);
    }
  }

  lemma {:induction false} RewriteSnoc(pairs: seq<(Text, Text)>, last: (Text, Text), k: Text, v: Text)
    ensures Rewrite(pairs + [last], k, v)
         == if last.0 != k then Rewrite(pairs, k, v) + [last]
            else if Occurs(pairs, k) then Rewrite(pairs, k, v)
            else Rewrite(pairs, k, v) + [(k, v)]
  {
    if pairs == [] {
      assert pairs + [last] == [last] && [last][1..] == [];
    } else {
      assert (pairs + [last])[1..] == pairs[1..] + [last];
      assert Occurs(pairs, k) <==> pairs[0].0 == k || Occurs(pairs[1..], k) by {
        OccursCons(pairs, k);
      }
      if pairs[0].0 == k {
        RemoveSnoc(pairs[1..], last, k);
      } else {
        RewriteSnoc(pairs[1..], last, k, v);
      }
    }
  }

  lemma OccursCons(pairs: seq<(Text, Text)>, k: Text)
    requires pairs != []
    ensures Occurs(pairs, k) <==> pairs[0].0 == k || Occurs(pairs[1..], k)
  {
    if Occurs(pairs, k) && pairs[0].0 != k {
      var i :| 0 <= i < |pairs| && pairs[i].0 == k;
      assert pairs[1..][i - 1].0 == k;
    }
    if Occurs(pairs[1..], k) {
      var i :| 0 <= i < |pairs[1..]| && pairs[1..][i].0 == k;
      assert pairs[i + 1].0 == k;
    }
  }

  lemma {:induction false} RewriteAbsent(pairs: seq<(Text, Text)>, k: Text, v: Text)
    requires !Occurs(pairs, k)
    ensures Rewrite(pairs, k, v) == pairs
  {
    if pairs != [] {
      OccursCons(pairs, k);
      RewriteAbsent(pairs[1..], k, v);
    }
  }

  lemma DictOfSnoc(pairs: seq<(Text, Text)>, last: (Text, Text))
    ensures DictOf(pairs + [last]) == Put(DictOf(pairs), last.0, last.1)
  {
    assert (pairs + [last])[..|pairs|] == pairs;
  }

  lemma {:induction false} DictHasOccurring(pairs: seq<(Text, Text)>, k: Text)
    ensures HasKey(DictOf(pairs), k) <==> Occurs(pairs, k)
  {
    if pairs != [] {
      var init, last := pairs[..|pairs| - 1], pairs[|pairs| - 1];
      DictHasOccurring(init, k);
      PutIsUpdate(DictOf(init), last.0, last.1);
      if Occurs(init, k) {
        var i :| 0 <= i < |init| && init[i].0 == k;
        assert pairs[i].0 == k;
      }
      if Occurs(pairs, k) && last.0 != k {
        var i :| 0 <= i < |pairs| && pairs[i].0 == k;
        assert init[i].0 == k;
      }
    }
  }

  /** Deleting a key's pairs deletes the key. */
  lemma {:induction false} DictOfRemove(pairs: seq<(Text, Text)>, k: Text)
    ensures DictOf(Remove(pairs, k)) == Remove(DictOf(pairs), k)
  {
    if pairs != [] {
      var init, last := pairs[..|pairs| - 1], pairs[|pairs| - 1];
      assert pairs == init + [last];
      DictOfRemove(init, k);
      RemoveSnoc(init, last, k);
      RemoveAfterPut(DictOf(init), k, last.0, last.1);
      if last.0 != k {
        DictOfSnoc(Remove(init, k), last);
      } else {
        assert Remove(init, k) + [] == Remove(init, k);
      }
    }
  }

  /** Rewriting a key's first pair and dropping the later ones is assigning to the key. */
  lemma {:induction false} DictOfRewrite(pairs: seq<(Text, Text)>, k: Text, v: Text)
    requires Occurs(pairs, k)
    ensures DictOf(Rewrite(pairs, k, v)) == Put(DictOf(pairs), k, v)
  {
    var init, last := pairs[..|pairs| - 1], pairs[|pairs| - 1];
    assert pairs == init + [last];
    var d := DictOf(init);
    RewriteSnoc(init, last, k, v);
    DictHasOccurring(init, k);
    if Occurs(init, k) {
      DictOfRewrite(init, k, v);
      if last.0 == k {
        PutOverwrites(d, k, last.1, v);
      } else {
        DictOfSnoc(Rewrite(init, k, v), last);
        PutsCommute(d, k, v, last.0, last.1);
      }
    } else {
      LastOccurs(init, last, k);
      RewriteAbsent(init, k, v);
      DictOfSnoc(init, (k, v));
      PutOverwrites(d, k, last.1, v);
    }
  }

  lemma LastOccurs(init: seq<(Text, Text)>, last: (Text, Text), k: Text)
    requires Occurs(init + [last], k) && !Occurs(init, k)
    ensures last.0 == k
  {
    var i :| 0 <= i < |init + [last]| && (init + [last])[i].0 == k;
    if i < |init| {
      assert init[i].0 == k;
    }
  }
}
