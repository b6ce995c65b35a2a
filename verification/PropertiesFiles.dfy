/** The mutable `PropertiesFile`: a linked list of source lines and an index from keys to their nodes. */
module PropertiesFiles {
  import opened Sequences
  import opened Wrappers
  import opened Chars
  import opened OrderedDicts
  import opened Regexes
  import opened Reading
  import opened Writing
  import opened Edits
  import opened FileStates
  import opened LinkedLists
  import opened NodeIndex

  /** `_check`: the index lists the keys in order of first occurrence and, for each, exactly its nodes in file order. */
  ghost predicate Indexed(cells: seq<Line>, order: seq<Text>, key2nodes: map<Text, seq<Node>>) {
    && order == Keys(DictOf(Entries(Values(cells))))
    && (forall k :: k in key2nodes <==> HasEntry(Values(cells), k))
    && (forall k :: k in key2nodes ==> key2nodes[k] == NodesOf(cells, k))
  }

  /** Whether a key is present is the same question of the file, its entries and its dict. */
  lemma PresenceAgrees(es: seq<Element>, k: Text)
    ensures HasEntry(es, k) <==> HasKey(DictOf(Entries(es)), k)
  {
    HasEntryOccurs(es, k);
    DictHasOccurring(Entries(es), k);
  }

  lemma HasEntryAppend(es: seq<Element>, e: Element, k: Text)
    ensures HasEntry(es + [e], k) <==> HasEntry(es, k) || IsKey(e, k)
  {
    var all := es + [e];
    assert all[|es|] == e;
    if HasEntry(es, k) {
      var i :| 0 <= i < |es| && IsKey(es[i], k);
      assert all[i] == es[i];
    }
  }

  lemma EntriesSnoc(es: seq<Element>, e: Element)
    ensures Entries(es + [e]) == Entries(es) + EntryOf(e)
  {
    EntriesAppend(es, [e]);
    EntriesOne(e);
  }

  /** An element put behind the others and entered in the index under its key. */
  lemma IndexAppend(cells: seq<Line>, c: Line, order: seq<Text>, key2nodes: map<Text, seq<Node>>)
    requires Indexed(cells, order, key2nodes)
    ensures Values(cells + [c]) == Values(cells) + [c.1]
    ensures !c.1.KeyValue? ==> Indexed(cells + [c], order, key2nodes)
    ensures c.1.KeyValue? ==>
              var k := c.1.key;
              var nodes := if k in key2nodes then key2nodes[k] else [];
              Indexed(cells + [c], if k in key2nodes then order else order + [k], key2nodes[k := nodes + [c.0]])
  {
    hide DictOf, AsMap, Keys, Put, Entries, Values, NodesOf, HasEntry;
    var es, e := Values(cells), c.1;
    ValuesAppend(cells, [c]);
    EntriesSnoc(es, e);
    forall k
      ensures HasEntry(es + [e], k) <==> HasEntry(es, k) || IsKey(e, k)
      ensures NodesOf(cells + [c], k) == NodesOf(cells, k) + if IsKey(e, k) then [c.0] else []
      ensures NodesOf(cells, k) == [] <==> !HasEntry(es, k)
      ensures Values([c]) == [e]
    {
      OneCell(c, k);
      HasEntryAppend(es, e, k);
      NodesOfAppend(cells, [c], k);
      NodesOfMembers(cells, k);
    }
    OneCell(c, []);
    if e.KeyValue? {
      DictOfSnoc(Entries(es), (e.key, e.value));
      PutPresentKeepsKeys(DictOf(Entries(es)), e.key, e.value);
      PresenceAgrees(es, e.key);
    } else {
      assert Entries(es) + [] == Entries(es);
    }
  }

  /** Repairing the last element changes nothing the index knows. */
  lemma IndexRepaired(cells: seq<Line>, order: seq<Text>, key2nodes: map<Text, seq<Node>>)
    requires Indexed(cells, order, key2nodes) && cells != []
    ensures var last := |cells| - 1;
            var repaired := cells[last := (cells[last].0, Repaired(cells[last].1))];
            && |Values(cells)| == |cells| && Values(cells)[last] == cells[last].1
            && Values(repaired) == Values(cells)[..last] + [Repaired(cells[last].1)]
            && Indexed(repaired, order, key2nodes)
  {
    hide DictOf, Keys, Repaired, Entries, Values, NodesOf, HasEntry;
    var last := |cells| - 1;
    var init, c := cells[..last], cells[last];
    var r: Line := (c.0, Repaired(c.1));
    assert cells == init + [c] && cells[last := r] == init + [r];
    RepairedKeepsKey(c.1);
    ValuesAppend(init, [c]);
    ValuesAppend(init, [r]);
    ValuesLength(init);
    OneCell(c, []);
    OneCell(r, []);
    EntriesSnoc(Values(init), c.1);
    EntriesSnoc(Values(init), r.1);
    forall k
      ensures NodesOf(init + [r], k) == NodesOf(init + [c], k)
      ensures HasEntry(Values(init + [r]), k) <==> HasEntry(Values(init + [c]), k)
    {
      OneCell(c, k);
      OneCell(r, k);
      NodesOfAppend(init, [c], k);
      NodesOfAppend(init, [r], k);
      HasEntryAppend(Values(init), c.1, k);
      HasEntryAppend(Values(init), r.1, k);
    }
  }

  lemma IndexDropped(cells: seq<Line>, order: seq<Text>, key2nodes: map<Text, seq<Node>>, k: Text)
    requires DistinctNodes(cells) && Indexed(cells, order, key2nodes)
    ensures var less := Dropped(cells, NodesOf(cells, k));
            && Values(less) == Deleted(Values(cells), k)
            && Indexed(less, RemoveKey(order, k), key2nodes - {k})
  {
    hide DictOf, Keys, Remove, Dropped, Entries, Values, NodesOf, HasEntry, RemoveKey;
    NodesAreKeys(cells, k);
    var nodes := NodesOf(cells, k);
    DroppedKey(cells, nodes, k);
    var es := Values(cells);
    DeletedIsRemove(es, k);
    RemoveRemovesKey(DictOf(Entries(es)), k);
    forall l
      ensures HasEntry(Deleted(es, k), l) <==> HasEntry(es, l) && l != k
    {
      DeletedPresence(es, k, l);
    }
  }

  lemma {:induction false} DeletedPresence(es: seq<Element>, k: Text, l: Text)
    ensures HasEntry(Deleted(es, k), l) <==> HasEntry(es, l) && l != k
  {
    if es != [] {
      DeletedPresence(es[1..], k, l);
      HasEntryCons(es, l);
      var less := Deleted(es[1..], k);
      if IsKey(es[0], k) {
        assert [] + less == less;
      } else {
        HasEntryCons([es[0]] + less, l);
        assert ([es[0]] + less)[1..] == less;
      }
    }
  }

  lemma IndexReassigned(cells: seq<Line>, order: seq<Text>, key2nodes: map<Text, seq<Node>>, k: Text, v: Text)
    requires DistinctNodes(cells) && Indexed(cells, order, key2nodes) && k in key2nodes
    ensures NodesOf(cells, k) != []
    ensures var after := ReassignedCells(cells, k, v);
            && Values(after) == Reassigned(Values(cells), k, v)
            && Indexed(after, order, key2nodes[k := [key2nodes[k][0]]])
  {
    hide DictOf, Keys, Put, ReassignedCells, Entries, Values, Reassigned, NodesOf, HasEntry, AsMap;
    NodesOfMembers(cells, k);
    ReassignedCellsMean(cells, k, v);
    var es := Values(cells);
    AssignedIsPut(es, k, v);
    PresenceAgrees(es, k);
    PutPresentKeepsKeys(DictOf(Entries(es)), k, v);
    var after := ReassignedCells(cells, k, v);
    forall l
      ensures HasEntry(Values(after), l) <==> HasEntry(es, l)
    {
      NodesOfMembers(after, l);
      NodesOfMembers(cells, l);
    }
  }

  /** What reassigning comes to: which nodes are unlinked, where the first one then stands, and what its new value makes
      of list and index. */
  lemma ReassignPlan(cells: seq<Line>, order: seq<Text>, key2nodes: map<Text, seq<Node>>, k: Text, v: Text)
    returns (i: nat)
    requires DistinctNodes(cells) && Indexed(cells, order, key2nodes) && k in key2nodes
    ensures var nodes := NodesOf(cells, k);
            && nodes != [] && key2nodes[k] == nodes && NoRepeats(nodes[1..])
            && (forall n :: n in nodes[1..] ==> exists j :: 0 <= j < |cells| && cells[j].0 == n)
    ensures var nodes, f := NodesOf(cells, k), KeyValue(k, v, []);
            var d := Dropped(cells, nodes[1..]);
            && i < |d| && d[i].0 == nodes[0]
            && Values(d[i := (nodes[0], f)]) == Reassigned(Values(cells), k, v)
            && Indexed(d[i := (nodes[0], f)], order, key2nodes[k := [nodes[0]]])
  {
    hide Values, Dropped, Reassigned, Replaced, NodesOf, HasEntry, Keys, DictOf;
    NodesOfDistinct(cells, k);
    NodesOfMembers(cells, k);
    IndexReassigned(cells, order, key2nodes, k, v);
    i := FirstStays(cells, k);
    var nodes := NodesOf(cells, k);
    assert forall n :: n in nodes[1..] ==> n in nodes;
    DroppedIsDistinct(cells, nodes[1..]);
    ReplacedIsUpdate(Dropped(cells, nodes[1..]), nodes[0], KeyValue(k, v, []), i);
  }

  /** The last node of a key carries what the dict holds for it. */
  lemma {:induction false} LastNodeHoldsValue(cells: seq<Line>, k: Text) returns (i: nat)
    requires HasEntry(Values(cells), k)
    ensures i < |cells| && NodesOf(cells, k) != [] && cells[i].0 == NodesOf(cells, k)[|NodesOf(cells, k)| - 1]
    ensures IsKey(cells[i].1, k)
    ensures var m := AsMap(DictOf(Entries(Values(cells)))); k in m && m[k] == cells[i].1.value
  {
    hide DictOf, AsMap, Put, Entries, HasEntry, NodesOf, Values;
    NodesOfMembers(cells, k);
    ValuesOfNothing();
    NothingHasNone(k);
    var init, c := cells[..|cells| - 1], cells[|cells| - 1];
    assert cells == init + [c];
    ValuesAppend(init, [c]);
    NodesOfAppend(init, [c], k);
    OneCell(c, k);
    HasEntryAppend(Values(init), c.1, k);
    EntriesSnoc(Values(init), c.1);
    if c.1.KeyValue? {
      DictOfSnoc(Entries(Values(init)), (c.1.key, c.1.value));
      PutIsUpdate(DictOf(Entries(Values(init))), c.1.key, c.1.value);
    } else {
      assert Entries(Values(init)) + [] == Entries(Values(init));
    }
    if IsKey(c.1, k) {
      i := |init|;
    } else {
      i := LastNodeHoldsValue(init, k);
    }
  }

  class PropertiesFile {
    /** The `OrderedDict` of the source: its keys in order, and what each maps to. */
    var order: seq<Text>
    var key2nodes: map<Text, seq<Node>>
    const lines: LinkedList<Element>

    /** List and index agree. */
    ghost predicate Consistent()
      reads this, lines, lines.Nodes()
    {
      lines.Valid() && this !in lines.Nodes() && Indexed(lines.cells, order, key2nodes)
    }

    ghost predicate Valid()
      reads this, lines, lines.Nodes()
    {
      Consistent() && Sound(Contents())
    }

    /** The elements in file order. */
    ghost function Contents(): seq<Element>
      reads lines
    {
      Values(lines.cells)
    }

    /** The ordered dict the file stands for. */
    ghost function Dict(): OrderedDict
      reads lines
    {
      DictOf(Entries(Contents()))
    }

    ghost function Repr(): set<object>
      reads this, lines
    {
      {this, lines} + lines.Nodes()
    }

    constructor ()
      ensures Valid() && Contents() == [] && fresh(Repr())
    {
      order, key2nodes := [], map[];
      lines := new LinkedList();
    }

    /** The body of the loops in `load` and `copy`: append the element, and its node to its key's nodes. */
    method AppendElement(e: Element)
      requires Consistent()
      modifies Repr()
      ensures Consistent() && fresh(Repr() - old(Repr()))
      ensures Contents() == old(Contents()) + [e]
    {
      hide Indexed;
      ghost var before := lines.cells;
      var n := lines.Append(e);
      assert lines.Valid() && this !in lines.Nodes();
      IndexAppend(before, (n, e), order, key2nodes);
      ghost var index := key2nodes;
      if e.KeyValue? {
        if e.key !in key2nodes {
          order := order + [e.key];
          key2nodes := key2nodes[e.key := []];
        }
        key2nodes := key2nodes[e.key := key2nodes[e.key] + [n]];
        assert key2nodes == index[e.key := (if e.key in index then index[e.key] else []) + [n]];
      }
    }

    method GetItem(key: Text) returns (r: Option<Text>)
      requires Valid()
      ensures r == if HasKey(Dict(), key) then Some(AsMap(Dict())[key]) else None
    {
      hide DictOf, AsMap, Entries, Sound, NodesOf, Values;
      PresenceAgrees(Contents(), key);
      if key !in key2nodes {
        return None;
      }
      ghost var i := LastNodeHoldsValue(lines.cells, key);
      var nodes := key2nodes[key];
      assert lines.Linked(i);
      return Some(nodes[|nodes| - 1].value.value);
    }

    /** `__iter__` and `__len__` read the order of the index. */
    method Iterate() returns (keys: seq<Text>)
      requires Valid()
      ensures keys == Keys(Dict())
    {
      keys := order;
    }

    method UnlinkAll(nodes: seq<Node>)
      requires lines.Valid() && NoRepeats(nodes)
      requires forall n :: n in nodes ==> exists i :: 0 <= i < |lines.cells| && lines.cells[i].0 == n
      modifies lines, lines.Nodes()
      ensures lines.Valid() && lines.cells == Dropped(old(lines.cells), nodes)
      ensures lines.Nodes() <= old(lines.Nodes())
    {
      hide Dropped, NoRepeats;
      ghost var before := lines.cells;
      DroppedNothing(before);
      for m := 0 to |nodes|
        invariant lines.Valid() && lines.Nodes() <= old(lines.Nodes())
        invariant lines.cells == Dropped(before, nodes[..m])
      {
        var n := nodes[m];
        ghost var i := StillThere(before, nodes, m);
        assert lines.Linked(i);
        DroppedOneMore(before, nodes[..m], n, i);
        assert nodes[..m + 1] == nodes[..m] + [n];
        n.Unlink(i);
      }
      assert nodes[..|nodes|] == nodes;
    }

    method DelItem(key: Text) returns (found: bool)
      requires Valid()
      modifies Repr()
      ensures Valid() && fresh(Repr() - old(Repr()))
      ensures found == HasKey(old(Dict()), key)
      ensures Contents() == Deleted(old(Contents()), key)
    {
      hide DictOf, AsMap, Entries, Sound, NodesOf, Values, Deleted, Dropped, Indexed;
      PresenceAgrees(Contents(), key);
      found := HasNodes(key);
      ghost var before := lines.cells;
      IndexDropped(before, order, key2nodes, key);
      DeletedIsSound(Contents(), key);
      if !found {
        AbsentKeyStays(Contents(), key);
        return;
      }
      var nodes := NodesAt(key);
      NodesOfDistinct(before, key);
      NodesOfMembers(before, key);
      UnlinkAll(nodes);
      order := RemoveKey(order, key);
      key2nodes := key2nodes - {key};
    }

    /** The `else` branch of `__setitem__`: update the first occurrence and discard the rest. */
    method Reassign(key: Text, value: Text)
      requires Valid() && HasEntry(Contents(), key)
      modifies Repr()
      ensures Valid() && Repr() <= old(Repr())
      ensures Contents() == Reassigned(old(Contents()), key, value)
    {
      hide Sound, Values, Dropped, Reassigned, Indexed, NodesOf, HasEntry;
      ghost var before := lines.cells;
      var nodes := NodesAt(key);
      IndexKnows(before, order, key2nodes, key);
      ghost var i := ReassignPlan(before, order, key2nodes, key, value);
      ReassignedIsSound(Contents(), key, value);
      var n0 := nodes[0];
      UnlinkAll(nodes[1..]);
      key2nodes := key2nodes[key := [n0]];
      ReplaceValue(n0, KeyValue(key, value, []), i);
    }

    /** `n.value = e` */
    method ReplaceValue(n: Node, e: Element, ghost i: nat)
      requires lines.Valid() && i < |lines.cells| && lines.cells[i].0 == n
      modifies lines`cells, n`value
      ensures lines.Valid() && lines.cells == old(lines.cells)[i := (n, e)]
    {
      assert forall j :: 0 <= j < |lines.cells| ==> lines.Linked(j);
      n.value := e;
      ghost var before := lines.cells;
      lines.cells := before[i := (n, e)];
      forall j | 0 <= j < |lines.cells|
        ensures lines.Linked(j)
      {
        assert old(lines.Linked(j));
        assert before[j] in before;
      }
    }

    /** Makes sure that the last line ends its line and does not end in a continuation. */
    method RepairLast()
      requires Consistent()
      modifies lines, lines.Nodes()
      ensures Consistent() && lines.Nodes() <= old(lines.Nodes())
      ensures var es := old(Contents());
              Contents() == if es == [] then [] else es[..|es| - 1] + [Repaired(es[|es| - 1])]
    {
      hide Values, Indexed, HasEntry, DropContinuation;
      ValuesLength(lines.cells);
      if lines.end != null {
        IndexRepaired(lines.cells, order, key2nodes);
        ghost var last := |lines.cells| - 1;
        assert lines.Linked(last);
        var lastline := lines.end.value;
        var repaired := lastline;
        if !(lastline.KeyValue? && lastline.source == []) {
          var lastsrc := lastline.source;
          if lastline.KeyValue? {
            lastsrc := DropContinuation(lastsrc);
          }
          if !EndsWithEol(lastsrc) {
            lastsrc := lastsrc + [LF];
          }
          repaired := lastline.WithSource(lastsrc);
        }
        ReplaceValue(lines.end, repaired, last);
      }
    }

    /** The `except KeyError` branch of `__setitem__`: repair the last line, then append. */
    method AppendNew(key: Text, value: Text)
      requires Valid() && !HasEntry(Contents(), key)
      modifies Repr()
      ensures Valid() && fresh(Repr() - old(Repr()))
      ensures Contents() == Appended(old(Contents()), key, value)
    {
      hide Sound, Values, Indexed, HasEntry, Repaired;
      AppendedIsSound(Contents(), key, value);
      RepairLast();
      AppendElement(KeyValue(key, value, []));
    }

    /** `self[key] = value` */
    method SetItem(key: Text, value: Text)
      requires Valid()
      modifies Repr()
      ensures Valid() && fresh(Repr() - old(Repr()))
      ensures Contents() == Assigned(old(Contents()), key, value)
    {
      hide Sound, Values, Indexed, HasEntry, Reassigned, Appended;
      var found := HasNodes(key);
      if found {
        Reassign(key, value);
      } else {
        AppendNew(key, value);
      }
    }

    /** `dump`: every line in list order, fresh entries formatted. */
    method Dumps(ensureAscii: bool) returns (s: Text)
      requires Valid()
      ensures s == Render(Contents(), ensureAscii)
    {
      hide Sound, Indexed, Render, RenderOne, Values, JoinKeyValue;
      s := [];
      var n := lines.start;
      ghost var i := 0;
      ghost var cells := lines.cells;
      assert cells[0..] == cells;
      while n != null
        invariant i <= |cells| && n == (if i == |cells| then null else cells[i].0)
        invariant Render(Contents(), ensureAscii) == s + Render(Values(cells[i..]), ensureAscii)
        decreases |cells| - i
      {
        assert lines.Linked(i);
        var line := n.value;
        RenderFrom(cells, i, ensureAscii);
        var text := if line.KeyValue? && line.source == [] then JoinKeyValue(line.key, line.value, ensureAscii) + [LF]
                    else line.source;
        Associates(s, text, Render(Values(cells[i + 1..]), ensureAscii));
        s := s + text;
        n, i := n.next, i + 1;
      }
      RenderNothing(ensureAscii);
      assert cells[i..] == [];
    }

    /** `copy`: the elements of the list, one by one, into a new file. */
    method Copy() returns (dup: PropertiesFile)
      requires Valid()
      ensures dup.Valid() && fresh(dup.Repr())
      ensures dup.Contents() == Contents()
    {
      hide Sound, Indexed, Values;
      ValuesOfNothing();
      dup := new PropertiesFile();
      var n := lines.start;
      ghost var i := 0;
      while n != null
        invariant dup.Consistent() && fresh(dup.Repr())
        invariant i <= |lines.cells| && n == (if i == |lines.cells| then null else lines.cells[i].0)
        invariant dup.Contents() == Values(lines.cells[..i])
        decreases |lines.cells| - i
      {
        assert lines.Linked(i);
        ValuesSnoc(lines.cells, i);
        dup.AppendElement(n.value);
        n, i := n.next, i + 1;
      }
      assert lines.cells[..i] == lines.cells;
    }

    /** `loads`: parse, then enter every element. */
    static method Loads(s: Text) returns (r: Parsed<PropertiesFile>)
      ensures r.Ok? <==> Parse(s).Ok?
      ensures r.Ok? ==> r.value.Valid() && fresh(r.value.Repr()) && r.value.Contents() == Parse(s).value
      ensures r.Err? ==> r.error == Parse(s).error
    {
      hide Sound, Indexed, Values, Parse;
      var parsed := ParseStream(s);
      if parsed.Err? {
        return Err(parsed.error);
      }
      var elements := parsed.value;
      ParsedIsSound(s, elements);
      var obj := new PropertiesFile();
      for i := 0 to |elements|
        invariant obj.Consistent() && fresh(obj.Repr())
        invariant obj.Contents() == elements[..i]
      {
        assert elements[..i + 1] == elements[..i] + [elements[i]];
        obj.AppendElement(elements[i]);
      }
      assert elements[..|elements|] == elements;
      return Ok(obj);
    }

    /** `key in self._key2nodes` */
    method HasNodes(key: Text) returns (found: bool)
      requires Consistent()
      ensures found == HasEntry(Contents(), key)
    {
      found := key in key2nodes;
    }

    /** `self._key2nodes[key]` */
    method NodesAt(key: Text) returns (nodes: seq<Node>)
      requires Consistent() && HasEntry(Contents(), key)
      ensures nodes == NodesOf(lines.cells, key)
    {
      nodes := key2nodes[key];
    }
  }

  lemma IndexKnows(cells: seq<Line>, order: seq<Text>, key2nodes: map<Text, seq<Node>>, k: Text)
    requires Indexed(cells, order, key2nodes) && HasEntry(Values(cells), k)
    ensures k in key2nodes && key2nodes[k] == NodesOf(cells, k)
  {
  }

  /** The first node of a key is still in the list once the others are dropped. */
  lemma FirstStays(cells: seq<Line>, k: Text) returns (i: nat)
    requires DistinctNodes(cells) && NodesOf(cells, k) != []
    ensures var d := Dropped(cells, NodesOf(cells, k)[1..]); i < |d| && d[i].0 == NodesOf(cells, k)[0]
  {
    var nodes := NodesOf(cells, k);
    NodesOfDistinct(cells, k);
    NodesOfMembers(cells, k);
    assert nodes[0] in nodes;
    var j :| 0 <= j < |cells| && cells[j].0 == nodes[0];
    DroppedMembers(cells, nodes[1..], cells[j]);
    var d := Dropped(cells, nodes[1..]);
    i :| 0 <= i < |d| && d[i] == cells[j];
  }

  lemma RenderFrom(cells: seq<Line>, i: nat, ensureAscii: bool)
    requires i < |cells|
    ensures var e := cells[i].1;
            Render(Values(cells[i..]), ensureAscii)
            == (if e.KeyValue? && e.source == [] then JoinKeyValue(e.key, e.value, ensureAscii) + [LF] else e.source)
               + Render(Values(cells[i + 1..]), ensureAscii)
  {
    hide JoinKeyValue;
    var rest := cells[i..];
    assert rest[1..] == cells[i + 1..];
    var es := Values(rest);
    assert es[1..] == Values(rest[1..]);
  }

  lemma RenderNothing(ensureAscii: bool)
    ensures Render(Values([]), ensureAscii) == []
  {
  }

  lemma ValuesOfNothing()
    ensures Values([]) == []
  {
  }

  lemma ValuesSnoc(cells: seq<Line>, i: nat)
    requires i < |cells|
    ensures Values(cells[..i + 1]) == Values(cells[..i]) + [cells[i].1]
  {
    assert cells[..i + 1] == cells[..i] + [cells[i]];
    ValuesAppend(cells[..i], [cells[i]]);
    OneCell(cells[i], []);
  }

  lemma StillThere(cells: seq<Line>, nodes: seq<Node>, m: nat) returns (i: nat)
    requires NoRepeats(nodes) && m < |nodes|
    requires forall n :: n in nodes ==> exists i :: 0 <= i < |cells| && cells[i].0 == n
    ensures var d := Dropped(cells, nodes[..m]); i < |d| && d[i].0 == nodes[m]
  {
    NotYetSeen(nodes, m);
    var n := nodes[m];
    assert n in nodes;
    var j :| 0 <= j < |cells| && cells[j].0 == n;
    DroppedMembers(cells, nodes[..m], cells[j]);
    var d := Dropped(cells, nodes[..m]);
    i :| 0 <= i < |d| && d[i] == cells[j];
  }

  lemma {:induction false} AbsentKeyStays(es: seq<Element>, k: Text)
    requires !HasEntry(es, k)
    ensures Deleted(es, k) == es
  {
    if es != [] {
      HasEntryCons(es, k);
      AbsentKeyStays(es[1..], k);
    }
  }
}
