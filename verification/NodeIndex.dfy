/** The index from keys to nodes, as a function of the list's contents, and how the list's changes move it. */
module NodeIndex {
  import opened Sequences
  import opened Chars
  import opened Reading
  import opened Edits
  import opened LinkedLists

  type Node = LinkedListNode<Element>
  type Line = Cell<Element>

  ghost function Values(cells: seq<Line>): seq<Element> {
    if cells == [] then [] else [cells[0].1] + Values(cells[1..])
  }

  /** The nodes that carry entries for `k`, in file order. */
  ghost function NodesOf(cells: seq<Line>, k: Text): seq<Node> {
    if cells == [] then []
    else (if IsKey(cells[0].1, k) then [cells[0].0] else []) + NodesOf(cells[1..], k)
  }

  ghost predicate DistinctNodes(cells: seq<Line>) {
    forall i, j :: 0 <= i < j < |cells| ==> cells[i].0 != cells[j].0
  }

  /** The cells whose nodes are not among `nodes`. */
  ghost function Dropped(cells: seq<Line>, nodes: seq<Node>): seq<Line> {
    if cells == [] then []
    else (if cells[0].0 in nodes then [] else [cells[0]]) + Dropped(cells[1..], nodes)
  }

  /** The cells with the value of node `n` replaced. */
  ghost function Replaced(cells: seq<Line>, n: Node, e: Element): seq<Line> {
    if cells == [] then []
    else [if cells[0].0 == n then (n, e) else cells[0]] + Replaced(cells[1..], n, e)
  }

  lemma {:induction false} ValuesAppend(a: seq<Line>, b: seq<Line>)
    ensures Values(a + b) == Values(a) + Values(b)
  {
    if a == [] {
      assert a + b == b;
    } else {
      assert (a + b)[1..] == a[1..] + b;
      ValuesAppend(a[1..], b);
    }
  }

  lemma {:induction false} NodesOfAppend(a: seq<Line>, b: seq<Line>, k: Text)
    ensures NodesOf(a + b, k) == NodesOf(a, k) + NodesOf(b, k)
  {
    if a == [] {
      assert a + b == b;
    } else {
      hide *;
      NodesOfAppend(a[1..], b, k);
      AppendHead(a, b);
      NodesOfCons(a[0], a[1..] + b, k);
      NodesOfCons(a[0], a[1..], k);
      assert a == [a[0]] + a[1..];
      Associates(if IsKey(a[0].1, k) then [a[0].0] else [], NodesOf(a[1..], k), NodesOf(b, k));
    }
  }

  lemma NodesOfCons(c: Line, rest: seq<Line>, k: Text)
    ensures NodesOf([c] + rest, k) == (if IsKey(c.1, k) then [c.0] else []) + NodesOf(rest, k)
  {
    assert ([c] + rest)[1..] == rest;
  }

  lemma OneCell(c: Line, k: Text)
    ensures Values([c]) == [c.1]
    ensures NodesOf([c], k) == if IsKey(c.1, k) then [c.0] else []
  {
    var one := [c];
    assert one[1..] == [];
  }

  lemma {:induction false} ValuesLength(cells: seq<Line>)
    ensures |Values(cells)| == |cells|
  {
    if cells != [] {
      ValuesLength(cells[1..]);
    }
  }

  /** A key has nodes exactly when it has an entry, and they are cells of the list that carry entries for it. */
  lemma {:induction false} NodesOfMembers(cells: seq<Line>, k: Text)
    ensures NodesOf(cells, k) != [] <==> HasEntry(Values(cells), k)
    ensures forall n :: n in NodesOf(cells, k) ==>
              exists i :: 0 <= i < |cells| && cells[i].0 == n && IsKey(cells[i].1, k)
    ensures forall i :: 0 <= i < |cells| && IsKey(cells[i].1, k) ==> cells[i].0 in NodesOf(cells, k)
  {
    if cells != [] {
      NodesOfMembers(cells[1..], k);
      HasEntryCons(Values(cells), k);
      assert Values(cells)[1..] == Values(cells[1..]);
      forall n | n in NodesOf(cells[1..], k)
        ensures exists i :: 0 <= i < |cells| && cells[i].0 == n && IsKey(cells[i].1, k)
      {
        var i :| 0 <= i < |cells[1..]| && cells[1..][i].0 == n && IsKey(cells[1..][i].1, k);
        assert cells[i + 1] == cells[1..][i];
      }
      if IsKey(cells[0].1, k) {
        assert cells[0].0 == cells[0].0;
      }
      forall i | 0 <= i < |cells| && IsKey(cells[i].1, k)
        ensures cells[i].0 in NodesOf(cells, k)
      {
        if i > 0 {
          assert cells[i] == cells[1..][i - 1];
        }
      }
    }
  }

  ghost predicate NoRepeats(nodes: seq<Node>) {
    nodes != [] ==> nodes[0] !in nodes[1..] && NoRepeats(nodes[1..])
  }

  lemma {:induction false} NotYetSeen(nodes: seq<Node>, m: nat)
    requires NoRepeats(nodes) && m < |nodes|
    ensures nodes[m] !in nodes[..m]
  {
    if m > 0 {
      NotYetSeen(nodes[1..], m - 1);
      assert nodes[..m] == [nodes[0]] + nodes[1..][..m - 1];
      assert nodes[m] == nodes[1..][m - 1] && nodes[m] in nodes[1..];
    }
  }

  lemma {:induction false} NodesOfDistinct(cells: seq<Line>, k: Text)
    requires DistinctNodes(cells)
    ensures NoRepeats(NodesOf(cells, k))
  {
    if cells != [] {
      NodesOfDistinct(cells[1..], k);
      HeadNotInRest(cells, k);
      var more := NodesOf(cells[1..], k);
      if IsKey(cells[0].1, k) {
        assert ([cells[0].0] + more)[1..] == more;
      } else {
        assert [] + more == more;
      }
    }
  }

  lemma HeadNotInRest(cells: seq<Line>, k: Text)
    requires DistinctNodes(cells) && cells != []
    ensures cells[0].0 !in NodesOf(cells[1..], k)
  {
    HeadIsDistinct(cells);
    NodesOfMembers(cells[1..], k);
    forall i | 0 <= i < |cells[1..]|
      ensures cells[1..][i].0 != cells[0].0
    {
      assert cells[1..][i] in cells[1..];
    }
  }

  lemma HeadIsDistinct(cells: seq<Line>)
    requires DistinctNodes(cells) && cells != []
    ensures forall x :: x in cells[1..] ==> x.0 != cells[0].0
  {
    forall x | x in cells[1..]
      ensures x.0 != cells[0].0
    {
      var j :| 0 <= j < |cells[1..]| && cells[1..][j] == x;
      assert cells[j + 1] == x;
    }
  }

  lemma {:induction false} DroppedMembers(cells: seq<Line>, nodes: seq<Node>, c: Line)
    ensures c in Dropped(cells, nodes) <==> c in cells && c.0 !in nodes
  {
    if cells != [] {
      DroppedMembers(cells[1..], nodes, c);
    }
  }

  lemma {:induction false} DroppedNothing(cells: seq<Line>)
    ensures Dropped(cells, []) == cells
  {
    if cells != [] {
      DroppedNothing(cells[1..]);
    }
  }

  lemma {:induction false} DroppedNone(cells: seq<Line>, nodes: seq<Node>)
    requires forall c :: c in cells ==> c.0 !in nodes
    ensures Dropped(cells, nodes) == cells
  {
    if cells != [] {
      DroppedNone(cells[1..], nodes);
    }
  }

  lemma {:induction false} DroppedTwice(cells: seq<Line>, nodes: seq<Node>, n: Node)
    ensures Dropped(Dropped(cells, nodes), [n]) == Dropped(cells, nodes + [n])
  {
    if cells != [] {
      DroppedTwice(cells[1..], nodes, n);
      var less := Dropped(cells[1..], nodes);
      if cells[0].0 in nodes {
        assert [] + less == less;
      } else {
        assert ([cells[0]] + less)[1..] == less;
      }
    }
  }

  lemma {:induction false} DroppedIsDistinct(cells: seq<Line>, nodes: seq<Node>)
    requires DistinctNodes(cells)
    ensures DistinctNodes(Dropped(cells, nodes))
  {
    if cells != [] {
      var rest := cells[1..];
      HeadIsDistinct(cells);
      TailIsDistinct(cells);
      DroppedIsDistinct(rest, nodes);
      var less := Dropped(rest, nodes);
      hide DistinctNodes, Dropped;
      forall x | x in less
        ensures x.0 != cells[0].0
      {
        DroppedMembers(rest, nodes, x);
      }
      ConsIsDistinct(cells[0], less);
      DroppedCons(cells[0], rest, nodes);
      assert cells == [cells[0]] + rest && [] + less == less;
    }
  }

  lemma TailIsDistinct(cells: seq<Line>)
    requires DistinctNodes(cells) && cells != []
    ensures DistinctNodes(cells[1..])
  {
  }

  lemma ConsIsDistinct(c: Line, cells: seq<Line>)
    requires DistinctNodes(cells) && forall x :: x in cells ==> x.0 != c.0
    ensures DistinctNodes([c] + cells)
  {
  }

  lemma DroppedCons(c: Line, rest: seq<Line>, nodes: seq<Node>)
    ensures Dropped([c] + rest, nodes) == (if c.0 in nodes then [] else [c]) + Dropped(rest, nodes)
  {
    assert ([c] + rest)[1..] == rest;
  }

  lemma {:induction false} DroppedIsCut(cells: seq<Line>, n: Node, i: nat)
    requires DistinctNodes(cells) && i < |cells| && cells[i].0 == n
    ensures Dropped(cells, [n]) == cells[..i] + cells[i + 1..]
  {
    var c, rest := cells[0], cells[1..];
    HeadIsDistinct(cells);
    if i == 0 {
      DroppedNone(rest, [n]);
      assert cells[..0] + rest == rest;
    } else {
      assert rest[i - 1] == cells[i] && cells[i] in rest;
      TailIsDistinct(cells);
      hide DistinctNodes, Dropped;
      DroppedIsCut(rest, n, i - 1);
      DroppedCons(c, rest, [n]);
      CutBehindHead(cells, i);
    }
  }

  lemma CutBehindHead(cells: seq<Line>, i: nat)
    requires 0 < i < |cells|
    ensures cells == [cells[0]] + cells[1..]
    ensures [cells[0]] + (cells[1..][..i - 1] + cells[1..][i..]) == cells[..i] + cells[i + 1..]
  {
    var c, rest := cells[0], cells[1..];
    assert cells[..i] == [c] + rest[..i - 1] && cells[i + 1..] == rest[i..];
    Associates([c], rest[..i - 1], rest[i..]);
  }

  /** Unlinking one more node: cutting its cell out is dropping it as well. */
  lemma DroppedOneMore(cells: seq<Line>, nodes: seq<Node>, n: Node, i: nat)
    requires var d := Dropped(cells, nodes); DistinctNodes(d) && i < |d| && d[i].0 == n
    ensures var d := Dropped(cells, nodes); Dropped(cells, nodes + [n]) == d[..i] + d[i + 1..]
  {
    DroppedTwice(cells, nodes, n);
    DroppedIsCut(Dropped(cells, nodes), n, i);
  }

  // --- deleting a key ---------------------------------------------------

  lemma {:induction false} DroppedKey(cells: seq<Line>, nodes: seq<Node>, k: Text)
    requires forall c :: c in cells ==> (c.0 in nodes <==> IsKey(c.1, k))
    ensures Values(Dropped(cells, nodes)) == Deleted(Values(cells), k)
    ensures forall l :: l != k ==> NodesOf(Dropped(cells, nodes), l) == NodesOf(cells, l)
  {
    if cells != [] {
      var c, rest := cells[0], cells[1..];
      DroppedKey(rest, nodes, k);
      var less := Dropped(rest, nodes);
      assert Values(cells)[1..] == Values(rest);
      if IsKey(c.1, k) {
        assert Dropped(cells, nodes) == less;
      } else {
        assert Dropped(cells, nodes) == [c] + less;
        assert ([c] + less)[1..] == less;
      }
    }
  }

  lemma NodesAreKeys(cells: seq<Line>, k: Text)
    requires DistinctNodes(cells)
    ensures forall c :: c in cells ==> (c.0 in NodesOf(cells, k) <==> IsKey(c.1, k))
  {
    NodesOfMembers(cells, k);
    forall c | c in cells
      ensures c.0 in NodesOf(cells, k) <==> IsKey(c.1, k)
    {
      var j :| 0 <= j < |cells| && cells[j] == c;
      if c.0 in NodesOf(cells, k) {
        var i :| 0 <= i < |cells| && cells[i].0 == c.0 && IsKey(cells[i].1, k);
        assert i == j;
      }
    }
  }

  // --- reassigning a key ------------------------------------------------

  lemma {:induction false} ReplacedNothing(cells: seq<Line>, n: Node, e: Element)
    requires forall c :: c in cells ==> c.0 != n
    ensures Replaced(cells, n, e) == cells
  {
    if cells != [] {
      ReplacedNothing(cells[1..], n, e);
    }
  }

  /** Replacing at the one place a node stands. */
  lemma {:induction false} ReplacedIsUpdate(cells: seq<Line>, n: Node, e: Element, i: nat)
    requires DistinctNodes(cells) && i < |cells| && cells[i].0 == n
    ensures Replaced(cells, n, e) == cells[i := (n, e)]
  {
    if i == 0 {
      HeadIsDistinct(cells);
      ReplacedNothing(cells[1..], n, e);
    } else {
      assert cells[1..][i - 1] == cells[i];
      ReplacedIsUpdate(cells[1..], n, e, i - 1);
    }
  }

  /** The list `__setitem__` leaves for a present key, as a function of the list it found. */
  ghost function ReassignedCells(cells: seq<Line>, k: Text, v: Text): seq<Line>
    requires NodesOf(cells, k) != []
  {
    var nodes := NodesOf(cells, k);
    Replaced(Dropped(cells, nodes[1..]), nodes[0], KeyValue(k, v, []))
  }

  lemma {:induction false} ReassignedCellsMean(cells: seq<Line>, k: Text, v: Text)
    requires DistinctNodes(cells) && NodesOf(cells, k) != []
    ensures Values(ReassignedCells(cells, k, v)) == Reassigned(Values(cells), k, v)
    ensures NodesOf(ReassignedCells(cells, k, v), k) == [NodesOf(cells, k)[0]]
    ensures forall l :: l != k ==> NodesOf(ReassignedCells(cells, k, v), l) == NodesOf(cells, l)
  {
    var c, rest := cells[0], cells[1..];
    var e := KeyValue(k, v, []);
    var nodes := NodesOf(cells, k);
    assert Values(cells)[1..] == Values(rest);
    if IsKey(c.1, k) {
      assert nodes[0] == c.0 && nodes[1..] == NodesOf(rest, k);
      ReassignedFirst(cells, k, v);
    } else {
      assert nodes == NodesOf(rest, k);
      NodesAreKeys(cells, k);
      assert c in cells && c.0 !in nodes;
      ReassignedCellsMean(rest, k, v);
      var less := Dropped(rest, nodes[1..]);
      assert Dropped(cells, nodes[1..]) == [c] + less;
      assert ([c] + less)[1..] == less;
      var more := Replaced(less, nodes[0], e);
      assert ReassignedCells(cells, k, v) == [c] + more;
      assert ([c] + more)[1..] == more;
    }
  }

  lemma ReassignedFirst(cells: seq<Line>, k: Text, v: Text)
    requires DistinctNodes(cells) && cells != [] && IsKey(cells[0].1, k)
    ensures var c, rest := cells[0], cells[1..];
            var less := Dropped(rest, NodesOf(rest, k));
            && ReassignedCells(cells, k, v) == [(c.0, KeyValue(k, v, []))] + less
            && Values(ReassignedCells(cells, k, v)) == [KeyValue(k, v, [])] + Deleted(Values(rest), k)
            && NodesOf(ReassignedCells(cells, k, v), k) == [c.0]
            && forall l :: l != k ==> NodesOf(ReassignedCells(cells, k, v), l) == NodesOf(cells, l)
  {
    var c, rest := cells[0], cells[1..];
    var others := NodesOf(rest, k);
    var e := KeyValue(k, v, []);
    var less := Dropped(rest, others);
    assert NodesOf(cells, k) == [c.0] + others;
    assert NodesOf(cells, k)[1..] == others;
    NodesOfMembers(rest, k);
    assert c.0 !in others;
    assert Dropped(cells, others) == [c] + less;
    forall x | x in less
      ensures x.0 != c.0
    {
      DroppedMembers(rest, others, x);
      var j :| 0 <= j < |rest| && rest[j] == x;
      assert cells[j + 1] == x;
    }
    ReplacedNothing(less, c.0, e);
    assert ([c] + less)[1..] == less;
    NodesAreKeys(rest, k);
    DroppedKey(rest, others, k);
    var all := [(c.0, e)] + less;
    assert all[1..] == less;
    NodesOfMembers(less, k);
    DeletedHasNone(Values(rest), k);
  }

}
