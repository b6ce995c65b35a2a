/** The doubly linked list of `util.py`, with the nodes it holds in order as its ghost contents. */
module LinkedLists {

  /** A node of the list and the value it carries. */
  type Cell<T> = (LinkedListNode<T>, T)

  class LinkedList<T> {
    var start: LinkedListNode?<T>
    var end: LinkedListNode?<T>

    ghost var cells: seq<Cell<T>>

    ghost function Nodes(): set<object>
      reads this
    {
      set c | c in cells :: c.0
    }

    ghost predicate Valid()
      reads this, Nodes()
    {
      && start == (if cells == [] then null else cells[0].0)
      && end == (if cells == [] then null else cells[|cells| - 1].0)
      && (forall i, j :: 0 <= i < j < |cells| ==> cells[i].0 != cells[j].0)
      && (forall i :: 0 <= i < |cells| ==> Linked(i))
    }

    /** The node at `i` carries its value and is linked to its neighbours in both directions. */
    ghost predicate Linked(i: nat)
      requires i < |cells|
      reads this, Nodes()
    {
      assert cells[i] in cells;
      var n := cells[i].0;
      && n.lst == this
      && n.value == cells[i].1
      && n.prev == (if i == 0 then null else cells[i - 1].0)
      && n.next == (if i == |cells| - 1 then null else cells[i + 1].0)
    }

    constructor ()
      ensures Valid() && cells == []
    {
      start, end := null, null;
      cells := [];
    }

    method Append(value: T) returns (n: LinkedListNode<T>)
      requires Valid()
      modifies this, Nodes()
      ensures Valid() && fresh(n)
      ensures cells == old(cells) + [(n, value)]
    {
      ghost var before := cells;
      n := new LinkedListNode(value, this);
      if start == null {
        start := n;
      } else {
        assert before[|before| - 1] in before;
        end.next := n;
        n.prev := end;
      }
      end := n;
      cells := cells + [(n, value)];
      forall i | 0 <= i < |cells|
        ensures Linked(i)
      {
        if i < |before| {
          assert before[i] in before;
          assert old(Linked(i));
        }
      }
    }
  }

  class LinkedListNode<T> {
    var value: T
    const lst: LinkedList<T>
    var prev: LinkedListNode?<T>
    var next: LinkedListNode?<T>

    constructor (value: T, lst: LinkedList<T>)
      ensures this.value == value && this.lst == lst && prev == null && next == null
    {
      this.value := value;
      this.lst := lst;
      prev, next := null, null;
    }

    method Unlink(ghost i: nat)
      requires lst.Valid() && i < |lst.cells| && lst.cells[i].0 == this
      modifies lst, lst.Nodes()
      ensures lst.Valid()
      ensures lst.cells == old(lst.cells[..i] + lst.cells[i + 1..])
    {
      ghost var before := lst.cells;
      assert before[i] in before;
      assert lst.Linked(i);
      if prev != null {
        assert before[i - 1] in before;
        assert lst.Linked(i - 1);
        prev.next := next;
      }
      if next != null {
        assert before[i + 1] in before;
        next.prev := prev;
      }
      if this == lst.start {
        lst.start := next;
      }
      if this == lst.end {
        lst.end := prev;
      }
      lst.cells := before[..i] + before[i + 1..];
      forall j | 0 <= j < |lst.cells|
        ensures lst.Linked(j)
      {
        ghost var o := if j < i then j else j + 1;
        assert lst.cells[j] == before[o] && before[o] in before;
        assert old(lst.Linked(o));
      }
    }
  }
}
