// The doubly linked list under the cache: a ring through a sentinel, as
// container/list keeps it.
module LinkedList {
  import opened LruModel

  class Element<V(0)> {
    var prev: Element?<V>
    var next: Element?<V>
    var entry: Entry<V>

    constructor (entry: Entry<V>)
      ensures this.entry == entry
    {
      this.entry := entry;
      prev, next := null, null;
    }

    constructor Sentinel()
      ensures prev == this && next == this
    {
      prev, next := this, this;
    }
  }

  class List<V(0)> {
    const root: Element<V>
    var len: int
    ghost var nodes: seq<Element<V>>  // front to back

    ghost predicate Valid()
      reads this, root`next, root`prev, (set x | x in nodes)`next, (set x | x in nodes)`prev
    {
      && len == |nodes|
      && root !in nodes
      && (forall i, j :: 0 <= i < j < |nodes| ==> nodes[i] != nodes[j])
      && (if nodes == [] then root.next == root && root.prev == root
          else
            && root.next == nodes[0] && nodes[0].prev == root
            && root.prev == nodes[|nodes| - 1] && nodes[|nodes| - 1].next == root)
      && (forall i {:trigger nodes[i].prev} :: 1 <= i < |nodes| ==> nodes[i].prev == nodes[i - 1])
      && (forall i {:trigger nodes[i].next} :: 0 <= i < |nodes| - 1 ==> nodes[i].next == nodes[i + 1])
    }

    constructor ()
      ensures Valid() && nodes == [] && fresh(root)
    {
      root := new Element<V>.Sentinel();
      len := 0;
      nodes := [];
    }

    // Links e in after the sentinel.
    method InsertFront(e: Element<V>)
      requires Valid() && e !in nodes && e != root
      modifies this, root`next, root`prev, e`next, e`prev, (set x | x in nodes)`prev
      ensures Valid() && nodes == [e] + old(nodes)
    {
      e.prev := root;
      e.next := root.next;
      e.prev.next := e;
      e.next.prev := e;
      len := len + 1;
      nodes := [e] + nodes;
    }

    // Unlinks the element at position k; its own links are left as they are.
    method Unlink(e: Element<V>, ghost k: nat)
      requires Valid() && k < |nodes| && nodes[k] == e
      modifies this, root`next, root`prev, (set x | x in nodes)`next, (set x | x in nodes)`prev
      ensures Valid() && nodes == Drop(old(nodes), k)
    {
      e.prev.next := e.next;
      e.next.prev := e.prev;
      len := len - 1;
      nodes := nodes[..k] + nodes[k + 1..];
    }

    method Remove(e: Element<V>, ghost k: nat)
      requires Valid() && k < |nodes| && nodes[k] == e
      modifies this, root`next, root`prev, (set x | x in nodes)`next, (set x | x in nodes)`prev
      ensures Valid() && nodes == Drop(old(nodes), k)
      ensures e.next == null && e.prev == null
    {
      Unlink(e, k);
      DropForgets(old(nodes), k);
      e.next := null;
      e.prev := null;
    }

    method MoveToFront(e: Element<V>, ghost k: nat)
      requires Valid() && k < |nodes| && nodes[k] == e
      modifies this, root`next, root`prev, (set x | x in nodes)`next, (set x | x in nodes)`prev
      ensures Valid() && nodes == [e] + Drop(old(nodes), k)
    {
      if root.next == e {
        assert k == 0;
        return;
      }
      Unlink(e, k);
      DropForgets(old(nodes), k);
      InsertFront(e);
    }

    lemma DropForgets(s: seq<Element<V>>, k: nat)
      requires k < |s| && forall i, j :: 0 <= i < j < |s| ==> s[i] != s[j]
      ensures s[k] !in Drop(s, k)
      ensures forall x :: x in Drop(s, k) ==> x in s
    {
    }

    method Back() returns (e: Element?<V>)
      requires Valid()
      ensures e == if nodes == [] then null else nodes[|nodes| - 1]
    {
      e := if len == 0 then null else root.prev;
    }
  }
}
