// The cache as it is in memory: a table from keys to elements of a doubly linked
// list. Get and Add are proved against the entry lists of LruModel.
module Lru {
  import opened Wrappers
  import opened LruModel
  import L = LinkedList

  // ---------- The table, as a value ----------

  ghost predicate IndexedAt<V(0)>(cache: map<string, L.Element<V>>, es: seq<Entry<V>>, ns: seq<L.Element<V>>, i: nat)
    requires i < |es| == |ns|
  {
    es[i].key in cache && cache[es[i].key] == ns[i]
  }

  // The table has exactly the listed keys, each with its node.
  ghost predicate Indexes<V(0)>(cache: map<string, L.Element<V>>, es: seq<Entry<V>>, ns: seq<L.Element<V>>)
  {
    && |es| == |ns|
    && (forall i :: 0 <= i < |es| ==> IndexedAt(cache, es, ns, i))
    && (forall key :: key in cache ==> IndexOf(es, key) < |es|)
  }

  lemma {:induction false} IndexOfMember<V>(es: seq<Entry<V>>, i: nat)
    requires Distinct(es) && i < |es|
    ensures IndexOf(es, es[i].key) == i
  {
    if i > 0 {
      assert es[i] in es[1..] by { assert es[1..][i - 1] == es[i]; }
      IndexOfMember(es[1..], i - 1);
    }
  }

  lemma PutNotEmpty<V>(es: seq<Entry<V>>, e: Entry<V>)
    ensures Put(es, e) != []
  {
  }

  lemma PutHasKey<V>(es: seq<Entry<V>>, e: Entry<V>, key: string)
    ensures IndexOf(Put(es, e), key) < |Put(es, e)| <==> key == e.key || IndexOf(es, key) < |es|
  {
    PutMembers(es, e);
    IndexOfAbsent(es, key);
    IndexOfAbsent(Put(es, e), key);
  }

  lemma DropAt<T>(s: seq<T>, i: nat, j: nat)
    requires i < |s| && j < |s| - 1
    ensures |Drop(s, i)| == |s| - 1 && Drop(s, i)[j] == s[if j < i then j else j + 1]
  {
  }

  lemma IndexesAt<V(0)>(cache: map<string, L.Element<V>>, es: seq<Entry<V>>, ns: seq<L.Element<V>>, key: string)
    requires Indexes(cache, es, ns)
    ensures key in cache <==> IndexOf(es, key) < |es|
    ensures key in cache ==> cache[key] == ns[IndexOf(es, key)]
  {
    var i := IndexOf(es, key);
    assert i < |es| ==> IndexedAt(cache, es, ns, i);
  }

  // A node moves to the front, with an entry for the same key.
  lemma IndexesAfterMove<V(0)>(cache: map<string, L.Element<V>>, es: seq<Entry<V>>, ns: seq<L.Element<V>>, e: Entry<V>)
    requires Indexes(cache, es, ns)
    requires IndexOf(es, e.key) < |es|
    ensures Indexes(cache, Put(es, e), [ns[IndexOf(es, e.key)]] + Drop(ns, IndexOf(es, e.key)))
  {
    var i := IndexOf(es, e.key);
    assert Indexes(cache, es, ns);
    MovedAt(cache, es, ns, e, 0);
    hide Drop, IndexOf, Put, IndexedAt;
    forall key | key in cache ensures IndexOf(Put(es, e), key) < |Put(es, e)| {
      PutHasKey(es, e, key);
    }
    forall j | 0 <= j < |es| ensures IndexedAt(cache, Put(es, e), [ns[i]] + Drop(ns, i), j) {
      MovedAt(cache, es, ns, e, j);
    }
  }

  lemma MovedAt<V(0)>(cache: map<string, L.Element<V>>, es: seq<Entry<V>>, ns: seq<L.Element<V>>, e: Entry<V>, j: nat)
    requires Indexes(cache, es, ns)
    requires IndexOf(es, e.key) < |es| && j < |es|
    ensures var i := IndexOf(es, e.key);
      |Put(es, e)| == |es| == |[ns[i]] + Drop(ns, i)| && IndexedAt(cache, Put(es, e), [ns[i]] + Drop(ns, i), j)
  {
    var i := IndexOf(es, e.key);
    assert IndexedAt(cache, es, ns, i) && es[i].key == e.key;
    hide Drop, IndexOf;
    DropLength(es, i);
    DropLength(ns, i);
    if j > 0 {
      DropAt(es, i, j - 1);
      DropAt(ns, i, j - 1);
      assert IndexedAt(cache, es, ns, if j - 1 < i then j - 1 else j);
    }
  }

  lemma DropLength<T>(s: seq<T>, i: nat)
    requires i < |s|
    ensures |Drop(s, i)| == |s| - 1
  {
  }

  lemma PutNew<V>(es: seq<Entry<V>>, e: Entry<V>)
    requires IndexOf(es, e.key) == |es|
    ensures Put(es, e) == [e] + es
  {
  }

  lemma DropLast<T>(s: seq<T>)
    requires s != []
    ensures Drop(s, |s| - 1) == s[..|s| - 1]
  {
  }

  // A node for a new key is put in front.
  lemma IndexesAfterInsert<V(0)>(cache: map<string, L.Element<V>>, es: seq<Entry<V>>, ns: seq<L.Element<V>>, e: Entry<V>, n: L.Element<V>)
    requires Indexes(cache, es, ns)
    requires IndexOf(es, e.key) == |es|
    ensures Indexes(cache[e.key := n], Put(es, e), [n] + ns)
  {
    PutNew(es, e);
    IndexOfAbsent(es, e.key);
    hide Put, IndexOf, IndexedAt;
    forall key | key in cache[e.key := n] ensures IndexOf(Put(es, e), key) < |Put(es, e)| {
      PutHasKey(es, e, key);
    }
    var after, all, nodes := cache[e.key := n], Put(es, e), [n] + ns;
    forall j | 0 <= j < |all| ensures IndexedAt(after, all, nodes, j) {
      InsertedAt(cache, es, ns, e, n, j);
    }
  }

  lemma InsertedAt<V(0)>(cache: map<string, L.Element<V>>, es: seq<Entry<V>>, ns: seq<L.Element<V>>, e: Entry<V>, n: L.Element<V>, j: nat)
    requires Indexes(cache, es, ns) && j <= |es|
    requires forall x :: x in es ==> x.key != e.key
    ensures IndexedAt(cache[e.key := n], [e] + es, [n] + ns, j)
  {
    if j > 0 { assert IndexedAt(cache, es, ns, j - 1) && es[j - 1] in es; }
  }

  // What a new entry does to all that the cache keeps.
  lemma NewEntryFits<V(0)>(cache: map<string, L.Element<V>>, es: seq<Entry<V>>, ns: seq<L.Element<V>>, e: Entry<V>, n: L.Element<V>)
    requires Indexes(cache, es, ns) && Distinct(es) && e.key !in cache
    ensures Put(es, e) == [e] + es && Distinct([e] + es)
    ensures Total([e] + es) == Total(es) + Size(e)
    ensures Indexes(cache[e.key := n], [e] + es, [n] + ns)
  {
    hide Indexes, Distinct, Total, Put;
    IndexesAt(cache, es, ns, e.key);
    PutNew(es, e);
    PutDistinct(es, e);
    TotalPut(es, e);
    IndexesAfterInsert(cache, es, ns, e, n);
  }

  lemma LastKeyIsUnique<V>(es: seq<Entry<V>>, i: nat)
    requires Distinct(es) && i < |es| - 1
    ensures es[i].key != es[|es| - 1].key
    ensures IndexOf(es[..|es| - 1], es[i].key) < |es| - 1
  {
    var n := |es| - 1;
    SplitLast(es);
    DistinctConcat(es[..n], [es[n]]);
    assert es[..n][i] in es[..n] && es[n] in [es[n]];
    IndexOfAbsent(es[..n], es[i].key);
  }

  lemma PrefixDistinct<V>(es: seq<Entry<V>>)
    requires Distinct(es) && es != []
    ensures Distinct(es[..|es| - 1])
  {
    SplitLast(es);
    DistinctConcat(es[..|es| - 1], [es[|es| - 1]]);
  }

  // The last node goes, and its key with it.
  lemma IndexesAfterEviction<V(0)>(cache: map<string, L.Element<V>>, es: seq<Entry<V>>, ns: seq<L.Element<V>>)
    requires Indexes(cache, es, ns) && Distinct(es) && es != []
    ensures Indexes(cache - {es[|es| - 1].key}, es[..|es| - 1], ns[..|es| - 1])
  {
    var n := |es| - 1;
    hide Distinct;
    forall i | 0 <= i < n ensures IndexedAt(cache - {es[n].key}, es[..n], ns[..n], i) {
      LastKeyIsUnique(es, i);
      assert IndexedAt(cache, es, ns, i);
    }
    forall key | key in cache && key != es[n].key ensures IndexOf(es[..n], key) < n {
      LastKeyIsUnique(es, IndexOf(es, key));
    }
  }

  class Cache<V(0)> {
    var maxBytes: int
    var nBytes: int
    var ll: L.List<V>
    var cache: map<string, L.Element<V>>
    var onEvicted: bool                // whether a callback is installed
    var reported: seq<Entry<V>>        // the callback's calls, oldest first

    ghost var contents: seq<Entry<V>>  // most recent first

    // The list's elements carry the contents.
    ghost predicate Carries(es: seq<Entry<V>>)
      reads ll, ll.nodes, this`ll
    {
      |es| == |ll.nodes| && forall i :: 0 <= i < |es| ==> ll.nodes[i].entry == es[i]
    }

    ghost predicate Valid()
      reads this, ll, ll.root, ll.nodes
    {
      && ll.Valid() && Carries(contents)
      && Indexes(cache, contents, ll.nodes)
      && Distinct(contents) && nBytes == Total(contents)
    }

    ghost function Repr(): set<object>
      reads this, ll
    {
      {this, ll, ll.root} + set x | x in ll.nodes
    }

    constructor (maxBytes: int, onEvicted: bool)
      ensures Valid() && contents == [] && reported == []
      ensures this.maxBytes == maxBytes && this.onEvicted == onEvicted
      ensures fresh(Repr())
    {
      this.maxBytes := maxBytes;
      this.onEvicted := onEvicted;
      nBytes := 0;
      ll := new L.List<V>();
      cache := map[];
      reported := [];
      contents := [];
    }

    // The list part of a hit: the element at position i moves to the front.
    method Promote(ele: L.Element<V>, ghost i: nat)
      requires ll.Valid() && Carries(contents) && i < |contents| && ll.nodes[i] == ele
      modifies this`contents, ll, ll.root`next, ll.root`prev,
        (set x | x in ll.nodes)`next, (set x | x in ll.nodes)`prev
      ensures ll.Valid() && Carries(contents) && Repr() == old(Repr())
      ensures contents == [old(contents)[i]] + Drop(old(contents), i)
      ensures ll.nodes == [ele] + Drop(old(ll.nodes), i)
    {
      hide L.List.Valid, Drop;
      ghost var ns, es := ll.nodes, contents;
      DropLength(ns, i);
      DropLength(es, i);
      ll.MoveToFront(ele, i);
      DropMembers(ns, i);
      contents := [es[i]] + Drop(es, i);
      assert forall x :: x in ll.nodes <==> x in ns;
      forall j | 0 <= j < |es| - 1 ensures Drop(ns, i)[j].entry == Drop(es, i)[j] {
        DropAt(ns, i, j);
        DropAt(es, i, j);
      }
    }

    method Get(key: string) returns (value: Option<V>)
      requires Valid()
      modifies Repr()
      ensures Valid() && ll == old(ll) && Repr() == old(Repr())
      ensures contents == AfterGet(old(contents), key) && value == Lookup(old(contents), key)
      ensures maxBytes == old(maxBytes) && onEvicted == old(onEvicted) && reported == old(reported)
    {
      hide Total, Indexes, Distinct, Drop, L.List.Valid;
      IndexesAt(cache, contents, ll.nodes, key);
      if key in cache {
        var ele := cache[key];
        ghost var i := IndexOf(contents, key);
        HitIsPut(contents, i, key);
        PutDistinct(contents, contents[i]);
        TotalPut(contents, contents[i]);
        IndexesAfterMove(cache, contents, ll.nodes, contents[i]);
        Promote(ele, i);
        value := Some(ele.entry.value);
      } else {
        value := None;
      }
    }

    method RemoveOldest()
      requires Valid()
      modifies Repr()
      ensures Valid() && ll == old(ll) && Repr() <= old(Repr())
      ensures maxBytes == old(maxBytes) && onEvicted == old(onEvicted)
      ensures old(contents) == [] ==> contents == [] && reported == old(reported)
      ensures old(contents) != [] ==>
        && contents == old(contents)[..|old(contents)| - 1]
        && reported == old(reported) + if onEvicted then [old(contents)[|old(contents)| - 1]] else []
    {
      hide Total, Indexes, Distinct, Drop, L.List.Valid;
      var ele := ll.Back();
      if ele != null {
        Unlist(ele);
        var kv := ele.entry;
        cache := cache - {kv.key};
        nBytes := nBytes - (|kv.key| + kv.len);
        if onEvicted {
          reported := reported + [kv];
        }
      }
    }

    // The list part of an eviction.
    method Unlist(ele: L.Element<V>)
      requires Valid() && contents != [] && ele == ll.nodes[|contents| - 1]
      modifies this`contents, ll, ll.root`next, ll.root`prev,
        (set x | x in ll.nodes)`next, (set x | x in ll.nodes)`prev
      ensures ll.Valid() && Carries(contents) && Repr() <= old(Repr())
      ensures contents == old(contents)[..|old(contents)| - 1] && Distinct(contents)
      ensures ele.entry == old(contents)[|old(contents)| - 1]
      ensures Total(contents) == nBytes - Size(ele.entry)
      ensures Indexes(cache - {ele.entry.key}, contents, ll.nodes)
    {
      hide Indexes, Total, Distinct, Drop;
      ghost var es, ns := contents, ll.nodes;
      IndexesAfterEviction(cache, es, ns);
      TotalLast(es);
      PrefixDistinct(es);
      DropLast(ns);
      ll.Remove(ele, |es| - 1);
      contents := es[..|es| - 1];
    }

    // A present key gets a new value.
    method Replace(key: string, value: V, len: nat)
      requires Valid() && key in cache
      modifies Repr()
      ensures Valid() && ll == old(ll) && Repr() == old(Repr())
      ensures contents == Put(old(contents), Entry(key, value, len))
      ensures maxBytes == old(maxBytes) && onEvicted == old(onEvicted) && reported == old(reported)
    {
      hide Total, Indexes, Distinct, Drop, L.List.Valid;
      ghost var e := Entry(key, value, len);
      PutDistinct(contents, e);
      TotalPut(contents, e);
      IndexesAt(cache, contents, ll.nodes, key);
      IndexesAfterMove(cache, contents, ll.nodes, e);
      var ele := cache[key];
      Promote(ele, IndexOf(contents, key));
      nBytes := nBytes + len - ele.entry.len;
      ele.entry := ele.entry.(value := value, len := len);
      contents := contents[0 := e];
      assert contents == Put(old(contents), e);
    }

    // The list part of a miss: a new element goes in front.
    method Enlist(ele: L.Element<V>)
      requires ll.Valid() && Carries(contents) && ele !in ll.nodes && ele != ll.root
      modifies this`contents, ll, ll.root`next, ll.root`prev, ele`next, ele`prev, (set x | x in ll.nodes)`prev
      ensures ll.Valid() && Carries(contents) && Repr() == old(Repr()) + {ele}
      ensures contents == [ele.entry] + old(contents)
      ensures ll.nodes == [ele] + old(ll.nodes)
    {
      hide L.List.Valid;
      ll.InsertFront(ele);
      contents := [ele.entry] + contents;
    }

    // An absent key gets a new element.
    method PushFront(key: string, value: V, len: nat)
      requires Valid() && key !in cache
      modifies Repr()
      ensures Valid() && ll == old(ll) && fresh(Repr() - old(Repr()))
      ensures contents == Put(old(contents), Entry(key, value, len))
      ensures maxBytes == old(maxBytes) && onEvicted == old(onEvicted) && reported == old(reported)
    {
      hide Total, Indexes, Distinct, Put, L.List.Valid;
      var ele := new L.Element(Entry(key, value, len));
      NewEntryFits(cache, contents, ll.nodes, ele.entry, ele);
      Enlist(ele);
      cache := cache[key := ele];
      nBytes := nBytes + |key| + len;
    }

    method Add(key: string, value: V, len: nat)
      requires Valid()
      modifies Repr()
      ensures Valid() && ll == old(ll) && fresh(Repr() - old(Repr()))
      ensures contents == AfterAdd(old(contents), Entry(key, value, len), maxBytes)
      ensures reported == old(reported) +
        if onEvicted then Evicted(old(contents), Entry(key, value, len), maxBytes) else []
      ensures maxBytes == old(maxBytes) && onEvicted == old(onEvicted)
    {
      hide Total, Indexes, Distinct, Put, Cache.Carries, L.List.Valid;
      if key in cache {
        Replace(key, value, len);
      } else {
        PushFront(key, value, len);
      }
      if nBytes > maxBytes {
        PutNotEmpty(old(contents), Entry(key, value, len));
        RemoveOldest();
      }
    }

    method Len() returns (n: int)
      requires Valid()
      ensures n == |contents|
    {
      n := ll.len;
    }
  }
}
