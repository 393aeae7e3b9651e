// One node in memory: byte views, the lazily created cache and the group that
// reads through it. Byte slices are arrays, so sharing and copying are explicit.
module GeeCache {
  import opened Wrappers
  import opened LruModel
  import opened GroupModel
  import R = Lru
  import L = LinkedList

  // A read-only view of a byte slice; null is the nil slice.
  datatype ByteView = ByteView(b: array?<bv8>)

  ghost function Bytes(view: ByteView): seq<bv8>
    reads view.b
  {
    if view.b == null then [] else view.b[..]
  }

  method CloneBytes(b: array?<bv8>) returns (c: array<bv8>)
    ensures fresh(c) && c[..] == Bytes(ByteView(b))
  {
    var n := if b == null then 0 else b.Length;
    c := new bv8[n];
    var i := 0;
    while i < n
      invariant 0 <= i <= n
      invariant forall k :: 0 <= k < i ==> c[k] == b[k]
    {
      c[i] := b[i];
      i := i + 1;
    }
  }

  // What callers outside the package get to write to.
  method ByteSlice(view: ByteView) returns (c: array<bv8>)
    ensures fresh(c) && c[..] == Bytes(view)
  {
    c := CloneBytes(view.b);
  }

  // The cache behind a group: the LRU is created by the first Add.
  class Cache {
    const cacheBytes: int
    var lru: R.Cache?<ByteView>

    ghost var Repr: set<object>

    ghost predicate Valid()
      reads this, Repr
      ensures Valid() ==> this in Repr
    {
      && this in Repr && NoArrays(Repr)
      && (lru != null ==>
           && lru in Repr && lru.ll in Repr && lru.Repr() <= Repr && this !in lru.Repr()
           && lru.Valid() && lru.maxBytes == cacheBytes)
    }

    ghost function Contents(): seq<Entry<ByteView>>
      reads this, lru
    {
      if lru == null then [] else lru.contents
    }

    constructor (cacheBytes: int)
      ensures Valid() && fresh(Repr) && Contents() == [] && this.cacheBytes == cacheBytes
    {
      this.cacheBytes := cacheBytes;
      lru := null;
      Repr := {this};
    }

    method Add(key: string, value: ByteView)
      requires Valid() && value.b != null
      modifies Repr
      ensures Valid() && fresh(Repr - old(Repr))
      ensures Contents() == AfterAdd(old(Contents()), Entry(key, value, value.b.Length), cacheBytes)
    {
      hide R.Cache.Valid, L.List.Valid, AfterAdd;
      if lru == null {
        lru := new R.Cache(cacheBytes, false);
        Repr := Repr + lru.Repr();
      }
      lru.Add(key, value, value.b.Length);
      Repr := Repr + lru.Repr();
    }

    method Get(key: string) returns (value: Option<ByteView>)
      requires Valid()
      modifies Repr
      ensures Valid() && Repr == old(Repr)
      ensures Contents() == AfterGet(old(Contents()), key) && value == Lookup(old(Contents()), key)
    {
      if lru == null {
        return None;
      }
      value := lru.Get(key);
    }

    lemma Facts()
      requires Valid()
      ensures Distinct(Contents()) && NoArrays(Repr)
    {
    }
  }

  // A cache's own objects: none is a byte array or a data source.
  ghost predicate NoArrays(objects: set<object>)
  {
    forall o :: o in objects ==> !(o is array<bv8>) && !(o is Source)
  }

  lemma NoArraysApart(arrays: set<array<bv8>>, objects: set<object>)
    requires NoArrays(objects)
    ensures forall a :: a in arrays ==> a !in objects
  {
  }

  // The data source behind a group; it hands out its own slices.
  class Source {
    var data: map<string, array<bv8>>

    method Get(key: string) returns (bytes: Option<array<bv8>>)
      ensures bytes == if key in data then Some(data[key]) else None
    {
      bytes := if key in data then Some(data[key]) else None;
    }
  }

  // The value a group would cache for a key, stored in the given array.
  ghost function Stored(data: map<string, array<bv8>>, key: string, stored: ByteView): Option<(ByteView, nat)>
  {
    if key in data then Some((stored, data[key].Length)) else None
  }

  class Group {
    const getter: Source
    const mainCache: Cache

    ghost var arrays: set<array<bv8>>         // the arrays behind cached views
    ghost var loaded: map<string, seq<bv8>>   // the bytes each key was last loaded with

    // The entry is backed by an array of the group that still holds the bytes its
    // key was loaded with.
    ghost predicate Backed(x: Entry<ByteView>)
      reads `arrays, `loaded, arrays
    {
      && x.value.b != null && x.value.b in arrays && x.len == x.value.b.Length
      && x.key in loaded && x.value.b[..] == loaded[x.key]
    }

    ghost predicate Frozen(es: seq<Entry<ByteView>>)
      reads `arrays, `loaded, arrays
    {
      forall x :: x in es ==> Backed(x)
    }

    ghost predicate Valid()
      reads this, mainCache, mainCache.Repr, mainCache.lru, arrays
    {
      mainCache.Valid() && this !in mainCache.Repr && Frozen(mainCache.Contents())
    }

    constructor (cacheBytes: int, getter: Source)
      ensures Valid() && mainCache.Contents() == [] && fresh(mainCache)
      ensures this.getter == getter && mainCache.cacheBytes == cacheBytes && arrays == {}
    {
      this.getter := getter;
      mainCache := new Cache(cacheBytes);
      arrays := {};
      loaded := map[];
    }

    // A Get: an error for the empty key, a hit, or a load through the peer that
    // was picked, falling back to the getter.
    method Get(key: string, reply: Reply<ByteView>) returns (view: Option<ByteView>, ghost stored: ByteView)
      requires Valid()
      modifies this, mainCache.Repr
      ensures Valid() && fresh(arrays - old(arrays)) && fresh(mainCache.Repr - old(mainCache.Repr))
      ensures mainCache.Contents() ==
        NodeGet(old(mainCache.Contents()), key, Stored(getter.data, key, stored), reply, mainCache.cacheBytes).0
      ensures view.Some? <==>
        NodeGet(old(mainCache.Contents()), key, Stored(getter.data, key, stored), reply, mainCache.cacheBytes).1.Some?
      ensures key != "" && Lookup(old(mainCache.Contents()), key).Some? ==>
        view.Some? && key in old(loaded) && Bytes(view.value) == old(loaded)[key] && loaded == old(loaded)
      ensures key != "" && Lookup(old(mainCache.Contents()), key) == None && reply.Answered? ==>
        view == Some(reply.value) && loaded == old(loaded)
      ensures key != "" && Lookup(old(mainCache.Contents()), key) == None && !reply.Answered? && key in getter.data ==>
        view.Some? && Bytes(view.value) == getter.data[key][..] && fresh(view.value.b) && view.value.b !in arrays
        && loaded == old(loaded)[key := getter.data[key][..]]
    {
      hide AfterAdd, AfterGet, Lookup, Distinct, R.Cache.Valid, L.List.Valid, Cache.Valid, Cache.Contents, Frozen;
      stored := ByteView(null);
      if key == "" {
        return None, stored;
      }
      view := Hit(key);
      if view.None? {
        view, stored := Load(key, reply);
      }
    }

    // The lookup that a Get starts with.
    method Hit(key: string) returns (view: Option<ByteView>)
      requires Valid()
      modifies mainCache.Repr
      ensures Valid() && mainCache.Repr == old(mainCache.Repr)
      ensures mainCache.Contents() == AfterGet(old(mainCache.Contents()), key)
      ensures view == Lookup(old(mainCache.Contents()), key)
      ensures view.None? ==> mainCache.Contents() == old(mainCache.Contents())
      ensures view.Some? ==> key in loaded && Bytes(view.value) == loaded[key] && view.value.b in arrays
    {
      hide AfterGet, Lookup, Distinct, R.Cache.Valid, L.List.Valid, Cache.Valid, Cache.Contents, Frozen;
      HitIsBacked(key);
      view := mainCache.Get(key);
    }

    // What a Get finds, and what it leaves, is backed.
    lemma HitIsBacked(key: string)
      requires Valid()
      ensures Frozen(AfterGet(mainCache.Contents(), key)) && arrays !! mainCache.Repr
      ensures Lookup(mainCache.Contents(), key) == None ==> AfterGet(mainCache.Contents(), key) == mainCache.Contents()
      ensures match Lookup(mainCache.Contents(), key)
        case None => true
        case Some(v) => v.b != null && v.b in arrays && key in loaded && v.b[..] == loaded[key]
    {
      hide AfterGet, Lookup, R.Cache.Valid, L.List.Valid, Cache.Contents;
      mainCache.Facts();
      NoArraysApart(arrays, mainCache.Repr);
      HitMembers(mainCache.Contents(), key);
      assert forall x :: x in mainCache.Contents() ==> Backed(x);
    }

    method Load(key: string, reply: Reply<ByteView>) returns (view: Option<ByteView>, ghost stored: ByteView)
      requires Valid() && Lookup(mainCache.Contents(), key) == None
      modifies this, mainCache.Repr
      ensures Valid() && fresh(arrays - old(arrays)) && fresh(mainCache.Repr - old(mainCache.Repr))
      ensures mainCache.Contents() ==
        Miss(old(mainCache.Contents()), key, Stored(getter.data, key, stored), reply, mainCache.cacheBytes).0
      ensures reply.Answered? ==> view == Some(reply.value) && loaded == old(loaded)
      ensures !reply.Answered? ==> (view.Some? <==> key in getter.data)
      ensures !reply.Answered? && key in getter.data ==>
        Bytes(view.value) == getter.data[key][..] && fresh(view.value.b) && view.value.b !in arrays
        && loaded == old(loaded)[key := getter.data[key][..]]
    {
      if reply.Answered? {
        return Some(reply.value), ByteView(null);
      }
      view, stored := GetLocally(key);
    }

    method GetLocally(key: string) returns (view: Option<ByteView>, ghost stored: ByteView)
      requires Valid()
      modifies this, mainCache.Repr
      ensures Valid() && fresh(arrays - old(arrays)) && fresh(mainCache.Repr - old(mainCache.Repr))
      ensures view.Some? <==> key in getter.data
      ensures view.None? ==> mainCache.Contents() == old(mainCache.Contents()) && loaded == old(loaded)
      ensures view.Some? ==>
        && mainCache.Contents() ==
             AfterAdd(old(mainCache.Contents()), Entry(key, stored, getter.data[key].Length), mainCache.cacheBytes)
        && Bytes(view.value) == getter.data[key][..] && fresh(view.value.b) && view.value.b !in arrays
        && loaded == old(loaded)[key := getter.data[key][..]]
    {
      hide AfterAdd, R.Cache.Valid, L.List.Valid, Cache.Valid, Cache.Contents, Frozen, Group.Valid, NoArrays;
      SourceIsApart(key);
      var bytes := getter.Get(key);
      if bytes.None? {
        return None, ByteView(null);
      }
      stored := CacheCopy(key, bytes.value);
      view := GiveCopy(bytes.value);
      assert getter.data == old(getter.data);
    }

    // The copy a load returns; it changes nothing.
    method GiveCopy(bytes: array<bv8>) returns (view: Option<ByteView>)
      requires Valid()
      ensures Valid() && mainCache.Contents() == old(mainCache.Contents())
      ensures view.Some? && fresh(view.value.b) && Bytes(view.value) == bytes[..] && view.value.b !in arrays
    {
      hide R.Cache.Valid, L.List.Valid, Cache.Valid, Cache.Contents, Frozen;
      var given := CloneBytes(bytes);
      view := Some(ByteView(given));
    }

    method CacheCopy(key: string, bytes: array<bv8>) returns (stored: ByteView)
      requires Valid() && bytes !in mainCache.Repr
      modifies `arrays, `loaded, mainCache.Repr
      ensures Valid() && fresh(arrays - old(arrays)) && fresh(mainCache.Repr - old(mainCache.Repr))
      ensures mainCache.Contents() ==
        AfterAdd(old(mainCache.Contents()), Entry(key, stored, bytes.Length), mainCache.cacheBytes)
      ensures loaded == old(loaded)[key := bytes[..]] && bytes[..] == old(bytes[..])
    {
      hide AfterAdd, Distinct, R.Cache.Valid, L.List.Valid, Cache.Valid, Cache.Contents, Frozen;
      var kept := CloneBytes(bytes);
      stored := ByteView(kept);
      PopulateCache(key, kept);
    }

    // Nothing the cache writes to belongs to the source.
    lemma SourceIsApart(key: string)
      requires Valid()
      ensures getter !in mainCache.Repr && this !in mainCache.Repr
      ensures key in getter.data ==> getter.data[key] !in mainCache.Repr
    {
      mainCache.Facts();
    }

    // Caches a fresh array under a key.
    method PopulateCache(key: string, kept: array<bv8>)
      requires Valid() && kept !in arrays
      modifies `arrays, `loaded, mainCache.Repr
      ensures Valid() && arrays == old(arrays) + {kept} && fresh(mainCache.Repr - old(mainCache.Repr))
      ensures mainCache.Contents() ==
        AfterAdd(old(mainCache.Contents()), Entry(key, ByteView(kept), kept.Length), mainCache.cacheBytes)
      ensures loaded == old(loaded)[key := kept[..]]
    {
      mainCache.Facts();
      NoArraysApart(arrays + {kept}, mainCache.Repr);
      hide AfterAdd, Distinct, R.Cache.Valid, L.List.Valid, Cache.Valid, Cache.Contents, Frozen, NoArrays;
      Record(key, kept, mainCache.Contents());
      mainCache.Add(key, ByteView(kept));
    }

    // Keeps the books of a load: the entries that Add will leave are frozen.
    ghost method Record(key: string, kept: array<bv8>, es: seq<Entry<ByteView>>)
      requires Distinct(es) && Frozen(es)
      modifies `arrays, `loaded
      ensures arrays == old(arrays) + {kept} && loaded == old(loaded)[key := kept[..]]
      ensures Frozen(AfterAdd(es, Entry(key, ByteView(kept), kept.Length), mainCache.cacheBytes))
    {
      AddReplacesKey(es, Entry(key, ByteView(kept), kept.Length), mainCache.cacheBytes);
      hide AfterAdd;
      arrays := arrays + {kept};
      loaded := loaded[key := kept[..]];
    }
  }

  // A write to any array that is not one of the group's, such as a slice of the
  // source or a copy handed out by ByteSlice, does not change a cached answer.
  method LaterWriteDoesNotShow(g: Group, key: string, a: array<bv8>, i: nat, x: bv8) returns (view: ByteView)
    requires g.Valid() && key != "" && Lookup(g.mainCache.Contents(), key).Some?
    requires a !in g.arrays && i < a.Length
    modifies a, g, g.mainCache.Repr
    ensures g.Valid() && key in old(g.loaded) && Bytes(view) == old(g.loaded)[key]
  {
    g.mainCache.Facts();
    hide Lookup, AfterGet, AfterAdd, Cache.Valid, Cache.Contents;
    a[i] := x;
    ghost var stored;
    var found;
    found, stored := g.Get(key, NoPeer);
    view := found.value;
  }
}
