// The hash ring as it is in memory: a sorted list of points and a table from
// points to nodes.
module HashRing {
  import opened ConsistentHash

  predicate Sorted(s: seq<nat>)
  {
    forall i, j :: 0 <= i <= j < |s| ==> s[i] <= s[j]
  }

  lemma InsertedIsSorted(s: seq<nat>, x: nat, i: nat)
    requires Sorted(s) && i <= |s| && (i < |s| ==> x <= s[i])
    requires forall j :: 0 <= j < i ==> s[j] < x
    ensures Sorted(s[..i] + [x] + s[i..])
  {
    var r := s[..i] + [x] + s[i..];
    assert forall j :: 0 <= j < |r| ==> r[j] == if j < i then s[j] else if j == i then x else s[j - 1];
  }

  lemma InsertedMembers(s: seq<nat>, x: nat, i: nat)
    requires i <= |s|
    ensures multiset(s[..i] + [x] + s[i..]) == multiset(s) + multiset{x}
  {
    assert s == s[..i] + s[i..];
  }

  // Where x goes in a sorted list: sorts by insertion, in place of sort.Ints.
  method InsertSorted(s: seq<nat>, x: nat) returns (r: seq<nat>)
    requires Sorted(s)
    ensures Sorted(r) && multiset(r) == multiset(s) + multiset{x}
  {
    var i := 0;
    while i < |s| && s[i] < x
      invariant 0 <= i <= |s|
      invariant forall j :: 0 <= j < i ==> s[j] < x
    {
      i := i + 1;
    }
    InsertedIsSorted(s, x, i);
    InsertedMembers(s, x, i);
    hide Sorted;
    r := s[..i] + [x] + s[i..];
  }

  method SortInts(s: seq<nat>) returns (r: seq<nat>)
    ensures Sorted(r) && multiset(r) == multiset(s)
  {
    r := [];
    var i := 0;
    while i < |s|
      invariant 0 <= i <= |s|
      invariant Sorted(r) && multiset(r) == multiset(s[..i])
    {
      r := InsertSorted(r, s[i]);
      assert s[..i + 1] == s[..i] + [s[i]];
      i := i + 1;
    }
    assert s[..|s|] == s;
  }

  ghost predicate SamePoints(keys: seq<nat>, owners: Owners)
  {
    forall p :: p in keys <==> p in owners
  }

  lemma SortKeepsPoints(s: seq<nat>, r: seq<nat>, owners: Owners)
    requires SamePoints(s, owners) && multiset(r) == multiset(s)
    ensures SamePoints(r, owners)
  {
    assert forall p :: p in r <==> p in multiset(r);
    assert forall p :: p in s <==> p in multiset(s);
  }

  // The point found by the search, wrapping to the first.
  lemma SearchFindsOwnerPoint(keys: seq<nat>, owners: Owners, h: nat, idx: nat)
    requires keys != [] && Sorted(keys) && SamePoints(keys, owners) && idx <= |keys|
    requires forall k :: 0 <= k < idx ==> keys[k] < h
    requires forall k :: idx <= k < |keys| ==> h <= keys[k]
    ensures IsOwnerPoint(owners.Keys, h, keys[idx % |keys|])
  {
    var i := if idx == |keys| then 0 else idx;
    assert i == idx % |keys|;
    assert keys[i] in keys;
    forall q | q in owners.Keys
      ensures if h <= keys[i] then h <= q ==> keys[i] <= q else keys[i] <= q < h
    {
      assert q in keys;
      var k :| 0 <= k < |keys| && keys[k] == q;
    }
  }

  class Map {
    const hash: Hash
    const replicas: int
    var keys: seq<nat>
    var hashMap: map<nat, string>

    // The number of replicas the loop makes.
    ghost function Count(): nat
    {
      if replicas < 0 then 0 else replicas
    }

    ghost predicate Valid()
      reads this
    {
      Sorted(keys) && SamePoints(keys, hashMap)
    }

    constructor (replicas: int, hash: Hash)
      ensures Valid() && keys == [] && hashMap == map[]
      ensures this.replicas == replicas && this.hash == hash
    {
      this.replicas := replicas;
      this.hash := hash;
      keys := [];
      hashMap := map[];
    }

    method Add(nodes: seq<string>)
      requires Valid()
      modifies this
      ensures Valid()
      ensures hashMap == AddNodes(old(hashMap), hash, Count(), nodes, |nodes|)
    {
      var k := 0;
      while k < |nodes|
        invariant 0 <= k <= |nodes|
        invariant hashMap == AddNodes(old(hashMap), hash, Count(), nodes, k)
        invariant SamePoints(keys, hashMap)
      {
        var key := nodes[k];
        ghost var before := hashMap;
        var i := 0;
        while i < replicas
          invariant 0 <= i <= Count()
          invariant hashMap == AddPoints(before, hash, key, i)
          invariant SamePoints(keys, hashMap)
        {
          var h := hash(Itoa(i) + key);
          keys := keys + [h];
          hashMap := hashMap[h := key];
          i := i + 1;
        }
        k := k + 1;
      }
      ghost var unsorted := keys;
      keys := SortInts(keys);
      SortKeepsPoints(unsorted, keys, hashMap);
    }

    // The smallest index whose point is at or after h, by binary search.
    method Search(h: nat) returns (i: nat)
      requires Valid()
      ensures i <= |keys|
      ensures forall k :: 0 <= k < i ==> keys[k] < h
      ensures forall k :: i <= k < |keys| ==> h <= keys[k]
    {
      i := 0;
      var j := |keys|;
      while i < j
        invariant 0 <= i <= j <= |keys|
        invariant forall k :: 0 <= k < i ==> keys[k] < h
        invariant forall k :: j <= k < |keys| ==> h <= keys[k]
      {
        var mid := i + (j - i) / 2;
        if keys[mid] < h {
          i := mid + 1;
        } else {
          j := mid;
        }
      }
    }

    method Get(key: string) returns (node: string)
      requires Valid()
      ensures node == Owner(hashMap, hash(key))
    {
      if |keys| == 0 {
        assert forall p :: p !in hashMap;
        return "";
      }
      var h := hash(key);
      var idx := Search(h);
      var p := keys[idx % |keys|];
      SearchFindsOwnerPoint(keys, hashMap, h, idx);
      OwnerPointUnique(hashMap.Keys, h, p, OwnerPoint(hashMap.Keys, h));
      node := hashMap[p];
    }
  }
}
