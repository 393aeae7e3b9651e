// With entries of one size the cache holds exactly the most recently touched
// keys; so a larger budget always holds more of the same run.
module LruRecency {
  import opened Wrappers
  import opened LruModel
  import opened LruBudget
  import opened GroupModel

  function Keys<V>(es: seq<Entry<V>>): (ks: seq<string>)
    ensures |ks| == |es|
  {
    if es == [] then [] else [es[0].key] + Keys(es[1..])
  }

  function Without(ks: seq<string>, key: string): seq<string>
  {
    if ks == [] then []
    else if ks[0] == key then Without(ks[1..], key)
    else [ks[0]] + Without(ks[1..], key)
  }

  // The distinct keys of the first k touches, most recent first.
  function Recent(touches: seq<string>, k: nat): seq<string>
    requires k <= |touches|
  {
    if k == 0 then [] else Touch(Recent(touches, k - 1), touches[k - 1])
  }

  function Touch(ks: seq<string>, key: string): seq<string>
  {
    [key] + Without(ks, key)
  }

  function Newest(ks: seq<string>, n: nat): seq<string>
  {
    if n < |ks| then ks[..n] else ks
  }

  // How many entries of size s a budget has room for.
  function Capacity(maxBytes: int, s: nat): nat
    requires 1 <= s
  {
    if maxBytes < 0 then 0 else maxBytes / s
  }

  // ---------- Lists of keys ----------

  ghost predicate NoDup(ks: seq<string>)
  {
    ks == [] || (ks[0] !in ks[1..] && NoDup(ks[1..]))
  }

  lemma ConcatAssociates<T>(a: seq<T>, b: seq<T>, c: seq<T>)
    ensures a + (b + c) == (a + b) + c
  {
  }

  lemma {:induction false} WithoutConcat(a: seq<string>, b: seq<string>, key: string)
    ensures Without(a + b, key) == Without(a, key) + Without(b, key)
  {
    if a == [] {
      assert a + b == b;
    } else {
      WithoutConcat(a[1..], b, key);
      TailOfConcat(a, b);
      var rest := Without(a[1..], key) + Without(b, key);
      assert Without(a + b, key) == if a[0] == key then rest else [a[0]] + rest;
      ConcatAssociates([a[0]], Without(a[1..], key), Without(b, key));
    }
  }

  lemma {:induction false} WithoutAbsent(ks: seq<string>, key: string)
    requires key !in ks
    ensures Without(ks, key) == ks
  {
    if ks != [] {
      WithoutAbsent(ks[1..], key);
    }
  }

  lemma {:induction false} WithoutPresent(ks: seq<string>, key: string)
    requires NoDup(ks) && key in ks
    ensures |Without(ks, key)| == |ks| - 1
  {
    if ks[0] == key {
      WithoutAbsent(ks[1..], key);
    } else {
      WithoutPresent(ks[1..], key);
    }
  }

  lemma {:induction false} WithoutNoDup(ks: seq<string>, key: string)
    requires NoDup(ks)
    ensures NoDup(Without(ks, key)) && key !in Without(ks, key)
    ensures forall x :: x in Without(ks, key) ==> x in ks
  {
    if ks != [] {
      WithoutNoDup(ks[1..], key);
      assert ks[0] != key ==> Without(ks, key)[1..] == Without(ks[1..], key);
    }
  }

  lemma {:induction false} RecentNoDup(touches: seq<string>, k: nat)
    requires k <= |touches|
    ensures NoDup(Recent(touches, k))
  {
    if k > 0 {
      RecentNoDup(touches, k - 1);
      var before := Recent(touches, k - 1);
      WithoutNoDup(before, touches[k - 1]);
      assert Touch(before, touches[k - 1])[1..] == Without(before, touches[k - 1]);
    }
  }

  lemma {:induction false} NoDupPrefix(ks: seq<string>, n: nat)
    requires NoDup(ks) && n <= |ks|
    ensures NoDup(ks[..n])
  {
    if n > 0 {
      NoDupPrefix(ks[1..], n - 1);
      assert ks[..n][1..] == ks[1..][..n - 1];
    }
  }

  lemma NewestOfPrefix(whole: seq<string>, part: seq<string>, n: nat)
    requires part <= whole && (n <= |part| || part == whole)
    ensures Newest(whole, n) == Newest(part, n)
  {
  }

  lemma TouchLength(kept: seq<string>, key: string)
    requires NoDup(kept)
    ensures |Touch(kept, key)| == if key in kept then |kept| else |kept| + 1
  {
    if key in kept { WithoutPresent(kept, key); } else { WithoutAbsent(kept, key); }
  }

  lemma TouchPrefix(all: seq<string>, n: nat, key: string)
    requires n <= |all|
    ensures Touch(all[..n], key) <= Touch(all, key)
  {
    WithoutConcat(all[..n], all[n..], key);
    assert all == all[..n] + all[n..];
  }

  // Touching a key and keeping the newest n needs only the newest n.
  lemma NewestAfterTouch(all: seq<string>, n: nat, key: string)
    requires NoDup(all)
    ensures Newest(Touch(all, key), n) == Newest(Touch(Newest(all, n), key), n)
    ensures |Touch(Newest(all, n), key)| <= n + 1
  {
    hide Touch;
    if n < |all| {
      NoDupPrefix(all, n);
      TouchLength(all[..n], key);
      TouchPrefix(all, n, key);
      NewestOfPrefix(Touch(all, key), Touch(all[..n], key), n);
    } else {
      TouchLength(all, key);
    }
  }

  // ---------- Entries and their keys ----------

  lemma {:induction false} KeysConcat<V>(a: seq<Entry<V>>, b: seq<Entry<V>>)
    ensures Keys(a + b) == Keys(a) + Keys(b)
  {
    if a == [] {
      assert a + b == b;
    } else {
      KeysConcat(a[1..], b);
      TailOfConcat(a, b);
      ConcatAssociates([a[0].key], Keys(a[1..]), Keys(b));
    }
  }

  lemma DropCons<T>(x: T, s: seq<T>, i: nat)
    ensures Drop([x] + s, i + 1) == [x] + Drop(s, i)
  {
  }

  lemma {:induction false} KeysOfDrop<V>(es: seq<Entry<V>>, key: string)
    requires Distinct(es)
    ensures Keys(Drop(es, IndexOf(es, key))) == Without(Keys(es), key)
  {
    if es != [] {
      var i := IndexOf(es[1..], key);
      KeysOfDrop(es[1..], key);
      assert Keys(es)[1..] == Keys(es[1..]);
      if es[0].key == key {
        KeysMembers(es[1..]);
        WithoutAbsent(Keys(es[1..]), key);
        assert Drop(es, 0) == es[1..];
      } else {
        DropCons(es[0], es[1..], i);
        assert es == [es[0]] + es[1..];
        KeysConcat([es[0]], Drop(es[1..], i));
      }
    }
  }

  lemma {:induction false} KeysMembers<V>(es: seq<Entry<V>>)
    ensures forall k :: k in Keys(es) <==> exists x :: x in es && x.key == k
  {
    if es != [] {
      KeysMembers(es[1..]);
      assert forall x :: x in es <==> x == es[0] || x in es[1..];
    }
  }

  lemma KeysOfPut<V>(es: seq<Entry<V>>, e: Entry<V>)
    requires Distinct(es)
    ensures Keys(Put(es, e)) == Touch(Keys(es), e.key)
  {
    KeysOfDrop(es, e.key);
    KeysConcat([e], Drop(es, IndexOf(es, e.key)));
  }

  // Whatever the sizes: a Get that hits and every Add bring the key to the front
  // and leave the others in order; then Add may lose the last.
  lemma TouchedKeyLeads<V>(es: seq<Entry<V>>, e: Entry<V>, maxBytes: int)
    requires Distinct(es)
    ensures Lookup(es, e.key).Some? ==> Keys(AfterGet(es, e.key)) == Touch(Keys(es), e.key)
    ensures Lookup(es, e.key) == None ==> AfterGet(es, e.key) == es
    ensures Keys(AfterAdd(es, e, maxBytes)) + Keys(Evicted(es, e, maxBytes)) == Touch(Keys(es), e.key)
  {
    hide Drop, Distinct, Touch, Total;
    var i := IndexOf(es, e.key);
    if i < |es| {
      HitIsPut(es, i, e.key);
      KeysOfPut(es, es[i]);
    }
    KeysOfPut(es, e);
    PutIsNotEmpty(es, e);
    TrimSplits(Put(es, e), maxBytes);
    KeysConcat(AfterAdd(es, e, maxBytes), Evicted(es, e, maxBytes));
  }

  lemma OverBudgetIff<V>(all: seq<Entry<V>>, maxBytes: int, s: nat)
    requires 1 <= s && SizesWithin(all, s, s)
    ensures all != [] ==> (Total(all) > maxBytes <==> |all| > Capacity(maxBytes, s))
  {
    TotalBounds(all, s, s);
    if maxBytes >= 0 { BoundByProduct(|all|, maxBytes, s, s); }
  }

  // Eviction trims to the capacity when all entries have one size.
  lemma TrimToCapacity<V>(all: seq<Entry<V>>, maxBytes: int, s: nat)
    requires 1 <= s && SizesWithin(all, s, s) && all != [] && |all| <= Capacity(maxBytes, s) + 1
    ensures Keys(Trim(all, maxBytes)) == Newest(Keys(all), Capacity(maxBytes, s))
  {
    OverBudgetIff(all, maxBytes, s);
    SplitLast(all);
    KeysConcat(all[..|all| - 1], [all[|all| - 1]]);
  }

  // The newest keys of a touch list, each with an entry of size s.
  ghost predicate Mirrors<V>(es: seq<Entry<V>>, recent: seq<string>, maxBytes: int, s: nat)
    requires 1 <= s
  {
    && Distinct(es) && SizesWithin(es, s, s)
    && Keys(es) == Newest(recent, Capacity(maxBytes, s))
  }

  lemma AddMirrors<V>(es: seq<Entry<V>>, recent: seq<string>, e: Entry<V>, maxBytes: int, s: nat)
    requires 1 <= s && NoDup(recent) && Mirrors(es, recent, maxBytes, s) && Size(e) == s
    ensures Mirrors(AfterAdd(es, e, maxBytes), Touch(recent, e.key), maxBytes, s)
  {
    var all := Put(es, e);
    hide Put, Total;
    assert Step(es, Add(e), maxBytes) == AfterAdd(es, e, maxBytes);
    StepDistinct(es, Add(e), maxBytes);
    StepMembers(es, Add(e), maxBytes);
    PutMembers(es, e);
    KeysOfPut(es, e);
    NewestAfterTouch(recent, Capacity(maxBytes, s), e.key);
    TrimToCapacity(all, maxBytes, s);
  }

  lemma HitMirrors<V>(es: seq<Entry<V>>, recent: seq<string>, key: string, maxBytes: int, s: nat)
    requires 1 <= s && NoDup(recent) && Mirrors(es, recent, maxBytes, s) && Lookup(es, key).Some?
    ensures Mirrors(AfterGet(es, key), Touch(recent, key), maxBytes, s)
  {
    var i := IndexOf(es, key);
    hide Total;
    HitIsPut(es, i, key);
    assert Step<V>(es, Get(key), maxBytes) == AfterGet(es, key);
    StepDistinct<V>(es, Get(key), maxBytes);
    StepMembers<V>(es, Get(key), maxBytes);
    KeysOfPut(es, es[i]);
    KeysMembers(es);
    NewestAfterTouch(recent, Capacity(maxBytes, s), key);
    WithoutPresent(Keys(es), key) by { DistinctNoDup(es); assert es[i] in es; }
  }

  lemma {:induction false} DistinctNoDup<V>(es: seq<Entry<V>>)
    requires Distinct(es)
    ensures NoDup(Keys(es))
  {
    if es != [] {
      DistinctNoDup(es[1..]);
      KeysMembers(es[1..]);
      assert Keys(es)[1..] == Keys(es[1..]);
    }
  }

  // ---------- Runs of Get and Add ----------

  function Recency(touches: seq<string>): seq<string>
  {
    Recent(touches, |touches|)
  }

  lemma {:induction false} RecentPrefix(touches: seq<string>, key: string, k: nat)
    requires k <= |touches|
    ensures Recent(touches + [key], k) == Recent(touches, k)
  {
    if k > 0 { RecentPrefix(touches, key, k - 1); }
  }

  lemma RecencySnoc(touches: seq<string>, key: string)
    ensures Recency(touches + [key]) == Touch(Recency(touches), key)
    ensures NoDup(Recency(touches))
  {
    RecentPrefix(touches, key, |touches|);
    RecentNoDup(touches, |touches|);
  }

  // The key an operation touches: added, or looked up and found.
  function Touched<V>(es: seq<Entry<V>>, op: Op<V>): seq<string>
  {
    match op
    case Add(e) => [e.key]
    case Get(key) => if Lookup(es, key).Some? then [key] else []
  }

  function Touches<V>(ops: seq<Op<V>>, k: nat, maxBytes: int): seq<string>
    requires k <= |ops|
  {
    if k == 0 then []
    else Touches(ops, k - 1, maxBytes) + Touched(Run(ops, k - 1, maxBytes), ops[k - 1])
  }

  lemma EmptyMirrors<V>(maxBytes: int, s: nat)
    requires 1 <= s
    ensures Mirrors<V>([], Recency([]), maxBytes, s)
  {
  }

  lemma StepMirrors<V>(es: seq<Entry<V>>, touches: seq<string>, op: Op<V>, maxBytes: int, s: nat)
    requires 1 <= s && Mirrors(es, Recency(touches), maxBytes, s) && (op.Add? ==> Size(op.entry) == s)
    ensures Mirrors(Step(es, op, maxBytes), Recency(touches + Touched(es, op)), maxBytes, s)
  {
    hide Mirrors, AfterAdd, Recency;
    match op
    case Add(e) =>
      RecencySnoc(touches, e.key);
      AddMirrors(es, Recency(touches), e, maxBytes, s);
    case Get(key) =>
      if Lookup(es, key).Some? {
        RecencySnoc(touches, key);
        HitMirrors(es, Recency(touches), key, maxBytes, s);
      } else {
        assert touches + [] == touches;
      }
  }

  // The cache contents are always the maxBytes / s most recently touched keys.
  lemma {:induction false} ContentsAreMostRecent<V>(ops: seq<Op<V>>, k: nat, maxBytes: int, s: nat)
    requires k <= |ops| && 1 <= s && AddsWithin(ops, s, s)
    ensures Mirrors(Run(ops, k, maxBytes), Recency(Touches(ops, k, maxBytes)), maxBytes, s)
  {
    hide Step, Touched, Recency, Mirrors;
    if k == 0 {
      EmptyMirrors<V>(maxBytes, s);
    } else {
      ContentsAreMostRecent(ops, k - 1, maxBytes, s);
      StepMirrors(Run(ops, k - 1, maxBytes), Touches(ops, k - 1, maxBytes), ops[k - 1], maxBytes, s);
    }
  }

  // ---------- Runs of loads through the cache ----------

  // A getter serves a key with a value and its length, or fails.
  type Getter<!V> = string -> Option<(V, nat)>

  function Load<V>(es: seq<Entry<V>>, key: string, getter: Getter<V>, maxBytes: int): seq<Entry<V>>
  {
    NodeGet(es, key, getter(key), NoPeer, maxBytes).0
  }

  // The entries after loading the first k keys.
  function Loads<V>(keys: seq<string>, k: nat, getter: Getter<V>, maxBytes: int): seq<Entry<V>>
    requires k <= |keys|
  {
    if k == 0 then [] else Load(Loads(keys, k - 1, getter, maxBytes), keys[k - 1], getter, maxBytes)
  }

  function Served<V>(keys: seq<string>, k: nat, getter: Getter<V>): seq<string>
    requires k <= |keys|
  {
    if k == 0 then []
    else Served(keys, k - 1, getter) + if Serves(getter, keys[k - 1]) then [keys[k - 1]] else []
  }

  // The empty key is refused before the getter is asked.
  predicate Serves<V>(getter: Getter<V>, key: string)
  {
    key != "" && getter(key).Some?
  }

  ghost predicate Uniform<V>(getter: Getter<V>, s: nat)
  {
    forall key: string :: getter(key).Some? ==> |key| + getter(key).value.1 == s
  }

  ghost predicate FromGetter<V>(es: seq<Entry<V>>, getter: Getter<V>)
  {
    forall x :: x in es ==> getter(x.key) == Some((x.value, x.len))
  }

  lemma LoadFromGetter<V>(es: seq<Entry<V>>, key: string, getter: Getter<V>, maxBytes: int)
    requires FromGetter(es, getter)
    ensures FromGetter(Load(es, key, getter, maxBytes), getter)
  {
    hide Put, Total, Drop;
    if Lookup(es, key).Some? {
      StepMembers(es, Get(key), maxBytes);
    } else if getter(key).Some? {
      var e := Entry(key, getter(key).value.0, getter(key).value.1);
      StepMembers(es, Add(e), maxBytes);
    }
  }

  lemma {:induction false} LoadsFromGetter<V>(keys: seq<string>, k: nat, getter: Getter<V>, maxBytes: int)
    requires k <= |keys|
    ensures FromGetter(Loads(keys, k, getter, maxBytes), getter)
  {
    hide Load;
    if k > 0 {
      LoadsFromGetter(keys, k - 1, getter, maxBytes);
      LoadFromGetter(Loads(keys, k - 1, getter, maxBytes), keys[k - 1], getter, maxBytes);
    }
  }

  lemma LoadMirrors<V>(es: seq<Entry<V>>, served: seq<string>, key: string, getter: Getter<V>, maxBytes: int, s: nat)
    requires 1 <= s && Uniform(getter, s) && FromGetter(es, getter)
    requires Mirrors(es, Recency(served), maxBytes, s)
    ensures Mirrors(Load(es, key, getter, maxBytes),
                    Recency(served + if Serves(getter, key) then [key] else []), maxBytes, s)
  {
    hide Mirrors, AfterAdd, Recency;
    if key != "" && Lookup(es, key).Some? {
      assert getter(key).Some? by { assert es[IndexOf(es, key)] in es; }
      RecencySnoc(served, key);
      HitMirrors(es, Recency(served), key, maxBytes, s);
    } else if Serves(getter, key) {
      RecencySnoc(served, key);
      AddMirrors(es, Recency(served), Entry(key, getter(key).value.0, getter(key).value.1), maxBytes, s);
    } else {
      assert served + [] == served;
    }
  }

  // After any run of loads the cache holds the most recently served keys.
  lemma {:induction false} LoadsAreMostRecent<V>(keys: seq<string>, k: nat, getter: Getter<V>, maxBytes: int, s: nat)
    requires k <= |keys| && 1 <= s && Uniform(getter, s)
    ensures Mirrors(Loads(keys, k, getter, maxBytes), Recency(Served(keys, k, getter)), maxBytes, s)
  {
    hide Load, Recency, Mirrors, Uniform;
    if k == 0 {
      EmptyMirrors<V>(maxBytes, s);
    } else {
      LoadsAreMostRecent(keys, k - 1, getter, maxBytes, s);
      LoadsFromGetter(keys, k - 1, getter, maxBytes);
      LoadMirrors(Loads(keys, k - 1, getter, maxBytes), Served(keys, k - 1, getter), keys[k - 1], getter, maxBytes, s);
    }
  }

  lemma {:induction false} KeysDetermineEntries<V>(a: seq<Entry<V>>, b: seq<Entry<V>>, getter: Getter<V>)
    requires FromGetter(a, getter) && FromGetter(b, getter) && Keys(a) <= Keys(b)
    ensures a <= b
  {
    if a != [] {
      assert Keys(a)[0] == Keys(b)[0];
      assert Keys(a)[1..] == Keys(a[1..]) && Keys(b)[1..] == Keys(b[1..]);
      assert a[0] in a && b[0] in b;
      KeysDetermineEntries(a[1..], b[1..], getter);
      assert a == [a[0]] + a[1..] && b == [b[0]] + b[1..];
    }
  }

  // For the same loads, a larger budget holds the smaller one's entries, first
  // and in the same order.
  lemma LargerBudgetHoldsMore<V>(keys: seq<string>, k: nat, getter: Getter<V>, small: int, large: int, s: nat)
    requires k <= |keys| && 1 <= s && Uniform(getter, s) && small <= large
    ensures Loads(keys, k, getter, small) <= Loads(keys, k, getter, large)
  {
    hide Load, Recency;
    LoadsAreMostRecent(keys, k, getter, small, s);
    LoadsAreMostRecent(keys, k, getter, large, s);
    LoadsFromGetter(keys, k, getter, small);
    LoadsFromGetter(keys, k, getter, large);
    CapacityMonotone(small, large, s);
    KeysDetermineEntries(Loads(keys, k, getter, small), Loads(keys, k, getter, large), getter);
  }

  lemma CapacityMonotone(small: int, large: int, s: nat)
    requires 1 <= s && small <= large
    ensures Capacity(small, s) <= Capacity(large, s)
  {
    if small >= 0 {
      DivTimes(small, s);
      DivTimes(large, s);
      if large / s + 1 <= small / s { MulMonotone(large / s + 1, small / s, s); }
    }
  }
}
