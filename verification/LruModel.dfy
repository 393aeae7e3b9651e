// The least-recently-used cache as a value: its entries, most recent first.
module LruModel {
  import opened Wrappers

  // A key, a value and the length the value reports.
  datatype Entry<V> = Entry(key: string, value: V, len: nat)

  function Size<V>(e: Entry<V>): nat { |e.key| + e.len }

  function Total<V>(es: seq<Entry<V>>): nat
  {
    if es == [] then 0 else Size(es[0]) + Total(es[1..])
  }

  // Position of a key, or the number of entries.
  function IndexOf<V>(es: seq<Entry<V>>, key: string): (i: nat)
    ensures i <= |es| && (i < |es| ==> es[i].key == key)
  {
    if es == [] || es[0].key == key then 0 else 1 + IndexOf(es[1..], key)
  }

  function Drop<T>(s: seq<T>, i: nat): seq<T>
  {
    if i < |s| then s[..i] + s[i + 1..] else s
  }

  // ---------- The two operations ----------

  function Lookup<V>(es: seq<Entry<V>>, key: string): Option<V>
  {
    var i := IndexOf(es, key);
    if i < |es| then Some(es[i].value) else None
  }

  // Get moves a present entry to the front.
  function AfterGet<V>(es: seq<Entry<V>>, key: string): seq<Entry<V>>
  {
    var i := IndexOf(es, key);
    if i < |es| then [es[i]] + Drop(es, i) else es
  }

  // Add puts the entry in front, replacing one with the same key ...
  function Put<V>(es: seq<Entry<V>>, e: Entry<V>): seq<Entry<V>>
  {
    [e] + Drop(es, IndexOf(es, e.key))
  }

  // ... and then evicts the last entry, once, if the budget is exceeded.
  function Trim<V>(all: seq<Entry<V>>, maxBytes: int): seq<Entry<V>>
    requires all != []
  {
    if Total(all) > maxBytes then all[..|all| - 1] else all
  }

  function Trimmed<V>(all: seq<Entry<V>>, maxBytes: int): seq<Entry<V>>
    requires all != []
  {
    if Total(all) > maxBytes then [all[|all| - 1]] else []
  }

  function AfterAdd<V>(es: seq<Entry<V>>, e: Entry<V>, maxBytes: int): seq<Entry<V>>
  {
    Trim(Put(es, e), maxBytes)
  }

  // What Add reports as evicted.
  function Evicted<V>(es: seq<Entry<V>>, e: Entry<V>, maxBytes: int): seq<Entry<V>>
  {
    Trimmed(Put(es, e), maxBytes)
  }

  // ---------- Runs ----------

  datatype Op<V> = Get(key: string) | Add(entry: Entry<V>)

  function Step<V>(es: seq<Entry<V>>, op: Op<V>, maxBytes: int): seq<Entry<V>>
  {
    match op
    case Get(key) => AfterGet(es, key)
    case Add(e) => AfterAdd(es, e, maxBytes)
  }

  // The entries after the first k operations of a run.
  function Run<V>(ops: seq<Op<V>>, k: nat, maxBytes: int): seq<Entry<V>>
    requires k <= |ops|
  {
    if k == 0 then [] else Step(Run(ops, k - 1, maxBytes), ops[k - 1], maxBytes)
  }

  // ---------- Sequences ----------

  lemma SplitLast<T>(s: seq<T>)
    requires s != []
    ensures s[..|s| - 1] + [s[|s| - 1]] == s
  {
  }

  lemma DropMembers<T>(s: seq<T>, i: nat)
    requires i < |s|
    ensures forall x :: x in s <==> x == s[i] || x in Drop(s, i)
  {
    assert s == s[..i] + [s[i]] + s[i + 1..];
  }

  lemma TrimSplits<V>(all: seq<Entry<V>>, maxBytes: int)
    requires all != []
    ensures Trim(all, maxBytes) + Trimmed(all, maxBytes) == all
  {
    SplitLast(all);
  }

  lemma TailOfConcat<T>(a: seq<T>, b: seq<T>)
    requires a != []
    ensures (a + b)[0] == a[0] && (a + b)[1..] == a[1..] + b
  {
  }

  // ---------- Totals ----------

  lemma {:induction false} TotalConcat<V>(a: seq<Entry<V>>, b: seq<Entry<V>>)
    ensures Total(a + b) == Total(a) + Total(b)
  {
    if a == [] {
      assert a + b == b;
    } else {
      TotalConcat(a[1..], b);
      assert (a + b)[1..] == a[1..] + b;
    }
  }

  lemma TotalDrop<V>(es: seq<Entry<V>>, i: nat)
    requires i < |es|
    ensures Total(Drop(es, i)) == Total(es) - Size(es[i])
  {
    TotalConcat(es[..i], es[i + 1..]);
    TotalConcat(es[..i], es[i..]);
    assert es == es[..i] + es[i..] && es[i..][1..] == es[i + 1..];
  }

  // The running byte count: what Add and eviction do to the total.
  lemma TotalPut<V>(es: seq<Entry<V>>, e: Entry<V>)
    ensures var i := IndexOf(es, e.key);
      Total(Put(es, e)) == Total(es) + Size(e) - if i < |es| then Size(es[i]) else 0
  {
    var i := IndexOf(es, e.key);
    if i < |es| { TotalDrop(es, i); }
    assert Put(es, e)[1..] == Drop(es, i);
  }

  lemma TotalLast<V>(es: seq<Entry<V>>)
    requires es != []
    ensures Total(es) == Total(es[..|es| - 1]) + Size(es[|es| - 1])
  {
    var n := |es| - 1;
    TotalConcat(es[..n], [es[n]]);
    SplitLast(es);
  }

  ghost predicate SizesWithin<V>(es: seq<Entry<V>>, m: nat, s: nat)
  {
    forall x :: x in es ==> m <= Size(x) <= s
  }

  lemma MulSucc(n: nat, k: nat)
    ensures (n + 1) * k == n * k + k
  {
  }

  lemma {:induction false} TotalBounds<V>(es: seq<Entry<V>>, m: nat, s: nat)
    requires SizesWithin(es, m, s)
    ensures |es| * m <= Total(es) <= |es| * s
  {
    if es != [] {
      TotalBounds(es[1..], m, s);
      MulSucc(|es[1..]|, m);
      MulSucc(|es[1..]|, s);
    }
  }

  // ---------- Distinct keys ----------

  ghost predicate Distinct<V>(es: seq<Entry<V>>)
  {
    es == [] || ((forall x :: x in es[1..] ==> x.key != es[0].key) && Distinct(es[1..]))
  }

  lemma {:induction false} DistinctConcat<V>(a: seq<Entry<V>>, b: seq<Entry<V>>)
    ensures Distinct(a + b) <==>
      Distinct(a) && Distinct(b) && forall x, y :: x in a && y in b ==> x.key != y.key
  {
    if a == [] {
      assert a + b == b;
    } else {
      DistinctConcat(a[1..], b);
      assert (a + b)[1..] == a[1..] + b;
      assert forall x :: x in a <==> x == a[0] || x in a[1..];
    }
  }

  lemma {:induction false} IndexOfAbsent<V>(es: seq<Entry<V>>, key: string)
    ensures IndexOf(es, key) == |es| <==> forall x :: x in es ==> x.key != key
  {
    if es != [] {
      IndexOfAbsent(es[1..], key);
      assert forall x :: x in es <==> x == es[0] || x in es[1..];
    }
  }

  lemma {:induction false} LookupMember<V>(es: seq<Entry<V>>, x: Entry<V>)
    requires Distinct(es) && x in es
    ensures Lookup(es, x.key) == Some(x.value)
  {
    if x != es[0] {
      assert x in es[1..];
      LookupMember(es[1..], x);
    }
  }

  lemma LookupIsMember<V>(es: seq<Entry<V>>, key: string)
    ensures Lookup(es, key).Some? ==> exists x :: x in es && x.key == key && x.value == Lookup(es, key).value
  {
    var i := IndexOf(es, key);
    if i < |es| { assert es[i] in es; }
  }

  lemma HitMembers<V>(es: seq<Entry<V>>, key: string)
    ensures forall x :: x in AfterGet(es, key) ==> x in es
    ensures Lookup(es, key) == None ==> AfterGet(es, key) == es
    ensures Lookup(es, key).Some? ==> exists x :: x in es && x.key == key && x.value == Lookup(es, key).value
  {
    var i := IndexOf(es, key);
    if i < |es| {
      DropMembers(es, i);
      LookupIsMember(es, key);
    }
  }

  lemma SplitAt<T>(s: seq<T>, i: nat)
    requires i < |s|
    ensures s == s[..i] + ([s[i]] + s[i + 1..])
  {
  }

  lemma ConsDistinct<V>(x: Entry<V>, es: seq<Entry<V>>)
    ensures Distinct([x] + es) <==> (forall y :: y in es ==> y.key != x.key) && Distinct(es)
  {
    assert ([x] + es)[1..] == es;
  }

  lemma DropDistinct<V>(es: seq<Entry<V>>, i: nat)
    requires Distinct(es) && i < |es|
    ensures Distinct(Drop(es, i)) && forall x :: x in Drop(es, i) ==> x.key != es[i].key
  {
    hide Distinct;
    var a, x, b := es[..i], es[i], es[i + 1..];
    SplitAt(es, i);
    DistinctConcat(a, [x] + b);
    ConsDistinct(x, b);
    DistinctConcat(a, b);
    assert ([x] + b)[0] == x;
  }

  lemma PutDistinct<V>(es: seq<Entry<V>>, e: Entry<V>)
    requires Distinct(es)
    ensures Distinct(Put(es, e))
  {
    var i := IndexOf(es, e.key);
    if i < |es| { DropDistinct(es, i); } else { IndexOfAbsent(es, e.key); }
    assert Put(es, e)[1..] == Drop(es, i);
  }

  // A hit is a Put of the entry found.
  lemma HitIsPut<V>(es: seq<Entry<V>>, i: nat, key: string)
    requires i == IndexOf(es, key) && i < |es|
    ensures AfterGet(es, key) == Put(es, es[i])
  {
  }

  lemma StepDistinct<V>(es: seq<Entry<V>>, op: Op<V>, maxBytes: int)
    requires Distinct(es)
    ensures Distinct(Step(es, op, maxBytes))
  {
    match op
    case Get(key) =>
      var i := IndexOf(es, key);
      if i < |es| {
        HitIsPut(es, i, key);
        PutDistinct(es, es[i]);
      }
    case Add(e) =>
      PutDistinct(es, e);
      TrimSplits(Put(es, e), maxBytes);
      DistinctConcat(AfterAdd(es, e, maxBytes), Evicted(es, e, maxBytes));
  }

  lemma {:induction false} RunDistinct<V>(ops: seq<Op<V>>, k: nat, maxBytes: int)
    requires k <= |ops|
    ensures Distinct(Run(ops, k, maxBytes))
  {
    hide Step;
    if k > 0 {
      RunDistinct(ops, k - 1, maxBytes);
      StepDistinct(Run(ops, k - 1, maxBytes), ops[k - 1], maxBytes);
    }
  }

  lemma PutMembers<V>(es: seq<Entry<V>>, e: Entry<V>)
    ensures forall x :: x in Put(es, e) ==> x == e || x in es
    ensures forall x :: x in es && x.key != e.key ==> x in Put(es, e)
    ensures e in Put(es, e)
  {
    var i := IndexOf(es, e.key);
    if i < |es| { DropMembers(es, i); }
  }

  lemma StepMembers<V>(es: seq<Entry<V>>, op: Op<V>, maxBytes: int)
    ensures forall x :: x in Step(es, op, maxBytes) ==> x in es || op == Add(x)
  {
    match op
    case Get(key) =>
      var i := IndexOf(es, key);
      if i < |es| {
        HitIsPut(es, i, key);
        PutMembers(es, es[i]);
      }
    case Add(e) =>
      PutMembers(es, e);
      TrimSplits(Put(es, e), maxBytes);
  }

  // After Add, no older entry has the added key.
  lemma AddReplacesKey<V>(es: seq<Entry<V>>, e: Entry<V>, maxBytes: int)
    requires Distinct(es)
    ensures forall x :: x in AfterAdd(es, e, maxBytes) ==> x == e || (x in es && x.key != e.key)
  {
    var i := IndexOf(es, e.key);
    TrimSplits(Put(es, e), maxBytes);
    PutMembers(es, e);
    if i < |es| { DropDistinct(es, i); } else { IndexOfAbsent(es, e.key); }
  }

  // ---------- When Add evicts ----------

  // Exactly one entry goes, the last, if the bytes after the addition exceed the
  // budget, and none otherwise.
  lemma EvictsIffOverBudget<V>(es: seq<Entry<V>>, e: Entry<V>, maxBytes: int)
    ensures var i := IndexOf(es, e.key);
      var now := Total(es) + Size(e) - if i < |es| then Size(es[i]) else 0;
      && (Evicted(es, e, maxBytes) == [] <==> now <= maxBytes)
      && |Evicted(es, e, maxBytes)| <= 1
      && AfterAdd(es, e, maxBytes) + Evicted(es, e, maxBytes) == Put(es, e)
  {
    hide Total, Put;
    TotalPut(es, e);
    PutIsNotEmpty(es, e);
    TrimSplits(Put(es, e), maxBytes);
  }

  lemma PutIsNotEmpty<V>(es: seq<Entry<V>>, e: Entry<V>)
    ensures Put(es, e) != []
  {
  }

  // ---------- What a lookup after Get or Add finds ----------

  // A Get changes no lookup.
  lemma GetKeepsLookups<V>(es: seq<Entry<V>>, key: string, other: string)
    requires Distinct(es)
    ensures Lookup(AfterGet(es, key), other) == Lookup(es, other)
  {
    hide Distinct, Drop;
    var after := AfterGet(es, key);
    assert Distinct(after) by { StepDistinct<V>(es, Get(key), 0); }
    SameMembersAfterGet(es, key);
    IndexOfAbsent(es, other);
    IndexOfAbsent(after, other);
    if Lookup(es, other).Some? {
      var x := es[IndexOf(es, other)];
      LookupMember(es, x);
      LookupMember(after, x);
    }
  }

  lemma SameMembersAfterGet<V>(es: seq<Entry<V>>, key: string)
    ensures forall x :: x in AfterGet(es, key) <==> x in es
  {
    var i := IndexOf(es, key);
    if i < |es| { DropMembers(es, i); }
  }

  // The key just added, unless it is alone and larger than the budget.
  lemma GetAfterAdd<V>(es: seq<Entry<V>>, e: Entry<V>, maxBytes: int)
    ensures Lookup(AfterAdd(es, e, maxBytes), e.key) ==
      if |Put(es, e)| == 1 && Size(e) > maxBytes then None else Some(e.value)
  {
    var all := Put(es, e);
    if |all| == 1 {
      assert all == [e] && Total(all) == Size(e);
    }
  }

  // Every other key keeps its value, except the one that is reported evicted.
  lemma AddKeepsOthers<V>(es: seq<Entry<V>>, e: Entry<V>, maxBytes: int, x: Entry<V>)
    requires Distinct(es) && x in es && x.key != e.key
    ensures Lookup(AfterAdd(es, e, maxBytes), x.key) ==
      if x in Evicted(es, e, maxBytes) then None else Some(x.value)
  {
    var kept, out := AfterAdd(es, e, maxBytes), Evicted(es, e, maxBytes);
    PutMembers(es, e);
    PutDistinct(es, e);
    TrimSplits(Put(es, e), maxBytes);
    DistinctConcat(kept, out);
    if x in out {
      IndexOfAbsent(kept, x.key);
    } else {
      LookupMember(kept, x);
    }
  }

  // No key appears that was neither there nor added.
  lemma AddAddsNoOthers<V>(es: seq<Entry<V>>, e: Entry<V>, maxBytes: int, key: string)
    requires Lookup(es, key) == None && key != e.key
    ensures Lookup(AfterAdd(es, e, maxBytes), key) == None
  {
    IndexOfAbsent(es, key);
    StepMembers(es, Add(e), maxBytes);
    IndexOfAbsent(AfterAdd(es, e, maxBytes), key);
  }
}
