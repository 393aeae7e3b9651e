// How many bytes the cache can hold although each Add evicts at most one entry.
module LruBudget {
  import opened LruModel

  predicate AddsWithin<V>(ops: seq<Op<V>>, m: nat, s: nat)
  {
    forall i :: 0 <= i < |ops| && ops[i].Add? ==> m <= Size(ops[i].entry) <= s
  }

  // ---------- The bound ----------

  lemma DivTimes(a: nat, b: nat)
    requires 1 <= b
    ensures b * (a / b) <= a < (a / b + 1) * b
  {
  }

  lemma MulMonotone(a: nat, b: nat, k: nat)
    requires a <= b
    ensures a * k <= b * k
  {
  }

  lemma BoundByProduct(len: nat, maxBytes: nat, m: nat, s: nat)
    requires 1 <= m
    ensures len * m <= maxBytes <==> len <= maxBytes / m
    ensures len <= maxBytes / m ==> len * s <= s * (maxBytes / m)
  {
    var q := maxBytes / m;
    DivTimes(maxBytes, m);
    if len <= q {
      MulMonotone(len, q, m);
      MulMonotone(len, q, s);
    } else {
      MulMonotone(q + 1, len, m);
    }
  }

  lemma StepStaysBounded<V>(es: seq<Entry<V>>, op: Op<V>, maxBytes: nat, m: nat, s: nat)
    requires 1 <= m && SizesWithin(es, m, s) && |es| <= maxBytes / m
    requires op.Add? ==> m <= Size(op.entry) <= s
    ensures SizesWithin(Step(es, op, maxBytes), m, s)
    ensures |Step(es, op, maxBytes)| <= maxBytes / m
  {
    var r := Step(es, op, maxBytes);
    StepMembers(es, op, maxBytes);
    if |r| > |es| {
      TotalBounds(r, m, s);
      BoundByProduct(|r|, maxBytes, m, s);
    }
  }

  lemma FewFit<V>(es: seq<Entry<V>>, maxBytes: nat, m: nat, s: nat)
    requires 1 <= m && SizesWithin(es, m, s) && |es| <= maxBytes / m
    ensures Total(es) <= s * (maxBytes / m)
  {
    TotalBounds(es, m, s);
    BoundByProduct(|es|, maxBytes, m, s);
  }

  // Although Add evicts at most one entry, the number of entries stays bounded by
  // the budget over the smallest size, and hence the bytes too.
  lemma {:induction false} BytesStayBounded<V>(ops: seq<Op<V>>, k: nat, maxBytes: nat, m: nat, s: nat)
    requires k <= |ops| && 1 <= m && AddsWithin(ops, m, s)
    ensures SizesWithin(Run(ops, k, maxBytes), m, s)
    ensures |Run(ops, k, maxBytes)| <= maxBytes / m
    ensures Total(Run(ops, k, maxBytes)) <= s * (maxBytes / m)
  {
    hide Step;
    if k > 0 {
      BytesStayBounded(ops, k - 1, maxBytes, m, s);
      StepStaysBounded(Run(ops, k - 1, maxBytes), ops[k - 1], maxBytes, m, s);
    }
    FewFit(Run(ops, k, maxBytes), maxBytes, m, s);
  }

  // With one size for all entries the budget itself is respected.
  lemma EqualSizesStayWithinBudget<V>(ops: seq<Op<V>>, k: nat, maxBytes: nat, s: nat)
    requires k <= |ops| && 1 <= s && AddsWithin(ops, s, s)
    ensures Total(Run(ops, k, maxBytes)) <= maxBytes
  {
    BytesStayBounded(ops, k, maxBytes, s, s);
    DivTimes(maxBytes, s);
  }

  // ---------- The bound is attained ----------

  // Repeated addition, so that the run's arithmetic stays linear.
  function Times(n: nat, k: nat): nat
  {
    if n == 0 then 0 else k + Times(n - 1, k)
  }

  lemma {:induction false} TimesIsProduct(n: nat, k: nat)
    ensures Times(n, k) == n * k
  {
    if n > 0 {
      TimesIsProduct(n - 1, k);
      MulSucc(n - 1, k);
    }
  }

  lemma {:induction false} TimesMonotone(a: nat, b: nat, k: nat)
    requires a <= b
    ensures Times(a, k) <= Times(b, k)
  {
    if a < b { TimesMonotone(a, b - 1, k); }
  }

  // Distinct keys, none longer than m.
  predicate FitKeys(keys: seq<string>, m: nat)
  {
    && (forall i :: 0 <= i < |keys| ==> |keys[i]| <= m)
    && (forall i, j :: 0 <= i < j < |keys| ==> KeysDiffer(keys, i, j))
  }

  predicate KeysDiffer(keys: seq<string>, i: nat, j: nat)
    requires i < j < |keys|
  {
    keys[i] != keys[j]
  }

  // Entry i of a sample of 2 * n entries: of size m for the first n, of size s for
  // the others. The n + 1 keys are used in turn, so n + 1 entries in a row have
  // different ones.
  datatype Sample<V> = Sample(keys: seq<string>, n: nat, m: nat, s: nat, value: V)
  {
    predicate Valid() { 1 <= m <= s && FitKeys(keys, m) && |keys| == n + 1 }

    function KeyIndex(i: nat): (k: nat)
      requires Valid() && i < 2 * n
      ensures k < |keys|
    {
      if i <= n then i else i - n - 1
    }

    function At(i: nat): (e: Entry<V>)
      requires Valid() && i < 2 * n
      ensures e.key == keys[KeyIndex(i)] && Size(e) == if i < n then m else s
    {
      var key := keys[KeyIndex(i)];
      Entry(key, value, (if i < n then m else s) - |key|)
    }

    // The entries from lo up to hi, newest first.
    function Between(lo: nat, hi: nat): (es: seq<Entry<V>>)
      requires Valid() && lo <= hi <= 2 * n
      ensures |es| == hi - lo
    {
      if lo == hi then [] else [At(hi - 1)] + Between(lo, hi - 1)
    }

    function Adds(): (ops: seq<Op<V>>)
      requires Valid()
      ensures |ops| == 2 * n && AddsWithin(ops, m, s)
      ensures forall i :: 0 <= i < 2 * n ==> ops[i] == Add(At(i))
    {
      seq(2 * n, i requires 0 <= i < 2 * n => Add(At(i)))
    }

    lemma {:induction false} IsNew(lo: nat, hi: nat, t: nat)
      requires Valid() && lo <= hi <= t < 2 * n && t - lo <= n
      ensures IndexOf(Between(lo, hi), keys[KeyIndex(t)]) == hi - lo
    {
      if lo < hi {
        IsNew(lo, hi - 1, t);
        var a, b := KeyIndex(hi - 1), KeyIndex(t);
        assert if a < b then KeysDiffer(keys, a, b) else KeysDiffer(keys, b, a);
        assert Between(lo, hi)[1..] == Between(lo, hi - 1);
      }
    }

    lemma {:induction false} BetweenTotal(lo: nat, hi: nat)
      requires Valid() && lo <= hi <= 2 * n
      ensures Times(hi - lo, m) <= Total(Between(lo, hi))
      ensures hi <= n ==> Total(Between(lo, hi)) == Times(hi - lo, m)
      ensures n <= lo ==> Total(Between(lo, hi)) == Times(hi - lo, s)
    {
      if lo < hi {
        BetweenTotal(lo, hi - 1);
        assert Between(lo, hi)[1..] == Between(lo, hi - 1);
      }
    }

    lemma {:induction false} DropOldest(lo: nat, hi: nat)
      requires Valid() && lo < hi <= 2 * n
      ensures Between(lo, hi)[..hi - lo - 1] == Between(lo + 1, hi)
    {
      if lo + 1 < hi {
        DropOldest(lo, hi - 1);
        var rest := Between(lo, hi - 1);
        assert ([At(hi - 1)] + rest)[..hi - lo - 1] == [At(hi - 1)] + rest[..hi - lo - 2];
      }
    }

    ghost predicate Holds(es: seq<Entry<V>>, lo: nat, hi: nat)
      requires Valid() && lo <= hi <= 2 * n
    {
      es == Between(lo, hi)
    }

    lemma PutNext(lo: nat, t: nat)
      requires Valid() && lo <= t < 2 * n && t - lo <= n
      ensures Put(Between(lo, t), At(t)) == Between(lo, t + 1)
    {
      IsNew(lo, t, t);
    }

    // Adding the next entry to the last t - lo ones.
    lemma AddNext(es: seq<Entry<V>>, lo: nat, t: nat, maxBytes: nat)
      requires Valid() && lo <= t < 2 * n && t - lo <= n && Holds(es, lo, t)
      ensures if Total(Between(lo, t + 1)) > maxBytes then Holds(AfterAdd(es, At(t), maxBytes), lo + 1, t + 1)
              else Holds(AfterAdd(es, At(t), maxBytes), lo, t + 1)
    {
      hide Put, Total;
      PutNext(lo, t);
      DropOldest(lo, t + 1);
    }

    // One more entry that fits: none goes.
    lemma AddKeepsAll(es: seq<Entry<V>>, lo: nat, t: nat, maxBytes: nat)
      requires Valid() && lo <= t < 2 * n && t < n && Times(n, m) <= maxBytes && Holds(es, lo, t)
      ensures Holds(AfterAdd(es, At(t), maxBytes), lo, t + 1)
    {
      hide AfterAdd, Total, Between, Times, Holds, FitKeys;
      AddNext(es, lo, t, maxBytes);
      BetweenTotal(lo, t + 1);
      TimesMonotone(t + 1 - lo, n, m);
    }

    // One more entry than fits: the oldest goes.
    lemma AddEvictsOldest(es: seq<Entry<V>>, lo: nat, t: nat, maxBytes: nat)
      requires Valid() && lo + n == t < 2 * n && maxBytes < Times(n + 1, m) && Holds(es, lo, t)
      ensures Holds(AfterAdd(es, At(t), maxBytes), lo + 1, t + 1)
    {
      hide AfterAdd, Total, Between, Times, Holds, FitKeys;
      AddNext(es, lo, t, maxBytes);
      BetweenTotal(lo, t + 1);
      assert t + 1 - lo == n + 1;
    }

    lemma RunNext(t: nat, maxBytes: nat)
      requires Valid() && 0 < t <= 2 * n
      ensures Run(Adds(), t, maxBytes) == AfterAdd(Run(Adds(), t - 1, maxBytes), At(t - 1), maxBytes)
    {
    }

    // While they fit, all entries are kept; from then on the newest n.
    lemma {:induction false} KeepsAll(lo: nat, t: nat, maxBytes: nat)
      requires Valid() && lo == 0 && t <= 2 * n && t <= n && Times(n, m) <= maxBytes
      ensures Holds(Run(Adds(), t, maxBytes), lo, t)
      decreases t
    {
      hide Step, AfterAdd;
      if t > 0 {
        KeepsAll(lo, t - 1, maxBytes);
        AddKeepsAll(Run(Adds(), t - 1, maxBytes), lo, t - 1, maxBytes);
        RunNext(t, maxBytes);
      }
    }

    lemma {:induction false} KeepsNewest(lo: nat, t: nat, maxBytes: nat)
      requires Valid() && lo + n == t <= 2 * n && Times(n, m) <= maxBytes < Times(n + 1, m)
      ensures Holds(Run(Adds(), t, maxBytes), lo, t)
      decreases lo
    {
      hide Step, AfterAdd, Holds;
      if lo == 0 {
        KeepsAll(lo, t, maxBytes);
      } else {
        KeepsNewest(lo - 1, t - 1, maxBytes);
        AddEvictsOldest(Run(Adds(), t - 1, maxBytes), lo - 1, t - 1, maxBytes);
        RunNext(t, maxBytes);
      }
    }
  }

  // A run that ends with n = maxBytes / m entries of size s each.
  lemma BoundIsAttained<V>(keys: seq<string>, v: V, n: nat, maxBytes: nat, m: nat, s: nat) returns (ops: seq<Op<V>>)
    requires 1 <= m <= s && FitKeys(keys, m) && |keys| == n + 1
    requires Times(n, m) <= maxBytes < Times(n + 1, m)
    ensures AddsWithin(ops, m, s) && Total(Run(ops, |ops|, maxBytes)) == Times(n, s)
  {
    var sample := Sample(keys, n, m, s, v);
    ops := sample.Adds();
    sample.KeepsNewest(n, 2 * n, maxBytes);
    sample.BetweenTotal(n, 2 * n);
  }

  ghost predicate AlwaysWithinBudget<V(!new)>(v: V, maxBytes: nat, m: nat, s: nat)
  {
    forall ops: seq<Op<V>> :: AddsWithin(ops, m, s) ==> Total(Run(ops, |ops|, maxBytes)) <= maxBytes
  }

  // With entries of sizes from m to s and enough short keys, the byte count never
  // exceeds the budget exactly if s * (maxBytes / m) does not.
  lemma BudgetHoldsGivenKeys<V(!new)>(keys: seq<string>, v: V, maxBytes: nat, m: nat, s: nat)
    requires 1 <= m <= s && FitKeys(keys, m) && |keys| == maxBytes / m + 1
    ensures AlwaysWithinBudget(v, maxBytes, m, s) <==> s * (maxBytes / m) <= maxBytes
  {
    var n := maxBytes / m;
    DivTimes(maxBytes, m);
    TimesIsProduct(n, m);
    TimesIsProduct(n + 1, m);
    TimesIsProduct(n, s);
    var ops := BoundIsAttained(keys, v, n, maxBytes, m, s);
    forall ops: seq<Op<V>> | AddsWithin(ops, m, s)
      ensures Total(Run(ops, |ops|, maxBytes)) <= s * (maxBytes / m)
    {
      BytesStayBounded(ops, |ops|, maxBytes, m, s);
    }
  }

  // ---------- Keys of m bytes ----------

  const ALPHABET := 0x100

  // How many strings of m bytes there are.
  function Spellings(m: nat): nat
  {
    if m == 0 then 1 else ALPHABET * Spellings(m - 1)
  }

  // The characters are bytes, so that the length counts bytes.
  function Spell(i: nat, m: nat): (key: string)
    ensures |key| == m && forall k :: 0 <= k < m ==> key[k] as int < ALPHABET
  {
    if m == 0 then "" else Spell(i / ALPHABET, m - 1) + [(i % ALPHABET) as char]
  }

  lemma {:induction false} SpellInjective(i: nat, j: nat, m: nat)
    requires i < Spellings(m) && j < Spellings(m) && Spell(i, m) == Spell(j, m)
    ensures i == j
  {
    if m > 0 {
      assert Spell(i, m)[..m - 1] == Spell(i / ALPHABET, m - 1) && Spell(j, m)[..m - 1] == Spell(j / ALPHABET, m - 1);
      assert Spell(i, m)[m - 1] == (i % ALPHABET) as char && Spell(j, m)[m - 1] == (j % ALPHABET) as char;
      SpellInjective(i / ALPHABET, j / ALPHABET, m - 1);
    }
  }

  function Spelled(n: nat, m: nat): (keys: seq<string>)
    ensures |keys| == n
    ensures forall i :: 0 <= i < n ==> keys[i] == Spell(i, m)
  {
    seq(n, i requires 0 <= i < n => Spell(i, m))
  }

  lemma SpelledFit(n: nat, m: nat)
    requires n <= Spellings(m)
    ensures FitKeys(Spelled(n, m), m)
  {
    var keys := Spelled(n, m);
    forall i, j | 0 <= i < j < n ensures KeysDiffer(keys, i, j) {
      if Spell(i, m) == Spell(j, m) { SpellInjective(i, j, m); }
    }
  }

  // So for any budget with fewer than Spellings(m) entries of size m: the budget is
  // kept in every run exactly if s * (maxBytes / m) does not exceed it.
  lemma BudgetHoldsIff<V(!new)>(v: V, maxBytes: nat, m: nat, s: nat)
    requires 1 <= m <= s && maxBytes / m < Spellings(m)
    ensures AlwaysWithinBudget(v, maxBytes, m, s) <==> s * (maxBytes / m) <= maxBytes
  {
    hide AlwaysWithinBudget, Spelled, FitKeys, Spellings;
    var n := maxBytes / m + 1;
    SpelledFit(n, m);
    BudgetHoldsGivenKeys(Spelled(n, m), v, maxBytes, m, s);
  }

  // From m = 8 on that is every budget that fits 63 bits.
  lemma SpellingsSuffice(maxBytes: nat, m: nat)
    requires m >= 8 && maxBytes < 0x8000_0000_0000_0000
    ensures maxBytes / m < Spellings(m)
  {
    SpellingsGrow(m);
  }

  lemma {:induction false} SpellingsGrow(m: nat)
    requires m >= 8
    ensures Spellings(m) >= 0x1_0000_0000_0000_0000
  {
    if m > 8 {
      SpellingsGrow(m - 1);
    } else {
      assert Spellings(2) == 0x1_0000 && Spellings(4) == 0x1_0000_0000 && Spellings(6) == 0x1_0000_0000_0000;
    }
  }
}
