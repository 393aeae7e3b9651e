// The hash ring: points that belong to nodes, and the owner of a key.
module ConsistentHash {
  import opened Text

  type Hash = string -> nat

  // ---------- Labels of virtual nodes ----------

  function Digit(d: nat): char
    requires d < 10
  {
    ['0', '1', '2', '3', '4', '5', '6', '7', '8', '9'][d]
  }

  predicate IsDigit(c: char) { '0' <= c <= '9' }

  function Itoa(n: nat): (s: string)
    ensures s != "" && forall i :: 0 <= i < |s| ==> IsDigit(s[i])
  {
    if n < 10 then [Digit(n)] else Itoa(n / 10) + [Digit(n % 10)]
  }

  function Label(i: nat, node: string): string
  {
    Itoa(i) + node
  }

  lemma {:induction false} ItoaInjective(i: nat, j: nat)
    requires Itoa(i) == Itoa(j)
    ensures i == j
  {
    var s := Itoa(i);
    assert s[|s| - 1] == Digit(i % 10) == Digit(j % 10);
    if i >= 10 && j >= 10 {
      assert Itoa(i / 10) == s[..|s| - 1] == Itoa(j / 10);
      ItoaInjective(i / 10, j / 10);
    }
  }

  predicate AreDigits(w: string)
  {
    forall i :: 0 <= i < |w| ==> IsDigit(w[i])
  }

  // The number that m's digits and then those of w spell.
  function Append(m: nat, w: string): nat
    requires AreDigits(w)
  {
    if w == "" then m else 10 * Append(m, w[..|w| - 1]) + (w[|w| - 1] as int - '0' as int)
  }

  lemma {:induction false} ItoaAppend(m: nat, w: string)
    requires m > 0 && AreDigits(w)
    ensures Append(m, w) > 0 && Itoa(Append(m, w)) == Itoa(m) + w
  {
    if w == "" {
      assert Itoa(m) + w == Itoa(m);
    } else {
      var front, d := w[..|w| - 1], w[|w| - 1] as int - '0' as int;
      ItoaAppend(m, front);
      assert Append(m, w) / 10 == Append(m, front) && Append(m, w) % 10 == d;
      assert Digit(d) == w[|w| - 1];
      assert w == front + [Digit(d)];
    }
  }

  lemma {:induction false} AppendGrows(i: nat, j: nat, w: string)
    requires i <= j && AreDigits(w)
    ensures Append(i, w) <= Append(j, w)
  {
    if w != "" { AppendGrows(i, j, w[..|w| - 1]); }
  }

  lemma {:induction false} ItoaHasNoLeadingZero(n: nat)
    requires n > 0
    ensures Itoa(n)[0] != '0'
  {
    if n >= 10 { ItoaHasNoLeadingZero(n / 10); }
  }

  // a is b with digits in front that, after a 1, still number one of n replicas.
  predicate DigitsMore(a: string, b: string, n: nat)
  {
    && |b| < |a| && a[|a| - |b|..] == b
    && AreDigits(a[..|a| - |b|]) && Append(1, a[..|a| - |b|]) < n
  }

  ghost predicate ShareLabel(a: string, b: string, n: nat)
  {
    exists i: nat, j: nat :: i < n && j < n && Label(i, a) == Label(j, b)
  }

  lemma LongerNumber(i: nat, a: string, j: nat, b: string, n: nat)
    requires Label(i, a) == Label(j, b) && j < n && |Itoa(i)| < |Itoa(j)|
    ensures DigitsMore(a, b, n)
  {
    var s, t := Itoa(i), Itoa(j);
    var w := t[|s|..];
    assert t[0] == Label(j, b)[0] == s[0];
    if j > 0 { ItoaHasNoLeadingZero(j); }
    assert s == Label(i, a)[..|s|] && t == Label(j, b)[..|t|];
    assert t == s + w;
    assert a == Label(i, a)[|s|..] && Label(j, b) == s + (w + b);
    assert a == w + b;
    assert a[..|a| - |b|] == w && a[|a| - |b|..] == b;
    ItoaAppend(i, w);
    ItoaInjective(j, Append(i, w));
    AppendGrows(1, i, w);
  }

  // Labels are distinct unless one node's name is the other's with such digits in
  // front.
  lemma LabelInjective(i: nat, a: string, j: nat, b: string, n: nat)
    requires i < n && j < n && Label(i, a) == Label(j, b)
    requires !DigitsMore(a, b, n) && !DigitsMore(b, a, n)
    ensures i == j && a == b
  {
    if |Itoa(i)| < |Itoa(j)| { LongerNumber(i, a, j, b, n); }
    if |Itoa(j)| < |Itoa(i)| { LongerNumber(j, b, i, a, n); }
    assert Itoa(i) == Label(i, a)[..|Itoa(i)|] && a == Label(i, a)[|Itoa(i)|..];
    assert Itoa(j) == Label(j, b)[..|Itoa(j)|] && b == Label(j, b)[|Itoa(j)|..];
    ItoaInjective(i, j);
  }

  lemma DigitsMoreShare(a: string, b: string, n: nat)
    requires DigitsMore(a, b, n)
    ensures ShareLabel(a, b, n) && ShareLabel(b, a, n)
  {
    var w := a[..|a| - |b|];
    ItoaAppend(1, w);
    AppendExceeds(w);
    assert a == w + b;
    assert Label(Append(1, w), b) == Itoa(1) + w + b == Label(1, a);
  }

  lemma {:induction false} AppendExceeds(w: string)
    requires AreDigits(w)
    ensures Append(1, w) >= 1 && (|w| >= 1 ==> Append(1, w) >= 10) && (|w| >= 2 ==> Append(1, w) >= 100)
  {
    if w != "" { AppendExceeds(w[..|w| - 1]); }
  }

  // Two nodes share the label of some replica exactly if the name of one is that
  // of the other with such digits in front.
  lemma LabelsClashIff(a: string, b: string, n: nat)
    requires a != b
    ensures ShareLabel(a, b, n) <==> DigitsMore(a, b, n) || DigitsMore(b, a, n)
  {
    if DigitsMore(a, b, n) { DigitsMoreShare(a, b, n); }
    if DigitsMore(b, a, n) { DigitsMoreShare(b, a, n); }
    if ShareLabel(a, b, n) && !DigitsMore(a, b, n) && !DigitsMore(b, a, n) {
      var i: nat, j: nat :| i < n && j < n && Label(i, a) == Label(j, b);
      LabelInjective(i, a, j, b, n);
    }
  }

  predicate OneDigitMore(a: string, b: string)
  {
    a != "" && IsDigit(a[0]) && a[1..] == b
  }

  // With 20 to 100 replicas one digit in front is all that counts.
  lemma ClashIsOneDigit(a: string, b: string, n: nat)
    requires 20 <= n <= 100
    ensures DigitsMore(a, b, n) <==> OneDigitMore(a, b)
  {
    if |b| < |a| && AreDigits(a[..|a| - |b|]) {
      var w := a[..|a| - |b|];
      AppendExceeds(w);
      if |w| == 1 { assert Append(1, w) == 10 * Append(1, "") + (w[0] as int - '0' as int) by { assert w[..0] == ""; } }
    }
  }

  // ---------- Points and owners ----------

  // The points, each with the node it belongs to.
  type Owners = map<nat, string>

  function AddPoints(owners: Owners, hash: Hash, node: string, n: nat): Owners
  {
    if n == 0 then owners else AddPoints(owners, hash, node, n - 1)[hash(Label(n - 1, node)) := node]
  }

  // The points after adding the first k nodes with n replicas each.
  function AddNodes(owners: Owners, hash: Hash, n: nat, nodes: seq<string>, k: nat): Owners
    requires k <= |nodes|
  {
    if k == 0 then owners
    else AddPoints(AddNodes(owners, hash, n, nodes, k - 1), hash, nodes[k - 1], n)
  }

  // p is the first point at or after h; the smallest of all if there is none.
  ghost predicate IsOwnerPoint(points: set<nat>, h: nat, p: nat)
  {
    && p in points
    && if h <= p then forall q :: q in points && h <= q ==> p <= q
       else forall q :: q in points ==> p <= q < h
  }

  lemma OwnerPointUnique(points: set<nat>, h: nat, p: nat, q: nat)
    requires IsOwnerPoint(points, h, p) && IsOwnerPoint(points, h, q)
    ensures p == q
  {
  }

  lemma LeastExists(s: set<nat>) returns (m: nat)
    requires s != {}
    ensures m in s && forall q :: q in s ==> m <= q
  {
    m :| m in s;
    if s != {m} {
      var m' := LeastExists(s - {m});
      assert forall q :: q in s ==> q == m || q in s - {m};
      if m' < m { m := m'; }
    }
  }

  lemma OwnerPointExists(points: set<nat>, h: nat)
    requires points != {}
    ensures exists p: nat :: IsOwnerPoint(points, h, p)
  {
    var after := set p | p in points && h <= p;
    if after != {} {
      var p := LeastExists(after);
      assert forall q :: q in points && h <= q ==> q in after;
      assert IsOwnerPoint(points, h, p);
    } else {
      var p := LeastExists(points);
      forall q | q in points ensures q < h {
        assert h <= q ==> q in after;
      }
      assert IsOwnerPoint(points, h, p);
    }
  }

  ghost function OwnerPoint(points: set<nat>, h: nat): (p: nat)
    requires points != {}
    ensures IsOwnerPoint(points, h, p)
  {
    OwnerPointExists(points, h);
    var p: nat :| IsOwnerPoint(points, h, p);
    p
  }

  ghost function Owner(owners: Owners, h: nat): string
  {
    if owners == map[] then "" else
      assert owners.Keys != {} by { var p :| p in owners; }
      owners[OwnerPoint(owners.Keys, h)]
  }

  // ---------- Adding nodes moves keys only to them ----------

  // Points that kept their owner, except those now owned by added nodes.
  ghost predicate Extends(before: Owners, after: Owners, added: set<string>)
  {
    && before.Keys <= after.Keys
    && forall p :: p in after ==> after[p] in added || (p in before && before[p] == after[p])
  }

  lemma {:induction false} AddPointsExtends(owners: Owners, hash: Hash, node: string, n: nat)
    ensures Extends(owners, AddPoints(owners, hash, node, n), {node})
  {
    if n > 0 {
      AddPointsExtends(owners, hash, node, n - 1);
    }
  }

  lemma {:induction false} AddNodesExtends(owners: Owners, hash: Hash, n: nat, nodes: seq<string>, k: nat)
    requires k <= |nodes|
    ensures Extends(owners, AddNodes(owners, hash, n, nodes, k), set x | x in nodes[..k])
  {
    if k > 0 {
      AddNodesExtends(owners, hash, n, nodes, k - 1);
      AddPointsExtends(AddNodes(owners, hash, n, nodes, k - 1), hash, nodes[k - 1], n);
      assert nodes[..k] == nodes[..k - 1] + [nodes[k - 1]];
    }
  }

  // Whatever the hash, adding nodes leaves the owner of a key as it was or makes
  // it one of the added nodes.
  lemma AddingMovesOnlyToAdded(owners: Owners, hash: Hash, n: nat, nodes: seq<string>, h: nat)
    ensures var after := AddNodes(owners, hash, n, nodes, |nodes|);
      Owner(after, h) == Owner(owners, h) || Owner(after, h) in nodes
  {
    var after := AddNodes(owners, hash, n, nodes, |nodes|);
    AddNodesExtends(owners, hash, n, nodes, |nodes|);
    assert nodes[..|nodes|] == nodes;
    if after != map[] {
      assert after.Keys != {} by { var p :| p in after; }
      var p := OwnerPoint(after.Keys, h);
      if after[p] !in nodes {
        assert IsOwnerPoint(owners.Keys, h, p);
        OwnerPointUnique(owners.Keys, h, p, OwnerPoint(owners.Keys, h));
      }
    } else {
      assert owners == map[];
    }
  }

  // ---------- The order of the nodes ----------

  // Labels of different nodes have different hashes.
  ghost predicate Separated(hash: Hash, n: nat, nodes: set<string>)
  {
    forall a, b, i: nat, j: nat :: a in nodes && b in nodes && a != b && i < n && j < n ==>
      hash(Label(i, a)) != hash(Label(j, b))
  }

  ghost predicate HasPoint(hash: Hash, n: nat, node: string, p: nat)
  {
    exists i: nat :: i < n && hash(Label(i, node)) == p
  }

  // The ring of a list of nodes: each point belongs to the last node that has it.
  lemma {:induction false} PointsOfNode(owners: Owners, hash: Hash, node: string, n: nat, p: nat)
    ensures var after := AddPoints(owners, hash, node, n);
      if HasPoint(hash, n, node, p) then p in after && after[p] == node
      else (p in after <==> p in owners) && (p in after ==> after[p] == owners[p])
  {
    if n > 0 {
      PointsOfNode(owners, hash, node, n - 1, p);
      assert HasPoint(hash, n, node, p) <==> hash(Label(n - 1, node)) == p || HasPoint(hash, n - 1, node, p);
    }
  }

  function Ring(hash: Hash, n: nat, nodes: seq<string>): Owners
  {
    AddNodes(map[], hash, n, nodes, |nodes|)
  }

  ghost predicate LastWithPoint(hash: Hash, n: nat, nodes: seq<string>, k: nat, p: nat, j: nat)
    requires k <= |nodes|
  {
    && j < k && HasPoint(hash, n, nodes[j], p)
    && forall l :: j < l < k ==> !HasPoint(hash, n, nodes[l], p)
  }

  lemma {:induction false} PointBelongsToLast(hash: Hash, n: nat, nodes: seq<string>, k: nat, p: nat)
    requires k <= |nodes|
    ensures var ring := AddNodes(map[], hash, n, nodes, k);
      if p in ring then exists j: nat :: LastWithPoint(hash, n, nodes, k, p, j) && ring[p] == nodes[j]
      else forall j :: 0 <= j < k ==> !HasPoint(hash, n, nodes[j], p)
  {
    if k > 0 {
      var before := AddNodes(map[], hash, n, nodes, k - 1);
      PointBelongsToLast(hash, n, nodes, k - 1, p);
      PointsOfNode(before, hash, nodes[k - 1], n, p);
      if HasPoint(hash, n, nodes[k - 1], p) {
        assert LastWithPoint(hash, n, nodes, k, p, k - 1);
      } else if p in before {
        var j: nat :| LastWithPoint(hash, n, nodes, k - 1, p, j) && before[p] == nodes[j];
        assert LastWithPoint(hash, n, nodes, k, p, j);
      }
    }
  }

  lemma SeparatedOwner(hash: Hash, n: nat, nodes: seq<string>, members: set<string>, p: nat)
    requires Separated(hash, n, members) && forall x :: x in nodes <==> x in members
    ensures p in Ring(hash, n, nodes) <==> exists x :: x in members && HasPoint(hash, n, x, p)
    ensures p in Ring(hash, n, nodes) ==>
      Ring(hash, n, nodes)[p] in members && HasPoint(hash, n, Ring(hash, n, nodes)[p], p)
  {
    PointBelongsToLast(hash, n, nodes, |nodes|, p);
    if p in Ring(hash, n, nodes) {
      var j: nat :| LastWithPoint(hash, n, nodes, |nodes|, p, j) && Ring(hash, n, nodes)[p] == nodes[j];
      assert nodes[j] in nodes;
    } else {
      forall x | x in members ensures !HasPoint(hash, n, x, p) {
        var j :| 0 <= j < |nodes| && nodes[j] == x;
      }
    }
  }

  // If the hash separates the nodes, every order of them gives the same ring.
  lemma SameNodesSameRing(hash: Hash, n: nat, a: seq<string>, b: seq<string>, members: set<string>)
    requires Separated(hash, n, members)
    requires (forall x :: x in a <==> x in members) && (forall x :: x in b <==> x in members)
    ensures Ring(hash, n, a) == Ring(hash, n, b)
  {
    var ra, rb := Ring(hash, n, a), Ring(hash, n, b);
    forall p: nat ensures p in ra <==> p in rb
      ensures p in ra ==> ra[p] == rb[p]
    {
      SeparatedOwner(hash, n, a, members, p);
      SeparatedOwner(hash, n, b, members, p);
    }
  }

  ghost predicate Lists(nodes: seq<string>, members: set<string>)
  {
    |nodes| == |members| && forall x :: x in nodes <==> x in members
  }

  ghost function Enumerate(s: set<string>): (nodes: seq<string>)
    ensures Lists(nodes, s)
  {
    if s == {} then [] else
      var x :| x in s;
      assert s == (s - {x}) + {x};
      Enumerate(s - {x}) + [x]
  }

  ghost predicate OrderIrrelevant(hash: Hash, n: nat, members: set<string>)
  {
    forall a, b, key: string :: Lists(a, members) && Lists(b, members) ==>
      Owner(Ring(hash, n, a), hash(key)) == Owner(Ring(hash, n, b), hash(key))
  }

  // Listing x last gives it every point that it has.
  lemma LastOwnsItsPoints(hash: Hash, n: nat, members: set<string>, x: string, i: nat) returns (nodes: seq<string>)
    requires x in members && i < n
    ensures Lists(nodes, members)
    ensures Owner(Ring(hash, n, nodes), hash(Label(i, x))) == x
  {
    var p := hash(Label(i, x));
    nodes := Enumerate(members - {x}) + [x];
    assert members == (members - {x}) + {x};
    var last := |nodes| - 1;
    assert AddNodes(map[], hash, n, nodes, |nodes|) == AddPoints(AddNodes(map[], hash, n, nodes, last), hash, x, n);
    PointsOfNode(AddNodes(map[], hash, n, nodes, last), hash, x, n, p);
    assert HasPoint(hash, n, x, p);
    var ring := Ring(hash, n, nodes);
    assert p in ring && ring[p] == x;
    assert IsOwnerPoint(ring.Keys, p, p);
    OwnerPointUnique(ring.Keys, p, p, OwnerPoint(ring.Keys, p));
  }

  // All orders of a set of nodes agree on the owner of every key exactly when the
  // hash separates the nodes' labels.
  lemma OrderIrrelevantIffSeparated(hash: Hash, n: nat, members: set<string>)
    ensures OrderIrrelevant(hash, n, members) <==> Separated(hash, n, members)
  {
    if Separated(hash, n, members) {
      forall a, b, key: string | Lists(a, members) && Lists(b, members)
        ensures Owner(Ring(hash, n, a), hash(key)) == Owner(Ring(hash, n, b), hash(key))
      {
        SameNodesSameRing(hash, n, a, b, members);
      }
    } else {
      var x, y, i: nat, j: nat :| x in members && y in members && x != y && i < n && j < n
        && hash(Label(i, x)) == hash(Label(j, y));
      var a := LastOwnsItsPoints(hash, n, members, x, i);
      var b := LastOwnsItsPoints(hash, n, members, y, j);
      assert Owner(Ring(hash, n, a), hash(Label(i, x))) != Owner(Ring(hash, n, b), hash(Label(i, x)));
    }
  }

  // Distinct labels of the nodes have distinct hashes.
  ghost predicate SeparatesLabels(hash: Hash, n: nat, members: set<string>)
  {
    forall a, b, i: nat, j: nat :: a in members && b in members && i < n && j < n && Label(i, a) != Label(j, b) ==>
      hash(Label(i, a)) != hash(Label(j, b))
  }

  ghost predicate NamesClash(n: nat, members: set<string>)
  {
    exists a, b :: a in members && b in members && DigitsMore(a, b, n)
  }

  // A hash that separates labels separates the nodes exactly if no node's name is
  // another's with digits in front.
  lemma DistinctLabelsSeparate(hash: Hash, n: nat, members: set<string>)
    requires SeparatesLabels(hash, n, members)
    ensures Separated(hash, n, members) <==> !NamesClash(n, members)
  {
    if NamesClash(n, members) {
      var a, b :| a in members && b in members && DigitsMore(a, b, n);
      DigitsMoreShare(a, b, n);
      var i: nat, j: nat :| i < n && j < n && Label(i, a) == Label(j, b);
    } else {
      forall a, b, i: nat, j: nat | a in members && b in members && a != b && i < n && j < n
        ensures hash(Label(i, a)) != hash(Label(j, b))
      {
        if Label(i, a) == Label(j, b) { LabelInjective(i, a, j, b, n); }
      }
    }
  }
}
