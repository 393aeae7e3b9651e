// The order in which patterns compete for a request: a literal before a parameter
// before a star, at the first segment where their kinds differ. It decides every
// request; and it is told exactly when the tree follows it.
module RouteRank {
  import opened Wrappers
  import opened Text
  import opened RoutePattern
  import opened RouteTrie
  import opened RouteRuns
  import opened RouteTheorem

  function Rank(part: string): nat
  {
    if Star(part) then 2 else if Param(part) then 1 else 0
  }

  predicate OutranksAt(a: seq<string>, b: seq<string>, k: nat)
  {
    && k < |a| && k < |b|
    && (forall i :: 0 <= i < k ==> SameKind(a[i], b[i]))
    && Rank(a[k]) < Rank(b[k])
  }

  ghost predicate Outranks(a: seq<string>, b: seq<string>)
  {
    exists k: nat :: OutranksAt(a, b, k)
  }

  // Registration i answers req: it matches, outranks every match of another shape
  // and is the last of its shape.
  ghost predicate Top(regs: seq<string>, req: seq<string>, i: nat)
  {
    && i < |regs| && Matches(Segments(regs[i]), req)
    && forall j :: 0 <= j < |regs| && Matches(Segments(regs[j]), req) ==> Beats(regs, i, j)
  }

  ghost predicate Beats(regs: seq<string>, i: nat, j: nat)
    requires i < |regs| && j < |regs|
  {
    (j <= i && SameShape(Segments(regs[j]), Segments(regs[i]))) || Outranks(Segments(regs[i]), Segments(regs[j]))
  }

  predicate NoMatch(regs: seq<string>, req: seq<string>)
  {
    forall j :: 0 <= j < |regs| ==> !Matches(Segments(regs[j]), req)
  }

  ghost predicate CorrectInRank(regs: seq<string>, req: seq<string>, r: Option<Hit>)
  {
    match r
    case None => NoMatch(regs, req)
    case Some(h) => exists i: nat :: Top(regs, req, i) && regs[i] == h.pattern
  }

  // ---------- The order decides every request ----------

  // The first place where two lists differ in kind, or the end of one of them.
  function FirstDifference(a: seq<string>, b: seq<string>): (k: nat)
    ensures k <= |a| && k <= |b| && (forall i :: 0 <= i < k ==> SameKind(a[i], b[i]))
    ensures k < |a| && k < |b| ==> !SameKind(a[k], b[k])
  {
    if a == [] || b == [] || !SameKind(a[0], b[0]) then 0
    else
      var k := FirstDifference(a[1..], b[1..]);
      assert forall i :: 0 < i < k + 1 ==> a[i] == a[1..][i - 1] && b[i] == b[1..][i - 1];
      k + 1
  }

  lemma MatchesCompare(a: seq<string>, b: seq<string>, req: seq<string>)
    requires IsSegments(a) && IsSegments(b) && Matches(a, req) && Matches(b, req)
    ensures SameShape(a, b) || Outranks(a, b) || Outranks(b, a)
  {
    MatchesIndexed(a, req);
    MatchesIndexed(b, req);
    var k := FirstDifference(a, b);
    if k < |a| && k < |b| {
      assert OutranksAt(a, b, k) || OutranksAt(b, a, k);
    }
  }

  lemma OutranksTransitive(a: seq<string>, b: seq<string>, c: seq<string>)
    requires Outranks(a, b) && Outranks(b, c)
    ensures Outranks(a, c)
  {
    var k: nat, l: nat :| OutranksAt(a, b, k) && OutranksAt(b, c, l);
    assert OutranksAt(a, c, if k < l then k else l);
  }

  lemma OutranksIsStrict(a: seq<string>, b: seq<string>)
    requires Outranks(a, b)
    ensures !SameShape(a, b) && !Outranks(b, a)
  {
    var k: nat :| OutranksAt(a, b, k);
    forall l: nat ensures !OutranksAt(b, a, l) {
    }
  }

  lemma OutranksSameShape(a: seq<string>, b: seq<string>, c: seq<string>)
    requires SameShape(a, b)
    ensures Outranks(a, c) ==> Outranks(b, c)
    ensures Outranks(c, a) ==> Outranks(c, b)
  {
    if Outranks(a, c) {
      var k: nat :| OutranksAt(a, c, k);
      assert OutranksAt(b, c, k);
    }
    if Outranks(c, a) {
      var k: nat :| OutranksAt(c, a, k);
      assert OutranksAt(c, b, k);
    }
  }

  lemma SameShapeTransitive(a: seq<string>, b: seq<string>, c: seq<string>)
    requires SameShape(a, b) && SameShape(b, c)
    ensures SameShape(a, c) && SameShape(b, a)
  {
  }

  // i answers req among the first n registrations.
  ghost predicate TopOf(regs: seq<string>, n: nat, req: seq<string>, i: nat)
    requires n <= |regs|
  {
    && i < n && Matches(Segments(regs[i]), req)
    && forall j :: 0 <= j < n && Matches(Segments(regs[j]), req) ==> Beats(regs, i, j)
  }

  lemma BeatsStays(regs: seq<string>, i: nat, n: nat, j: nat)
    requires i < n < |regs| && j < n && Beats(regs, i, j) && Beats(regs, n, i)
    ensures Beats(regs, n, j)
  {
    var a, b, c := Segments(regs[n]), Segments(regs[i]), Segments(regs[j]);
    if SameShape(c, b) {
      SameShapeTransitive(c, b, b);
      if SameShape(b, a) {
        SameShapeTransitive(c, b, a);
      } else {
        OutranksSameShape(b, c, a);
      }
    } else if SameShape(b, a) {
      OutranksSameShape(b, a, c);
    } else {
      OutranksTransitive(a, b, c);
    }
  }

  lemma TopOfNext(regs: seq<string>, m: nat, req: seq<string>, i: nat) returns (k: nat)
    requires m < |regs| && TopOf(regs, m, req, i) && Matches(Segments(regs[m]), req)
    ensures TopOf(regs, m + 1, req, k)
  {
    hide Matches, SameShape, Outranks, Segments, IsSegments;
    SegmentsWellFormed(regs[m]);
    SegmentsWellFormed(regs[i]);
    MatchesCompare(Segments(regs[i]), Segments(regs[m]), req);
    if Outranks(Segments(regs[i]), Segments(regs[m])) {
      k := i;
    } else {
      k := m;
      SameShapeReflexive(Segments(regs[m]));
      assert Beats(regs, m, i);
      forall j | 0 <= j < m && Matches(Segments(regs[j]), req) ensures Beats(regs, m, j) {
        BeatsStays(regs, i, m, j);
      }
    }
  }

  lemma SameShapeReflexive(a: seq<string>)
    ensures SameShape(a, a)
  {
  }

  lemma {:induction false} TopOfExists(regs: seq<string>, n: nat, req: seq<string>)
    requires n <= |regs|
    ensures (exists i: nat :: TopOf(regs, n, req, i)) || forall j :: 0 <= j < n ==> !Matches(Segments(regs[j]), req)
  {
    hide Matches, SameShape, Outranks, Segments;
    if n > 0 {
      var m := n - 1;
      TopOfExists(regs, m, req);
      if Matches(Segments(regs[m]), req) {
        if i: nat :| TopOf(regs, m, req, i) {
          var k := TopOfNext(regs, m, req, i);
        } else {
          SameShapeReflexive(Segments(regs[m]));
          assert TopOf(regs, n, req, m);
        }
      } else if i: nat :| TopOf(regs, m, req, i) {
        assert TopOf(regs, n, req, i);
      }
    }
  }

  // For every list of registrations and every request there is exactly one right
  // answer: nothing, or the pattern of the top match.
  lemma TopExists(regs: seq<string>, req: seq<string>)
    ensures NoMatch(regs, req) || exists i: nat :: Top(regs, req, i)
  {
    TopOfExists(regs, |regs|, req);
    if i: nat :| TopOf(regs, |regs|, req, i) {
      assert Top(regs, req, i);
    }
  }

  lemma TopIsUnique(regs: seq<string>, req: seq<string>, i: nat, j: nat)
    requires Top(regs, req, i) && Top(regs, req, j)
    ensures i == j
  {
    var a, b := Segments(regs[i]), Segments(regs[j]);
    assert Beats(regs, i, j) && Beats(regs, j, i);
    SameShapeSymmetric(a, b);
    if Outranks(a, b) { OutranksIsStrict(a, b); }
    if Outranks(b, a) { OutranksIsStrict(b, a); }
  }

  lemma SameShapeSymmetric(a: seq<string>, b: seq<string>)
    ensures SameShape(a, b) <==> SameShape(b, a)
  {
  }
}
