// Which registration answers a request, stated without the tree, and that the
// tree gives that answer after tame registrations.
module RouteTheorem {
  import opened Wrappers
  import opened Text
  import opened RoutePattern
  import opened RouteTrie
  import opened RouteRuns

  // Registration i answers req: it matches, it is more specific than every match
  // of another shape, and it is the last of its shape.
  ghost predicate Best(regs: seq<string>, req: seq<string>, i: nat)
  {
    && i < |regs|
    && Matches(Segments(regs[i]), req)
    && forall j :: 0 <= j < |regs| && Matches(Segments(regs[j]), req) ==>
         || (j <= i && SameShape(Segments(regs[j]), Segments(regs[i])))
         || MoreSpecific(Segments(regs[i]), Segments(regs[j]))
  }

  // No answer exactly when nothing matches, otherwise the best registration.
  ghost predicate Correct(regs: seq<string>, req: seq<string>, r: Option<Hit>)
  {
    match r
    case None => forall j :: 0 <= j < |regs| ==> !Matches(Segments(regs[j]), req)
    case Some(h) => exists i: nat :: Best(regs, req, i) && regs[i] == h.pattern
  }

  // The answer of the tree to a request path.
  function Route(regs: seq<string>, path: string): Option<Hit>
  {
    Search(Build(regs), Segments(path))
  }

  // ---------- Tame registrations give the right answers ----------

  lemma {:induction false} WalksIffMatches(t: Tree, path: seq<nat>, ps: seq<string>, req: seq<string>)
    requires HasNode(t, path) && !Star(t.part)
    requires SameShape(Labels(t, path), ps) && IsSegments(ps)
    ensures Walks(t, path, req) <==> Matches(ps, req)
    decreases |path|
  {
    if path != [] {
      var c := t.children[path[0]];
      SameShapeTail(Labels(t, path), ps);
      if Star(c.part) {
        assert |ps| == 1;
      } else if req != [] {
        WalksIffMatches(c, path[1..], ps[1..], req[1..]);
      }
    }
  }

  lemma {:induction false} SameShapeSamePlace(t: Tree, a: seq<string>, b: seq<string>)
    requires SameShape(a, b)
    ensures Place(t, a) == Place(t, b)
    decreases |a|
  {
    if a != [] {
      SameShapeTail(a, b);
      var i, j := FirstMatch(t.children, a[0]), FirstMatch(t.children, b[0]);
      assert forall c: Tree :: Accepts(c, a[0]) == Accepts(c, b[0]);
      assert i == j;
      if i < |t.children| {
        SameShapeSamePlace(t.children[i], a[1..], b[1..]);
      }
    }
  }

  // Two different walks of one request part at a node where the earlier one
  // takes the literal child and the later one the wildcard.
  lemma {:induction false} EarlierWalkIsLiteral(t: Tree, p: seq<nat>, q: seq<nat>, req: seq<string>) returns (k: nat)
    requires Shaped(t) && Walks(t, p, req) && Walks(t, q, req)
    requires Before(p, q) && p != q
    ensures HasNode(t, p) && HasNode(t, q) && k < |p| && k < |q|
    ensures forall i :: 0 <= i < k ==> Labels(t, p)[i] == Labels(t, q)[i]
    ensures !Wild(Labels(t, p)[k]) && Wild(Labels(t, q)[k])
    decreases |p|
  {
    WalksHasNode(t, p, req);
    WalksHasNode(t, q, req);
    if p[0] < q[0] {
      k := 0;
    } else {
      var k' := EarlierWalkIsLiteral(t.children[p[0]], p[1..], q[1..], req[1..]);
      k := k' + 1;
    }
  }

  lemma ShapesPart(a: seq<string>, b: seq<string>, la: seq<string>, lb: seq<string>, k: nat)
    requires SameShape(la, a) && SameShape(lb, b)
    requires k < |la| && k < |lb| && !Wild(la[k]) && Wild(lb[k])
    requires forall i :: 0 <= i < k ==> la[i] == lb[i]
    ensures MoreSpecific(a, b)
  {
    forall i | 0 <= i < k ensures SameKind(a[i], b[i]) {
      assert SameKind(la[i], a[i]) && SameKind(lb[i], b[i]);
    }
    assert SameKind(la[k], a[k]) && SameKind(lb[k], b[k]);
    assert MoreSpecificAt(a, b, k);
  }

  // The shape of a registration determines and is determined by its place.
  lemma SamePlaceSameShape(t: Tree, a: string, b: string, path: seq<nat>)
    requires PlacedAt(t, a, path) && PlacedAt(t, b, path) && SitsRight(t, a) && SitsRight(t, b)
    ensures SameShape(Segments(a), Segments(b))
  {
    var la := Labels(t, path);
    forall i | 0 <= i < |la| ensures SameKind(Segments(a)[i], Segments(b)[i]) {
      assert SameKind(la[i], Segments(a)[i]) && SameKind(la[i], Segments(b)[i]);
    }
  }

  lemma PlaceHasPattern(regs: seq<string>, i: nat, path: seq<nat>)
    requires NonEmptyPatterns(regs) && i < |regs| && PlacedAt(Build(regs), regs[i], path)
    ensures PatternAt(Build(regs), path) != ""
  {
    BuildHoldsLast(regs, path);
  }

  // A registration that sits right is an answer to exactly the requests it matches.
  lemma MatchIsAnswer(regs: seq<string>, req: seq<string>, j: nat)
    requires NonEmptyPatterns(regs) && j < |regs| && SitsRight(Build(regs), regs[j])
    ensures Answers(Build(regs), req, Place(Build(regs), Segments(regs[j])).value) <==> Matches(Segments(regs[j]), req)
  {
    var t := Build(regs);
    var path := Place(t, Segments(regs[j])).value;
    SegmentsWellFormed(regs[j]);
    BuildRootIsPlain(regs);
    WalksIffMatches(t, path, Segments(regs[j]), req);
    PlaceHasPattern(regs, j, path);
  }

  lemma {:induction false} BuildRootIsPlain(regs: seq<string>)
    ensures Build(regs).part == ""
  {
    if regs != [] {
      BuildRootIsPlain(regs[..|regs| - 1]);
    }
  }

  lemma TameIsCorrect(regs: seq<string>, req: seq<string>)
    requires NonEmptyPatterns(regs) && TameRun(regs)
    ensures Correct(regs, req, Search(Build(regs), req))
  {
    var t := Build(regs);
    TameRunIffAllSitRight(regs);
    SearchFindsFirst(t, req);
    match Search(t, req)
    case None =>
      forall j | 0 <= j < |regs| ensures !Matches(Segments(regs[j]), req) {
        MatchIsAnswer(regs, req, j);
      }
    case Some(h) =>
      BuildHoldsLast(regs, h.path);
      var i: nat :| HoldsRegistration(t, regs, h.path, i);
      MatchIsAnswer(regs, req, i);
      forall j | 0 <= j < |regs| && Matches(Segments(regs[j]), req)
        ensures (j <= i && SameShape(Segments(regs[j]), Segments(regs[i])))
          || MoreSpecific(Segments(regs[i]), Segments(regs[j]))
      {
        FirstBeatsOther(regs, req, h, i, j);
      }
      assert Best(regs, req, i);
  }

  lemma FirstBeatsOther(regs: seq<string>, req: seq<string>, h: Hit, i: nat, j: nat)
    requires NonEmptyPatterns(regs) && i < |regs| && j < |regs|
    requires SitsRight(Build(regs), regs[i]) && SitsRight(Build(regs), regs[j])
    requires IsFirstAnswer(Build(regs), req, Some(h)) && LastPlaced(Build(regs), regs, h.path, i)
    requires Matches(Segments(regs[j]), req)
    ensures (j <= i && SameShape(Segments(regs[j]), Segments(regs[i])))
      || MoreSpecific(Segments(regs[i]), Segments(regs[j]))
  {
    var t := Build(regs);
    MatchIsAnswer(regs, req, j);
    var q := Place(t, Segments(regs[j])).value;
    assert Before(h.path, q);
    assert PlacedAt(t, regs[j], q);
    if q == h.path {
      SamePlaceSameShape(t, regs[j], regs[i], q);
    } else {
      BuildShaped(regs);
      var k := EarlierWalkIsLiteral(t, h.path, q, req);
      ShapesPart(Segments(regs[i]), Segments(regs[j]), Labels(t, h.path), Labels(t, q), k);
    }
  }

  // ---------- Requests made from a registration ----------

  function Longest(regs: seq<string>): (n: nat)
    ensures forall i :: 0 <= i < |regs| ==> |regs[i]| <= n
  {
    if regs == [] then 0
    else
      var n := Longest(regs[1..]);
      assert forall i :: 0 < i < |regs| ==> regs[i] == regs[1..][i - 1];
      if |regs[0]| > n then |regs[0]| else n
  }

  // A request segment that is no part of any registration.
  function FreshSegment(regs: seq<string>): (f: string)
    ensures |f| == Longest(regs) + 1 && !Wild(f) && '/' !in f
  {
    seq(Longest(regs) + 1, _ => 'a')
  }

  // The pattern's segments with f in place of every wildcard.
  function Filled(ps: seq<string>, f: string): (req: seq<string>)
    ensures |req| == |ps|
    ensures forall m :: 0 <= m < |ps| ==> req[m] == if Wild(ps[m]) then f else ps[m]
  {
    seq(|ps|, m requires 0 <= m < |ps| => if Wild(ps[m]) then f else ps[m])
  }

  // A request that repeats literals of ps or is fresh, segment by segment.
  predicate Echoes(req: seq<string>, ps: seq<string>, f: string)
  {
    |ps| <= |req| && forall m :: 0 <= m < |ps| ==> req[m] == f || req[m] == ps[m]
  }

  ghost predicate CorrectFor(regs: seq<string>, path: string)
  {
    Correct(regs, Segments(path), Route(regs, path))
  }

  ghost predicate AlwaysCorrect(regs: seq<string>)
  {
    forall path: string :: CorrectFor(regs, path)
  }

  lemma AlwaysCorrectOn(regs: seq<string>, req: seq<string>)
    requires AlwaysCorrect(regs) && IsSegments(req)
    ensures Correct(regs, req, Search(Build(regs), req))
  {
    SegmentsOfJoin(req);
    assert CorrectFor(regs, Join(req, "/"));
  }

  // A literal of a matching registration is not the fresh segment.
  lemma MatchedLiteral(regs: seq<string>, j: nat, req: seq<string>, m: nat)
    requires j < |regs| && Matches(Segments(regs[j]), req)
    requires m < |Segments(regs[j])| && !Wild(Segments(regs[j])[m])
    ensures m < |req| && req[m] != FreshSegment(regs)
  {
    SegmentsWellFormed(regs[j]);
    MatchesIndexed(Segments(regs[j]), req);
    assert Segments(regs[j])[m] in Segments(regs[j]);
  }

  lemma {:induction false} PlaceAccepts(t: Tree, ps: seq<string>, path: seq<nat>, k: nat)
    requires Place(t, ps) == Some(path) && k < |ps|
    ensures Labels(t, path)[k] == ps[k] || Wild(Labels(t, path)[k])
    decreases |ps|
  {
    if k > 0 {
      var c := t.children[path[0]];
      PlaceAccepts(c, ps[1..], path[1..], k - 1);
    }
  }

  lemma {:induction false} WalksIndexed(t: Tree, path: seq<nat>, req: seq<string>)
    requires HasNode(t, path) && !Star(t.part)
    ensures Walks(t, path, req) <==>
      && |path| <= |req|
      && (|path| < |req| ==> path != [] && Star(Labels(t, path)[|path| - 1]))
      && (forall m :: 0 <= m < |path| - 1 ==> !Star(Labels(t, path)[m]))
      && (forall m :: 0 <= m < |path| ==> Labels(t, path)[m] == req[m] || Wild(Labels(t, path)[m]))
    decreases |path|
  {
    if path != [] && req != [] {
      var c := t.children[path[0]];
      var ls, rest := Labels(t, path), Labels(c, path[1..]);
      assert forall m :: 0 < m < |path| ==> ls[m] == rest[m - 1];
      assert forall m :: 0 < m < |req| ==> req[m] == req[1..][m - 1];
      if Star(c.part) {
        if |path| > 1 { assert Star(ls[0]); }
      } else {
        WalksIndexed(c, path[1..], req[1..]);
        assert forall m :: 0 <= m < |rest| ==> rest[m] == ls[m + 1] && (m < |req| - 1 ==> req[1..][m] == req[m + 1]);
      }
    }
  }

  // The place of a registration comes first among the walks of any request that
  // repeats its literals and is fresh elsewhere.
  lemma {:induction false} PlaceIsFirst(t: Tree, ps: seq<string>, path: seq<nat>, req: seq<string>, f: string, q: seq<nat>)
    requires Shaped(t) && f != "" && !Wild(f) && PartsWithin(t, |f| - 1)
    requires Place(t, ps) == Some(path) && Walks(t, path, req) && Walks(t, q, req)
    requires Echoes(req, ps, f)
    ensures Before(path, q)
    decreases |ps|
  {
    if ps != [] {
      var i := FirstMatch(t.children, ps[0]);
      assert path[0] == i && q != [];
      assert Echoes(req[1..], ps[1..], f);
      if req[0] == f {
        assert Wild(t.children[q[0]].part);
      }
      assert i <= q[0];
      if i == q[0] {
        PlaceIsFirst(t.children[i], ps[1..], path[1..], req[1..], f, q[1..]);
      }
    }
  }

  // A request close to the place of registration i that walks there is answered there.
  lemma AnsweredAtPlace(regs: seq<string>, i: nat, path: seq<nat>, req: seq<string>)
    requires NonEmptyPatterns(regs) && i < |regs| && PlacedAt(Build(regs), regs[i], path)
    requires Walks(Build(regs), path, req) && Echoes(req, Segments(regs[i]), FreshSegment(regs))
    ensures Search(Build(regs), req) == Some(Hit(path, PatternAt(Build(regs), path)))
  {
    hide Build, Search, Place, Walks, PatternAt, Segments, Before, Echoes, Shaped, PartsWithin;
    var t := Build(regs);
    var f := FreshSegment(regs);
    PlaceHasPattern(regs, i, path);
    SearchFindsFirst(t, req);
    assert Answers(t, req, path);
    var h := Search(t, req).value;
    BuildShaped(regs);
    BuildPartsWithin(regs, |f| - 1);
    PlaceIsFirst(t, Segments(regs[i]), path, req, f, h.path);
    BeforeAntisymmetric(path, h.path);
  }

  lemma FilledIsSegments(ps: seq<string>, f: string)
    requires IsSegments(ps) && f != "" && '/' !in f && !Wild(f)
    ensures IsSegments(Filled(ps, f))
    ensures IsSegments(Filled(ps, f) + [f]) && Echoes(Filled(ps, f) + [f], ps, f)
  {
  }

  lemma RefilledIsSegments(ps: seq<string>, k: nat, f: string)
    requires IsSegments(ps) && f != "" && '/' !in f && !Wild(f) && k < |ps|
    ensures IsSegments(Filled(ps, f)[k := f]) && Echoes(Filled(ps, f)[k := f], ps, f)
  {
  }

  lemma FilledMatches(ps: seq<string>, f: string)
    requires IsSegments(ps)
    ensures Matches(ps, Filled(ps, f))
    ensures ps != [] && Star(ps[|ps| - 1]) ==> Matches(ps, Filled(ps, f) + [f])
  {
    MatchesIndexed(ps, Filled(ps, f));
    MatchesIndexed(ps, Filled(ps, f) + [f]);
  }

  // A wildcard on the path does not mind which segment it takes.
  lemma WalksOtherSegment(t: Tree, path: seq<nat>, req: seq<string>, k: nat, f: string)
    requires HasNode(t, path) && !Star(t.part) && Walks(t, path, req)
    requires k < |path| && k < |req| && Wild(Labels(t, path)[k])
    ensures Walks(t, path, req[k := f])
  {
    WalksIndexed(t, path, req);
    WalksIndexed(t, path, req[k := f]);
  }

  // A path walked by some request can have '*' only at its end, and exactly then
  // it is walked by longer requests too.
  lemma WalksLonger(t: Tree, path: seq<nat>, req: seq<string>, f: string)
    requires HasNode(t, path) && !Star(t.part) && Walks(t, path, req) && |path| == |req|
    ensures forall k :: 0 <= k < |path| && Star(Labels(t, path)[k]) ==> k == |path| - 1
    ensures Walks(t, path, req + [f]) <==> path != [] && Star(Labels(t, path)[|path| - 1])
  {
    WalksIndexed(t, path, req);
    WalksIndexed(t, path, req + [f]);
  }
}
