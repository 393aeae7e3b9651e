// A registration that is not settled spoils the answer to some request; so the
// tree follows the order of RouteRank exactly if all registrations are settled.
module RouteExact {
  import opened Wrappers
  import opened Text
  import opened RoutePattern
  import opened RouteTrie
  import opened RouteRuns
  import opened RouteTheorem
  import opened RouteRank
  import opened RouteSettled

  // Wildcards of any kind, and equal parts, branch alike.
  predicate SameBranch(a: string, b: string)
  {
    a == b || (Wild(a) && Wild(b))
  }

  lemma {:induction false} PlaceShares(t: Tree, a: seq<string>, b: seq<string>, pa: seq<nat>, pb: seq<nat>, k: nat)
    requires Place(t, a) == Some(pa) && Place(t, b) == Some(pb) && k <= |a| && k <= |b|
    requires forall m :: 0 <= m < k ==> SameBranch(a[m], b[m])
    ensures pa[..k] == pb[..k]
    decreases k
  {
    if k > 0 {
      var i := FirstMatch(t.children, a[0]);
      assert SameBranch(a[0], b[0]);
      assert forall c: Tree :: Accepts(c, a[0]) == Accepts(c, b[0]);
      assert i == FirstMatch(t.children, b[0]);
      assert forall m :: 0 <= m < k - 1 ==> SameBranch(a[1..][m], b[1..][m]);
      PlaceShares(t.children[i], a[1..], b[1..], pa[1..], pb[1..], k - 1);
      PrefixFromTail(pa, pb, k);
    }
  }

  lemma PrefixFromTail<T>(a: seq<T>, b: seq<T>, k: nat)
    requires 0 < k <= |a| && k <= |b| && a[0] == b[0] && a[1..][..k - 1] == b[1..][..k - 1]
    ensures a[..k] == b[..k]
  {
    assert a[..k] == [a[0]] + a[1..][..k - 1] && b[..k] == [b[0]] + b[1..][..k - 1];
  }

  lemma {:induction false} LabelsShare(t: Tree, p: seq<nat>, q: seq<nat>, k: nat)
    requires HasNode(t, p) && HasNode(t, q) && k <= |p| && k <= |q| && p[..k] == q[..k]
    ensures Labels(t, p)[..k] == Labels(t, q)[..k]
    decreases k
  {
    if k > 0 {
      assert p[0] == p[..k][0] == q[0];
      assert p[1..][..k - 1] == p[..k][1..] == q[1..][..k - 1];
      LabelsShare(t.children[p[0]], p[1..], q[1..], k - 1);
      assert Labels(t, p)[1..] == Labels(t.children[p[0]], p[1..]) && Labels(t, q)[1..] == Labels(t.children[p[0]], q[1..]);
      PrefixFromTail(Labels(t, p), Labels(t, q), k);
    }
  }

  // ---------- Requests with fresh segments for the wildcards ----------

  // The request repeats the literals of ps and is fresh at its wildcards.
  predicate FreshFor(regs: seq<string>, ps: seq<string>, req: seq<string>)
  {
    && |ps| <= |req| && IsSegments(req) && Matches(ps, req)
    && forall m :: 0 <= m < |ps| && Wild(ps[m]) ==> req[m] == FreshSegment(regs)
  }

  predicate EndsInStar(ps: seq<string>)
  {
    ps != [] && Star(ps[|ps| - 1])
  }

  // qs has a parameter where ps ends in a star.
  predicate ParamForStar(qs: seq<string>, ps: seq<string>)
  {
    && EndsInStar(ps) && |ps| <= |qs| && Param(qs[|ps| - 1])
    && forall m :: 0 <= m < |ps| - 1 ==> SameKind(qs[m], ps[m])
  }

  // Only a pattern of the same shape, or one with a parameter for the star, can be
  // the top match of such a request.
  lemma FreshTop(regs: seq<string>, i: nat, req: seq<string>, j: nat)
    requires i < |regs| && Top(regs, req, j) && FreshFor(regs, Segments(regs[i]), req)
    ensures SameShape(Segments(regs[j]), Segments(regs[i])) || ParamForStar(Segments(regs[j]), Segments(regs[i]))
  {
    hide Segments, Matches, IsSegments, SameShape;
    var ps, qs := Segments(regs[i]), Segments(regs[j]);
    assert Beats(regs, j, i);
    SameShapeSymmetric(ps, qs);
    if Outranks(qs, ps) {
      var k: nat :| OutranksAt(qs, ps, k);
      if !Wild(qs[k]) { MatchedLiteral(regs, j, req, k); }
      SegmentsWellFormed(regs[i]);
      WildOutranksStar(qs, ps, k);
    }
  }

  lemma WildOutranksStar(qs: seq<string>, ps: seq<string>, k: nat)
    requires OutranksAt(qs, ps, k) && IsSegments(ps) && Wild(qs[k])
    ensures ParamForStar(qs, ps)
  {
  }

  // The answer to such a request, when it is right.
  lemma FreshAnswer(regs: seq<string>, i: nat, req: seq<string>) returns (h: Hit, j: nat)
    requires AlwaysInRank(regs) && i < |regs| && FreshFor(regs, Segments(regs[i]), req)
    ensures Search(Build(regs), req) == Some(h) && Answers(Build(regs), req, h.path)
    ensures j < |regs| && Top(regs, req, j) && regs[j] == h.pattern == PatternAt(Build(regs), h.path) && PlacedAt(Build(regs), regs[j], h.path)
    ensures SameShape(Segments(regs[j]), Segments(regs[i])) || ParamForStar(Segments(regs[j]), Segments(regs[i]))
  {
    hide Build, Search, Matches, Segments, Walks, Place, Beats, IsSegments;
    InRankOn(regs, req);
    SearchFindsFirst(Build(regs), req);
    h := Search(Build(regs), req).value;
    j :| Top(regs, req, j) && regs[j] == h.pattern;
    FreshTop(regs, i, req, j);
    BuildHoldsLast(regs, h.path);
    var k: nat :| HoldsRegistration(Build(regs), regs, h.path, k);
  }

  lemma FilledIsFresh(regs: seq<string>, i: nat)
    requires i < |regs|
    ensures FreshFor(regs, Segments(regs[i]), Filled(Segments(regs[i]), FreshSegment(regs)))
    ensures Echoes(Filled(Segments(regs[i]), FreshSegment(regs)), Segments(regs[i]), FreshSegment(regs))
  {
    SegmentsWellFormed(regs[i]);
    FilledIsSegments(Segments(regs[i]), FreshSegment(regs));
    FilledMatches(Segments(regs[i]), FreshSegment(regs));
  }

  // ---------- A place that answers its own request fits ----------

  // The filled pattern walks to its place, which holds a pattern of its shape.
  ghost predicate Owns(regs: seq<string>, i: nat, path: seq<nat>)
    requires i < |regs|
  {
    && PlacedAt(Build(regs), regs[i], path)
    && SameShape(Segments(PatternAt(Build(regs), path)), Segments(regs[i]))
    && Walks(Build(regs), path, Filled(Segments(regs[i]), FreshSegment(regs)))
  }

  // A request answered at such a place must be matched by the registration.
  lemma OwnerMatches(regs: seq<string>, i: nat, path: seq<nat>, req: seq<string>)
    requires NonEmptyPatterns(regs) && AlwaysInRank(regs) && IsSegments(req) && i < |regs| && Owns(regs, i, path)
    requires Walks(Build(regs), path, req) && Echoes(req, Segments(regs[i]), FreshSegment(regs))
    ensures Matches(Segments(regs[i]), req)
  {
    hide Build, Search, Segments, Walks, Place, Beats, IsSegments, Echoes, SameShape;
    InRankOn(regs, req);
    AnsweredAtPlace(regs, i, path, req);
    var j: nat :| Top(regs, req, j) && regs[j] == PatternAt(Build(regs), path);
    SameShapeMatches(Segments(regs[j]), Segments(regs[i]), req);
  }

  lemma OwnerKeepsLiterals(regs: seq<string>, i: nat, path: seq<nat>, k: nat)
    requires NonEmptyPatterns(regs) && AlwaysInRank(regs) && i < |regs| && Owns(regs, i, path)
    requires k < |path| && Wild(Labels(Build(regs), path)[k])
    ensures Wild(Segments(regs[i])[k])
  {
    var ps, f := Segments(regs[i]), FreshSegment(regs);
    SegmentsWellFormed(regs[i]);
    RefilledIsSegments(ps, k, f);
    BuildRootIsPlain(regs);
    WalksOtherSegment(Build(regs), path, Filled(ps, f), k, f);
    OwnerMatches(regs, i, path, Filled(ps, f)[k := f]);
    if !Wild(ps[k]) { MatchedLiteral(regs, i, Filled(ps, f)[k := f], k); }
  }

  lemma OwnerAddsNoStar(regs: seq<string>, i: nat, path: seq<nat>, k: nat)
    requires NonEmptyPatterns(regs) && AlwaysInRank(regs) && i < |regs| && Owns(regs, i, path)
    requires k < |path| && Star(Labels(Build(regs), path)[k])
    ensures k == |path| - 1 && Star(Segments(regs[i])[k])
  {
    var ps, f := Segments(regs[i]), FreshSegment(regs);
    SegmentsWellFormed(regs[i]);
    FilledIsSegments(ps, f);
    BuildRootIsPlain(regs);
    WalksLonger(Build(regs), path, Filled(ps, f), f);
    OwnerMatches(regs, i, path, Filled(ps, f) + [f]);
    MatchesIndexed(ps, Filled(ps, f) + [f]);
  }

  lemma OwnerFits(regs: seq<string>, i: nat, path: seq<nat>)
    requires NonEmptyPatterns(regs) && AlwaysInRank(regs) && i < |regs| && Owns(regs, i, path)
    ensures Fits(Labels(Build(regs), path), Segments(regs[i]))
  {
    hide Owns, Build, AlwaysInRank, Segments;
    OwnerIsPlaced(regs, i, path);
    var ls, ps := Labels(Build(regs), path), Segments(regs[i]);
    SegmentsWellFormed(regs[i]);
    forall m | 0 <= m < |ps|
      ensures SameKind(ls[m], ps[m]) || (m == |ps| - 1 && Param(ls[m]) && Star(ps[m]))
    {
      PlaceAccepts(Build(regs), ps, path, m);
      if Wild(ls[m]) {
        OwnerKeepsLiterals(regs, i, path, m);
        if Star(ls[m]) { OwnerAddsNoStar(regs, i, path, m); }
      }
    }
  }

  lemma OwnerIsPlaced(regs: seq<string>, i: nat, path: seq<nat>)
    requires i < |regs| && Owns(regs, i, path)
    ensures Place(Build(regs), Segments(regs[i])) == Some(path)
  {
  }

  // ---------- A star stored at a parameter node ----------

  function Repeat(f: string, m: nat): (req: seq<string>)
    ensures |req| == m && forall i :: 0 <= i < m ==> req[i] == f
  {
    seq(m, _ => f)
  }

  // Fresh segments below the node are answered, however many.
  ghost predicate AnswersFresh(t: Tree, f: string)
  {
    forall m: nat :: m > 0 ==> AnswersRepeat(t, f, m)
  }

  ghost predicate AnswersRepeat(t: Tree, f: string, m: nat)
  {
    exists q :: Answers(t, Repeat(f, m), q)
  }

  lemma WildIsLast(cs: seq<Tree>, i: nat)
    requires SiblingsOk(cs) && i < |cs|
    ensures Wild(cs[i].part) ==> i == |cs| - 1
  {
    assert i < |cs| - 1 ==> cs[i].part != cs[|cs| - 1].part;
  }

  // A child that accepts a fresh segment is the wildcard, which is the last child.
  lemma FreshTakesWildcard(t: Tree, f: string, i: nat)
    requires f != "" && Shaped(t) && PartsWithin(t, |f| - 1) && i < |t.children| && Accepts(t.children[i], f)
    ensures i == |t.children| - 1 && Wild(t.children[i].part)
  {
    hide SiblingsOk;
    assert |t.children[i].part| < |f|;
    WildIsLast(t.children, i);
  }

  lemma AnswersNothingMore(t: Tree, q: seq<nat>)
    requires Answers(t, [], q)
    ensures q == [] && t.pattern != ""
  {
  }

  lemma RepeatStep(t: Tree, f: string, m: nat)
    requires f != "" && Shaped(t) && PartsWithin(t, |f| - 1) && !Star(t.part) && AnswersRepeat(t, f, m + 1)
    ensures t.children != []
    ensures var c := t.children[|t.children| - 1];
      Wild(c.part) && AnswersRepeat(c, f, m) && (m == 0 ==> c.pattern != "")
  {
    hide Shaped, PartsWithin, Answers, Accepts;
    var q :| Answers(t, Repeat(f, m + 1), q);
    AnswersStep(t, Repeat(f, m + 1), q);
    FreshTakesWildcard(t, f, q[0]);
    assert Repeat(f, m + 1)[1..] == Repeat(f, m);
    if m == 0 {
      assert Repeat(f, m) == [];
      AnswersNothingMore(t.children[q[0]], q[1..]);
    }
  }

  lemma {:induction false} FreshIsCaught(t: Tree, f: string)
    requires f != "" && Shaped(t) && PartsWithin(t, |f| - 1) && !Star(t.part) && AnswersFresh(t, f)
    ensures CatchesLonger(t)
  {
    assert AnswersRepeat(t, f, 1);
    RepeatStep(t, f, 0);
    var c := t.children[|t.children| - 1];
    if !Star(c.part) {
      forall m: nat | m > 0 ensures AnswersRepeat(c, f, m) {
        assert AnswersRepeat(t, f, m + 1);
        RepeatStep(t, f, m);
      }
      FreshIsCaught(c, f);
    }
  }

  // ---------- Whatever is not settled spoils an answer ----------

  // ps with fresh segments for its wildcards, and m more.
  function Prolonged(regs: seq<string>, ps: seq<string>, m: nat): (req: seq<string>)
    ensures |req| == |ps| + m
  {
    Filled(ps, FreshSegment(regs)) + Repeat(FreshSegment(regs), m)
  }

  lemma ProlongedIsFresh(regs: seq<string>, ps: seq<string>, m: nat)
    requires IsSegments(ps) && EndsInStar(ps)
    ensures FreshFor(regs, ps, Prolonged(regs, ps, m))
  {
    MatchesIndexed(ps, Prolonged(regs, ps, m));
  }

  // Part of a request left after the beginning of a walk is walked by the rest.
  lemma {:induction false} WalksRest(t: Tree, path: seq<nat>, k: nat, req: seq<string>)
    requires Answers(t, req, path) && k <= |path| && HasNode(t, path[..k])
    ensures k <= |req| && Answers(NodeAt(t, path[..k]), req[k..], path[k..])
    decreases k
  {
    if k == 0 {
      assert path[0..] == path && req[0..] == req;
    } else {
      AnswersStep(t, req, path);
      assert path[..k][0] == path[0] && path[..k][1..] == path[1..][..k - 1];
      WalksRest(t.children[path[0]], path[1..], k - 1, req[1..]);
      assert path[1..][k - 1..] == path[k..] && req[1..][k - 1..] == req[k..];
    }
  }

  // The place of a star stored at a parameter node lets no longer request end there.
  lemma ParamPlaceEnds(t: Tree, path: seq<nat>, req: seq<string>)
    requires HasNode(t, path) && !Star(t.part) && path != [] && Param(Labels(t, path)[|path| - 1])
    requires |req| > |path|
    ensures !Walks(t, path, req)
  {
    WalksIndexed(t, path, req);
  }

  // A longer request that is answered at the place of qs is answered below that of ps.
  lemma AnsweredBelow(t: Tree, ps: seq<string>, path: seq<nat>, qs: seq<string>, q: seq<nat>, req: seq<string>)
    requires Place(t, ps) == Some(path) && Place(t, qs) == Some(q) && ParamForStar(qs, ps)
    requires Answers(t, req, q)
    ensures |path| <= |req| && |path| <= |q| && Answers(NodeAt(t, path), req[|path|..], q[|path|..])
  {
    hide Place, Answers, ParamForStar;
    ParamForStarBranches(qs, ps);
    PlaceShares(t, qs, ps, q, path, |path|);
    assert path[..|path|] == path;
    WalksRest(t, q, |path|, req);
  }

  lemma NotAtParamPlace(t: Tree, ps: seq<string>, path: seq<nat>, qs: seq<string>, q: seq<nat>, req: seq<string>)
    requires Place(t, ps) == Some(path) && Place(t, qs) == Some(q) && Answers(t, req, q)
    requires !Star(t.part) && path != [] && Param(Labels(t, path)[|path| - 1]) && |req| > |path|
    ensures !SameShape(qs, ps)
  {
    ParamPlaceEnds(t, path, req);
    if SameShape(qs, ps) { SameShapeSamePlace(t, qs, ps); }
  }

  // A longer request is answered below the node.
  lemma LongerIsAnsweredBelow(regs: seq<string>, i: nat, path: seq<nat>, m: nat)
    requires NonEmptyPatterns(regs) && AlwaysInRank(regs) && i < |regs| && PlacedAt(Build(regs), regs[i], path)
    requires EndsInStar(Segments(regs[i])) && Param(Labels(Build(regs), path)[|path| - 1]) && m > 0
    ensures AnswersRepeat(NodeAt(Build(regs), path), FreshSegment(regs), m)
  {
    hide AlwaysInRank, Build, Segments, Top, FreshFor, SameShape, IsSegments, Place, Answers, ParamForStar, Search, Param, Labels,
      Prolonged, Repeat, FreshSegment, HasNode, NodeAt, PatternAt, Star, EndsInStar;
    var t, ps := Build(regs), Segments(regs[i]);
    var req := Prolonged(regs, ps, m);
    SegmentsWellFormed(regs[i]);
    ProlongedIsFresh(regs, ps, m);
    var h, j := FreshAnswer(regs, i, req);
    RootIsNoStar(regs);
    EndsInSomething(ps);
    NotAtParamPlace(t, ps, path, Segments(regs[j]), h.path, req);
    AnsweredBelow(t, ps, path, Segments(regs[j]), h.path, req);
    ProlongedRest(regs, ps, m);
    BelowRepeats(t, path, req, h.path, FreshSegment(regs), m);
  }

  lemma BelowRepeats(t: Tree, path: seq<nat>, req: seq<string>, q: seq<nat>, f: string, m: nat)
    requires HasNode(t, path) && |path| <= |req| && |path| <= |q| && req[|path|..] == Repeat(f, m)
    requires Answers(NodeAt(t, path), req[|path|..], q[|path|..])
    ensures AnswersRepeat(NodeAt(t, path), f, m)
  {
  }

  lemma EndsInSomething(ps: seq<string>)
    requires EndsInStar(ps)
    ensures ps != []
  {
  }

  lemma RootIsNoStar(regs: seq<string>)
    ensures !Star(Build(regs).part)
  {
    BuildRootIsPlain(regs);
  }

  lemma ProlongedRest(regs: seq<string>, ps: seq<string>, m: nat)
    ensures Prolonged(regs, ps, m)[|ps|..] == Repeat(FreshSegment(regs), m)
  {
  }

  lemma ParamForStarBranches(qs: seq<string>, ps: seq<string>)
    requires ParamForStar(qs, ps)
    ensures |ps| <= |qs| && forall m :: 0 <= m < |ps| ==> SameBranch(qs[m], ps[m])
  {
    forall m | 0 <= m < |ps| ensures SameBranch(qs[m], ps[m]) {
      assert m < |ps| - 1 ==> SameKind(qs[m], ps[m]);
    }
  }

  lemma ParamCatchesLonger(regs: seq<string>, i: nat, path: seq<nat>)
    requires NonEmptyPatterns(regs) && AlwaysInRank(regs) && i < |regs| && PlacedAt(Build(regs), regs[i], path)
    requires EndsInStar(Segments(regs[i])) && Param(Labels(Build(regs), path)[|path| - 1])
    ensures CatchesLonger(NodeAt(Build(regs), path))
  {
    hide AlwaysInRank, Build, CatchesLonger, Shaped, PartsWithin, AnswersRepeat, Segments, Place, NodeAt;
    var f := FreshSegment(regs);
    BuildShaped(regs);
    BuildPartsWithin(regs, |f| - 1);
    NodeIsShaped(Build(regs), path);
    NodePartsWithin(Build(regs), path, |f| - 1);
    forall m: nat | m > 0 ensures AnswersRepeat(NodeAt(Build(regs), path), f, m) {
      LongerIsAnsweredBelow(regs, i, path, m);
    }
    FreshIsCaught(NodeAt(Build(regs), path), f);
  }

  lemma {:induction false} NodePartsWithin(t: Tree, path: seq<nat>, n: nat)
    requires HasNode(t, path) && PartsWithin(t, n)
    ensures PartsWithin(NodeAt(t, path), n)
    decreases |path|
  {
    if path != [] { NodePartsWithin(t.children[path[0]], path[1..], n); }
  }

  // A pattern of the node's own shape would outrank the star stored there.
  lemma StarIsOutranked(ls: seq<string>, ps: seq<string>, qs: seq<string>, rs: seq<string>)
    requires Fits(ls, ps) && !SameShape(ls, ps) && SameShape(qs, ps) && SameShape(rs, ls)
    ensures !SameShape(rs, qs) && !Outranks(qs, rs)
  {
    var n := |ps| - 1;
    assert Param(ls[n]) && Star(ps[n]);
    assert SameKind(qs[n], ps[n]) && SameKind(rs[n], ls[n]);
    forall k: nat ensures !OutranksAt(qs, rs, k) {
      assert k < |ps| ==> SameKind(qs[k], ps[k]) && SameKind(rs[k], ls[k]);
    }
  }

  lemma FitsBut(ls: seq<string>, ps: seq<string>)
    requires Fits(ls, ps) && !SameShape(ls, ps)
    ensures EndsInStar(ps) && Param(ls[|ps| - 1]) && forall m :: 0 <= m < |ps| - 1 ==> SameKind(ls[m], ps[m])
  {
  }

  // If the star's own request is answered by a pattern of its shape, none of the
  // node's shape is registered.
  lemma NoneOfOwnShape(regs: seq<string>, ls: seq<string>, path: seq<nat>, ps: seq<string>, req: seq<string>, j: nat, k: nat)
    requires HasNode(Build(regs), path) && ls == Labels(Build(regs), path) && Walks(Build(regs), path, req)
    requires Fits(ls, ps) && !SameShape(ls, ps) && j < |regs| && Top(regs, req, j) && SameShape(Segments(regs[j]), ps)
    requires k < |regs|
    ensures !SameShape(Segments(regs[k]), ls)
  {
    hide Build, Segments, Walks, Matches, Outranks, Labels;
    RootIsNoStar(regs);
    SegmentsWellFormed(regs[k]);
    if SameShape(Segments(regs[k]), ls) {
      SameShapeFits(ls, Segments(regs[k]));
      WalkMatches(Build(regs), path, Segments(regs[k]), req);
      StarIsOutranked(ls, ps, Segments(regs[j]), Segments(regs[k]));
    }
  }

  lemma SameShapeFits(ls: seq<string>, ps: seq<string>)
    requires SameShape(ps, ls)
    ensures Fits(ls, ps)
  {
  }

  lemma SameShapeSettles(regs: seq<string>, i: nat, path: seq<nat>, req: seq<string>, j: nat)
    requires NonEmptyPatterns(regs) && AlwaysInRank(regs) && i < |regs| && Owns(regs, i, path)
    requires j < |regs| && Top(regs, req, j) && SameShape(Segments(regs[j]), Segments(regs[i])) && Walks(Build(regs), path, req)
    ensures Settled(regs, regs[i])
  {
    hide AlwaysInRank, Build, Segments, Top, Walks, Fits, SameShape, CatchesLonger, EndsInStar, Param, Labels;
    var ls, ps := Labels(Build(regs), path), Segments(regs[i]);
    OwnerFits(regs, i, path);
    if !SameShape(ls, ps) {
      FitsBut(ls, ps);
      EndsInSomething(ps);
      ParamCatchesLonger(regs, i, path);
      forall k | 0 <= k < |regs| ensures !SameShape(Segments(regs[k]), ls) {
        NoneOfOwnShape(regs, ls, path, ps, req, j, k);
      }
      StarIsStored(regs, ps, path);
    }
  }

  lemma StarIsStored(regs: seq<string>, ps: seq<string>, path: seq<nat>)
    requires HasNode(Build(regs), path) && |ps| == |path| && EndsInStar(ps) && CatchesLonger(NodeAt(Build(regs), path))
    requires var ls := Labels(Build(regs), path);
      && Param(ls[|ps| - 1]) && (forall m :: 0 <= m < |ps| - 1 ==> SameKind(ls[m], ps[m]))
      && ((forall k :: 0 <= k < |regs| ==> !SameShape(Segments(regs[k]), ls))
          || SameShape(Segments(PatternAt(Build(regs), path)), ls))
    ensures StarOnParam(regs, ps, path)
  {
  }

  lemma ParamFilledAlike(qs: seq<string>, ps: seq<string>, f: string)
    requires ParamForStar(qs, ps) && |qs| == |ps|
    ensures Filled(qs, f) == Filled(ps, f)
  {
    forall m | 0 <= m < |ps| ensures Filled(qs, f)[m] == Filled(ps, f)[m] {
      assert m < |ps| - 1 ==> SameKind(qs[m], ps[m]);
    }
  }

  lemma ParamIsOwner(t: Tree, ps: seq<string>, path: seq<nat>, qs: seq<string>, q: seq<nat>, f: string)
    requires Place(t, ps) == Some(path) && Place(t, qs) == Some(q) && ParamForStar(qs, ps)
    requires IsSegments(qs) && Matches(qs, Filled(ps, f))
    ensures q == path && |qs| == |ps| && Filled(qs, f) == Filled(ps, f)
  {
    MatchesIndexed(qs, Filled(ps, f));
    hide Place, Matches;
    ParamForStarBranches(qs, ps);
    PlaceShares(t, qs, ps, q, path, |ps|);
    assert q[..|ps|] == q && path[..|ps|] == path;
    ParamFilledAlike(qs, ps, f);
  }

  lemma ParamLabels(ls: seq<string>, qs: seq<string>, ps: seq<string>)
    requires Fits(ls, qs) && ParamForStar(qs, ps) && |qs| == |ps|
    ensures SameShape(qs, ls) && Param(ls[|ps| - 1]) && forall m :: 0 <= m < |ps| - 1 ==> SameKind(ls[m], ps[m])
  {
    assert SameKind(ls[|ps| - 1], qs[|ps| - 1]);
    forall m | 0 <= m < |ps| - 1 ensures SameKind(ls[m], ps[m]) {
      assert SameKind(ls[m], qs[m]) && SameKind(qs[m], ps[m]);
    }
  }

  lemma ParamSettles(regs: seq<string>, i: nat, path: seq<nat>, j: nat)
    requires NonEmptyPatterns(regs) && AlwaysInRank(regs) && i < |regs| && PlacedAt(Build(regs), regs[i], path)
    requires j < |regs| && Owns(regs, j, path) && PatternAt(Build(regs), path) == regs[j]
    requires ParamForStar(Segments(regs[j]), Segments(regs[i])) && |Segments(regs[j])| == |Segments(regs[i])|
    ensures Settled(regs, regs[i])
  {
    hide AlwaysInRank, Build, Segments, Fits, SameShape, CatchesLonger, Param, Labels;
    var ls, ps := Labels(Build(regs), path), Segments(regs[i]);
    OwnerFits(regs, j, path);
    ParamLabels(ls, Segments(regs[j]), ps);
    ParamCatchesLonger(regs, i, path);
    StarIsStored(regs, ps, path);
  }

  lemma InRankSettles(regs: seq<string>, i: nat)
    requires NonEmptyPatterns(regs) && AlwaysInRank(regs) && i < |regs|
    ensures Settled(regs, regs[i])
  {
    hide AlwaysInRank, Build, Segments, Top, FreshFor, SameShape, IsSegments, Place, Matches, ParamForStar, Settled, Walks, PatternAt;
    var t, ps, f := Build(regs), Segments(regs[i]), FreshSegment(regs);
    RegistrationHasPlace(regs, i);
    var path := Place(t, ps).value;
    var req := Filled(ps, f);
    FilledIsFresh(regs, i);
    var h, j := FreshAnswer(regs, i, req);
    var qs := Segments(regs[j]);
    if SameShape(qs, ps) {
      SameShapeSamePlace(t, qs, ps);
      SameShapeSettles(regs, i, path, req, j);
    } else {
      SegmentsWellFormed(regs[j]);
      TopMatches(regs, req, j);
      ParamIsOwner(t, ps, path, qs, h.path, f);
      SameShapeReflexive(qs);
      ParamSettles(regs, i, path, j);
    }
  }

  lemma TopMatches(regs: seq<string>, req: seq<string>, j: nat)
    requires j < |regs| && Top(regs, req, j)
    ensures Matches(Segments(regs[j]), req)
  {
  }

  // A registration that is not settled spoils the answer to some request.
  lemma WrongPlaceWrongAnswer(regs: seq<string>, i: nat)
    requires NonEmptyPatterns(regs) && i < |regs| && !Settled(regs, regs[i])
    ensures !AlwaysInRank(regs)
  {
    if AlwaysInRank(regs) { InRankSettles(regs, i); }
  }

  // The tree answers every request path with its top match exactly if every
  // registration is settled.
  lemma InRankIffSettled(regs: seq<string>)
    requires NonEmptyPatterns(regs)
    ensures AlwaysInRank(regs) <==> AllSettled(regs)
  {
    hide Settled, CorrectInRank;
    if AllSettled(regs) {
      forall path: string ensures InRankFor(regs, path) {
        SettledIsInRank(regs, Segments(path));
      }
    } else {
      var i :| 0 <= i < |regs| && !Settled(regs, regs[i]);
      WrongPlaceWrongAnswer(regs, i);
    }
  }
}
