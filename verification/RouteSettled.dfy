// Exactly when the tree follows the order of RouteRank: each registration sits
// under its own shape, or its final star was stored at a parameter node under
// which every longer request finds an answer that outranks it.
module RouteSettled {
  import opened Wrappers
  import opened Text
  import opened RoutePattern
  import opened RouteTrie
  import opened RouteRuns
  import opened RouteTheorem
  import opened RouteRank

  // From the node on, wildcards lead to a pattern for every number of further
  // segments: parameter nodes with patterns, down to a star.
  predicate CatchesLonger(t: Tree)
  {
    t.children != [] &&
    var c := t.children[|t.children| - 1];
    Star(c.part) || (Param(c.part) && c.pattern != "" && CatchesLonger(c))
  }

  // The final star of ps was stored at a parameter node, which catches all longer
  // requests, and carries the pattern of a registration of the node's own shape if
  // there is one.
  ghost predicate StarOnParam(regs: seq<string>, ps: seq<string>, path: seq<nat>)
    requires HasNode(Build(regs), path)
  {
    var t := Build(regs);
    var ls, n := Labels(t, path), |path| - 1;
    && n >= 0 && |ps| == |path| && Star(ps[n]) && Param(ls[n])
    && (forall m :: 0 <= m < n ==> SameKind(ls[m], ps[m]))
    && CatchesLonger(NodeAt(t, path))
    && ((exists j :: 0 <= j < |regs| && SameShape(Segments(regs[j]), ls)) ==>
         SameShape(Segments(PatternAt(t, path)), ls))
  }

  ghost predicate Settled(regs: seq<string>, pattern: string)
  {
    var p := Place(Build(regs), Segments(pattern));
    p.Some? && (SitsRight(Build(regs), pattern) || StarOnParam(regs, Segments(pattern), p.value))
  }

  ghost predicate AllSettled(regs: seq<string>)
  {
    forall i :: 0 <= i < |regs| ==> Settled(regs, regs[i])
  }

  ghost predicate AlwaysInRank(regs: seq<string>)
  {
    forall path: string :: InRankFor(regs, path)
  }

  ghost predicate InRankFor(regs: seq<string>, path: string)
  {
    CorrectInRank(regs, Segments(path), Route(regs, path))
  }

  lemma InRankOn(regs: seq<string>, req: seq<string>)
    requires AlwaysInRank(regs) && IsSegments(req)
    ensures CorrectInRank(regs, req, Search(Build(regs), req))
  {
    SegmentsOfJoin(req);
    assert InRankFor(regs, Join(req, "/"));
  }

  // ---------- Settled registrations are answered in rank ----------

  // The labels at a place have the kinds of the segments, but for a star that was
  // stored at a parameter node.
  predicate Fits(ls: seq<string>, ps: seq<string>)
  {
    && |ls| == |ps|
    && forall m :: 0 <= m < |ps| ==> SameKind(ls[m], ps[m]) || (m == |ps| - 1 && Param(ls[m]) && Star(ps[m]))
  }

  lemma SettledFits(regs: seq<string>, pattern: string)
    requires Settled(regs, pattern)
    ensures Fits(Labels(Build(regs), Place(Build(regs), Segments(pattern)).value), Segments(pattern))
  {
  }

  lemma WalkMatches(t: Tree, path: seq<nat>, ps: seq<string>, req: seq<string>)
    requires HasNode(t, path) && !Star(t.part) && IsSegments(ps) && Fits(Labels(t, path), ps)
    requires Walks(t, path, req)
    ensures Matches(ps, req)
  {
    WalksIndexed(t, path, req);
    MatchesIndexed(ps, req);
  }

  // The node at path accepts the beginning of the request.
  predicate Leads(t: Tree, path: seq<nat>, req: seq<string>)
    requires HasNode(t, path)
  {
    && |path| <= |req|
    && forall m :: 0 <= m < |path| ==>
      !Star(Labels(t, path)[m]) && (Labels(t, path)[m] == req[m] || Wild(Labels(t, path)[m]))
  }

  lemma LeadsBelow(t: Tree, path: seq<nat>, req: seq<string>)
    requires HasNode(t, path) && path != [] && Leads(t, path, req)
    ensures var c := t.children[path[0]];
      Leads(c, path[1..], req[1..]) && !Star(c.part) && Accepts(c, req[0])
  {
    var c := t.children[path[0]];
    assert Labels(t, path)[0] == c.part;
    assert forall m :: 0 <= m < |path| - 1 ==> Labels(c, path[1..])[m] == Labels(t, path)[m + 1] && req[1..][m] == req[m + 1];
  }

  // An answer below the node at path is an answer of the whole tree.
  lemma {:induction false} AnswerBelow(t: Tree, path: seq<nat>, req: seq<string>, q: seq<nat>)
    requires HasNode(t, path) && !Star(t.part) && Leads(t, path, req)
    requires Answers(NodeAt(t, path), req[|path|..], q)
    ensures Answers(t, req, path + q) && HasNode(t, path + q)
    ensures Labels(t, path + q)[..|path|] == Labels(t, path)
    decreases |path|
  {
    if path == [] {
      assert path + q == q && req[0..] == req;
      WalksHasNode(t, q, req);
    } else {
      var c := t.children[path[0]];
      assert (path + q)[0] == path[0] && (path + q)[1..] == path[1..] + q;
      assert req[|path|..] == req[1..][|path[1..]|..];
      LeadsBelow(t, path, req);
      AnswerBelow(c, path[1..], req[1..], q);
      assert Labels(t, path + q) == [c.part] + Labels(c, path[1..] + q);
    }
  }

  lemma {:induction false} LongerIsCaught(t: Tree, rest: seq<string>) returns (q: seq<nat>)
    requires CatchesLonger(t) && Shaped(t) && !Star(t.part) && rest != []
    ensures q != [] && Answers(t, rest, q)
  {
    var i := |t.children| - 1;
    var c := t.children[i];
    assert Shaped(c);
    var below := [];
    if !Star(c.part) && |rest| > 1 { below := LongerIsCaught(c, rest[1..]); }
    q := [i] + below;
    assert q[1..] == below;
    assert Answers(c, rest[1..], below);
    AnswersStep(t, rest, q);
  }

  lemma {:induction false} NodeIsShaped(t: Tree, path: seq<nat>)
    requires HasNode(t, path) && Shaped(t)
    ensures Shaped(NodeAt(t, path))
    ensures path != [] ==> NodeAt(t, path).part == Labels(t, path)[|path| - 1]
    decreases |path|
  {
    if path != [] { NodeIsShaped(t.children[path[0]], path[1..]); }
  }

  lemma PlaceLeads(t: Tree, ls: seq<string>, path: seq<nat>, ps: seq<string>, req: seq<string>)
    requires HasNode(t, path) && ls == Labels(t, path) && |ps| == |path| && ps != [] && IsSegments(ps)
    requires (forall m :: 0 <= m < |ps| - 1 ==> SameKind(ls[m], ps[m])) && Param(ls[|ps| - 1])
    requires Matches(ps, req)
    ensures Leads(t, path, req)
  {
    MatchesIndexed(ps, req);
  }

  lemma LeadsWalks(t: Tree, path: seq<nat>, req: seq<string>)
    requires HasNode(t, path) && !Star(t.part) && Leads(t, path, req) && |req| == |path|
    ensures Walks(t, path, req)
  {
    WalksIndexed(t, path, req);
  }

  // An answer at the node at path or below it.
  ghost predicate AnswersFrom(t: Tree, path: seq<nat>, req: seq<string>, q: seq<nat>)
    requires HasNode(t, path)
  {
    Answers(t, req, q) && HasNode(t, q) && path <= q && Labels(t, q)[..|path|] == Labels(t, path)
  }

  lemma StarHasAnswer(regs: seq<string>, ps: seq<string>, path: seq<nat>, req: seq<string>) returns (q: seq<nat>)
    requires NonEmptyPatterns(regs) && HasNode(Build(regs), path) && StarOnParam(regs, ps, path)
    requires IsSegments(ps) && Matches(ps, req) && PatternAt(Build(regs), path) != ""
    ensures AnswersFrom(Build(regs), path, req, q)
  {
    hide Matches, IsSegments, Build, Shaped, Walks, Place;
    var t := Build(regs);
    BuildRootIsPlain(regs);
    BuildShaped(regs);
    PlaceLeads(t, Labels(t, path), path, ps, req);
    if |req| == |path| {
      LeadsWalks(t, path, req);
      q := path;
    } else {
      NodeIsShaped(t, path);
      var below := LongerIsCaught(NodeAt(t, path), req[|path|..]);
      AnswerBelow(t, path, req, below);
      q := path + below;
    }
  }

  // Every match has an answer in the tree at its place or, for a star stored at a
  // parameter node, below it.
  lemma MatchHasAnswer(regs: seq<string>, req: seq<string>, j: nat) returns (q: seq<nat>)
    requires NonEmptyPatterns(regs) && j < |regs| && Settled(regs, regs[j])
    requires Matches(Segments(regs[j]), req)
    ensures var path := Place(Build(regs), Segments(regs[j])).value;
      AnswersFrom(Build(regs), path, req, q) && (q == path || StarOnParam(regs, Segments(regs[j]), path))
  {
    var t := Build(regs);
    var ps := Segments(regs[j]);
    var path := Place(t, ps).value;
    SegmentsWellFormed(regs[j]);
    PlaceHasPattern(regs, j, path);
    if SitsRight(t, regs[j]) {
      MatchIsAnswer(regs, req, j);
      q := path;
    } else {
      q := StarHasAnswer(regs, ps, path, req);
    }
  }

  // ---------- The first answer is the top match ----------

  lemma OutranksThere(a: seq<string>, b: seq<string>, la: seq<string>, lb: seq<string>, k: nat)
    requires Fits(la, a) && Fits(lb, b) && k < |la| && k < |lb|
    requires forall m :: 0 <= m < k ==> la[m] == lb[m]
    requires !Wild(la[k]) && Wild(lb[k])
    ensures Outranks(a, b)
  {
    forall m | 0 <= m < k ensures SameKind(a[m], b[m]) {
      assert SameKind(la[m], a[m]) && SameKind(lb[m], b[m]);
    }
    assert OutranksAt(a, b, k);
  }

  // A registration placed at or below the parameter node where b's star was stored.
  lemma OutranksStar(a: seq<string>, b: seq<string>, la: seq<string>, lb: seq<string>)
    requires Fits(la, a) && Fits(lb, b) && b != [] && |b| <= |a| && la[..|b|] == lb
    requires Star(b[|b| - 1]) && Param(lb[|b| - 1]) && (|a| == |b| ==> SameShape(la, a))
    ensures Outranks(a, b)
  {
    var n := |b| - 1;
    forall m | 0 <= m < n ensures SameKind(a[m], b[m]) {
      assert la[m] == lb[m] && SameKind(la[m], a[m]) && SameKind(lb[m], b[m]);
    }
    assert la[n] == lb[n] && SameKind(la[n], a[n]);
    assert OutranksAt(a, b, n);
  }

  lemma BothStars(a: seq<string>, b: seq<string>, ls: seq<string>)
    requires Fits(ls, a) && Fits(ls, b) && a != [] && Star(a[|a| - 1]) && Star(b[|b| - 1])
    ensures SameShape(b, a)
  {
    forall m | 0 <= m < |a| ensures SameKind(b[m], a[m]) {
      assert m < |a| - 1 ==> SameKind(ls[m], a[m]) && SameKind(ls[m], b[m]);
    }
  }

  lemma SettledKinds(regs: seq<string>, pattern: string, path: seq<nat>)
    requires Settled(regs, pattern) && PlacedAt(Build(regs), pattern, path)
    ensures Fits(Labels(Build(regs), path), Segments(pattern))
    ensures SameShape(Labels(Build(regs), path), Segments(pattern)) || StarOnParam(regs, Segments(pattern), path)
  {
  }

  // A parameter node that stores a star carries a pattern of its own shape if one
  // was registered.
  lemma OwnShapeHeld(regs: seq<string>, ps: seq<string>, path: seq<nat>, j: nat)
    requires HasNode(Build(regs), path) && StarOnParam(regs, ps, path)
    requires j < |regs| && SameShape(Segments(regs[j]), Labels(Build(regs), path))
    ensures SameShape(Segments(PatternAt(Build(regs), path)), Labels(Build(regs), path))
  {
  }

  // Two registrations at one place, i the last of them.
  lemma SamePlaceBeats(regs: seq<string>, path: seq<nat>, i: nat, j: nat)
    requires j < |regs| && HoldsRegistration(Build(regs), regs, path, i) && PlacedAt(Build(regs), regs[j], path)
    requires Settled(regs, regs[i]) && Settled(regs, regs[j])
    ensures Beats(regs, i, j)
  {
    hide Build, Segments, SameShape, StarOnParam, Fits, Settled, Outranks, PatternAt;
    var a, b, ls := Segments(regs[i]), Segments(regs[j]), Labels(Build(regs), path);
    SettledKinds(regs, regs[i], path);
    SettledKinds(regs, regs[j], path);
    SameShapeSymmetric(a, ls);
    SameShapeSymmetric(b, ls);
    if SameShape(ls, a) {
      if SameShape(ls, b) {
        SameShapeTransitive(b, ls, a);
      } else {
        StarFacts(regs, b, path);
        FitLengths(ls, a);
        OutranksStar(a, b, ls, ls);
      }
    } else {
      if SameShape(b, ls) { OwnShapeHeld(regs, a, path, j); }
      StarFacts(regs, a, path);
      StarFacts(regs, b, path);
      BothStars(a, b, ls);
    }
  }

  lemma FitLengths(ls: seq<string>, ps: seq<string>)
    requires Fits(ls, ps)
    ensures |ls| == |ps|
  {
  }

  lemma FirstBeats(regs: seq<string>, req: seq<string>, h: Hit, i: nat, j: nat)
    requires NonEmptyPatterns(regs) && i < |regs| && j < |regs|
    requires Settled(regs, regs[i]) && Settled(regs, regs[j])
    requires IsFirstAnswer(Build(regs), req, Some(h)) && HoldsRegistration(Build(regs), regs, h.path, i)
    requires Matches(Segments(regs[j]), req)
    ensures Beats(regs, i, j)
  {
    hide Build, Matches, Segments, Walks, Place, Shaped, Outranks, StarOnParam, Fits;
    var t := Build(regs);
    var a, b := Segments(regs[i]), Segments(regs[j]);
    var path := Place(t, b).value;
    var q := MatchHasAnswer(regs, req, j);
    SettledFits(regs, regs[i]);
    SettledFits(regs, regs[j]);
    assert Before(h.path, q);
    if h.path == q {
      if q == path {
        SamePlaceBeats(regs, path, i, j);
      } else {
        StarFacts(regs, b, path);
        LongerFits(Labels(t, q), a, Labels(t, path), b);
      }
    } else {
      BuildShaped(regs);
      var k := EarlierWalkIsLiteral(t, h.path, q, req);
      assert Labels(t, q)[..|path|] == Labels(t, path);
      if k < |path| {
        assert Labels(t, path)[k] == Labels(t, q)[k];
        assert forall m :: 0 <= m < k ==> Labels(t, path)[m] == Labels(t, q)[m];
        OutranksThere(a, b, Labels(t, h.path), Labels(t, path), k);
      } else {
        StarFacts(regs, b, path);
        assert forall m :: 0 <= m < |path| ==> Labels(t, h.path)[m] == Labels(t, q)[m];
        assert Labels(t, h.path)[..|path|] == Labels(t, path);
        LongerFits(Labels(t, h.path), a, Labels(t, path), b);
      }
    }
  }

  lemma StarFacts(regs: seq<string>, ps: seq<string>, path: seq<nat>)
    requires HasNode(Build(regs), path) && StarOnParam(regs, ps, path)
    ensures |ps| == |path| > 0 && Star(ps[|ps| - 1]) && Param(Labels(Build(regs), path)[|ps| - 1])
  {
  }

  lemma LongerFits(la: seq<string>, a: seq<string>, lb: seq<string>, b: seq<string>)
    requires Fits(la, a) && Fits(lb, b) && b != [] && |b| < |la| && la[..|b|] == lb
    requires Star(b[|b| - 1]) && Param(lb[|b| - 1])
    ensures Outranks(a, b)
  {
    OutranksStar(a, b, la, lb);
  }

  lemma SettledIsInRank(regs: seq<string>, req: seq<string>)
    requires NonEmptyPatterns(regs) && AllSettled(regs)
    ensures CorrectInRank(regs, req, Search(Build(regs), req))
  {
    hide Search, Matches, Settled, Beats, Segments;
    var t := Build(regs);
    SearchFindsFirst(t, req);
    match Search(t, req)
    case None =>
      forall j | 0 <= j < |regs| ensures !Matches(Segments(regs[j]), req) {
        assert Settled(regs, regs[j]);
        NoAnswerNoMatch(regs, req, j);
      }
    case Some(h) =>
      BuildHoldsLast(regs, h.path);
      var i: nat :| HoldsRegistration(t, regs, h.path, i);
      AnswerIsMatch(regs, req, h.path, i);
      forall j | 0 <= j < |regs| && Matches(Segments(regs[j]), req) ensures Beats(regs, i, j) {
        FirstBeats(regs, req, h, i, j);
      }
      assert Top(regs, req, i);
  }

  lemma NoAnswerNoMatch(regs: seq<string>, req: seq<string>, j: nat)
    requires NonEmptyPatterns(regs) && j < |regs| && Settled(regs, regs[j])
    requires forall q :: !Answers(Build(regs), req, q)
    ensures !Matches(Segments(regs[j]), req)
  {
    if Matches(Segments(regs[j]), req) {
      var q := MatchHasAnswer(regs, req, j);
    }
  }

  lemma AnswerIsMatch(regs: seq<string>, req: seq<string>, path: seq<nat>, i: nat)
    requires i < |regs| && Settled(regs, regs[i]) && PlacedAt(Build(regs), regs[i], path)
    requires Answers(Build(regs), req, path)
    ensures Matches(Segments(regs[i]), req)
  {
    BuildRootIsPlain(regs);
    SegmentsWellFormed(regs[i]);
    SettledFits(regs, regs[i]);
    WalkMatches(Build(regs), path, Segments(regs[i]), req);
  }
}
