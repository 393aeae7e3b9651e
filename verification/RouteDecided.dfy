// When a right answer exists although parameters and stars are not ranked against
// each other, and that exactly the tame registrations then give it.
module RouteDecided {
  import opened Wrappers
  import opened Text
  import opened RoutePattern
  import opened RouteTrie
  import opened RouteRuns
  import opened RouteTheorem
  import opened RouteRank
  import opened RouteSettled
  import opened RouteExact

  predicate ClashAt(a: seq<string>, b: seq<string>, k: nat)
  {
    && k < |a| && k < |b|
    && (forall i :: 0 <= i < k ==> SameKind(a[i], b[i]))
    && Param(a[k]) && Star(b[k])
  }

  // a has a parameter where b has a star, at the first place where the kinds differ.
  ghost predicate Clash(a: seq<string>, b: seq<string>)
  {
    exists k: nat :: ClashAt(a, b, k)
  }

  ghost predicate Decided(regs: seq<string>)
  {
    forall i, j :: 0 <= i < |regs| && 0 <= j < |regs| ==> !Clash(Segments(regs[i]), Segments(regs[j]))
  }

  ghost predicate RightAnswerExists(regs: seq<string>, req: seq<string>)
  {
    NoMatch(regs, req) || exists i: nat :: Best(regs, req, i)
  }

  // ---------- The best match and the top match ----------

  lemma MoreSpecificOutranks(a: seq<string>, b: seq<string>)
    ensures MoreSpecific(a, b) ==> Outranks(a, b)
    ensures Outranks(a, b) && !Clash(a, b) ==> MoreSpecific(a, b)
  {
    if MoreSpecific(a, b) {
      var k: nat :| MoreSpecificAt(a, b, k);
      assert OutranksAt(a, b, k);
    }
    if Outranks(a, b) && !Clash(a, b) {
      var k: nat :| OutranksAt(a, b, k);
      assert !ClashAt(a, b, k);
      assert MoreSpecificAt(a, b, k);
    }
  }

  lemma BestIsTop(regs: seq<string>, req: seq<string>, i: nat)
    requires Best(regs, req, i)
    ensures Top(regs, req, i)
  {
    hide Matches, Segments, MoreSpecific, Outranks, SameShape;
    forall j | 0 <= j < |regs| && Matches(Segments(regs[j]), req) ensures Beats(regs, i, j) {
      MoreSpecificOutranks(Segments(regs[i]), Segments(regs[j]));
    }
  }

  lemma TopIsBest(regs: seq<string>, req: seq<string>, i: nat)
    requires Top(regs, req, i) && Decided(regs)
    ensures Best(regs, req, i)
  {
    hide Matches, Segments, MoreSpecific, Outranks, SameShape, Clash;
    forall j | 0 <= j < |regs| && Matches(Segments(regs[j]), req)
      ensures (j <= i && SameShape(Segments(regs[j]), Segments(regs[i])))
        || MoreSpecific(Segments(regs[i]), Segments(regs[j]))
    {
      assert Beats(regs, i, j);
      MoreSpecificOutranks(Segments(regs[i]), Segments(regs[j]));
    }
  }

  // ---------- When a right answer exists ----------

  lemma ClashMatches(a: seq<string>, b: seq<string>, f: string)
    requires Clash(a, b) && IsSegments(a) && IsSegments(b)
    ensures Matches(b, Filled(a, f))
  {
    var k: nat :| ClashAt(a, b, k);
    var req := Filled(a, f);
    forall m | 0 <= m < |b| ensures b[m] == req[m] || Wild(b[m]) {
      assert m < k ==> SameKind(a[m], b[m]);
    }
    MatchesIndexed(b, req);
  }

  // A pattern of a's shape is not more specific than b.
  lemma ClashIsUndecided(a: seq<string>, b: seq<string>, c: seq<string>)
    requires Clash(a, b) && SameShape(a, c)
    ensures !SameShape(b, c) && !MoreSpecific(c, b)
  {
    var k: nat :| ClashAt(a, b, k);
    assert SameKind(a[k], c[k]);
    forall l: nat ensures !MoreSpecificAt(c, b, l) {
      assert l < |a| && l < |c| ==> SameKind(a[l], c[l]);
    }
  }

  lemma NoLiteralForFresh(regs: seq<string>, i: nat, req: seq<string>, j: nat)
    requires i < |regs| && j < |regs| && FreshFor(regs, Segments(regs[i]), req) && Matches(Segments(regs[j]), req)
    ensures !MoreSpecific(Segments(regs[j]), Segments(regs[i]))
  {
    forall k: nat ensures !MoreSpecificAt(Segments(regs[j]), Segments(regs[i]), k) {
      if k < |Segments(regs[j])| && !Wild(Segments(regs[j])[k]) { MatchedLiteral(regs, j, req, k); }
    }
  }

  lemma ClashHasNoBest(regs: seq<string>, i: nat, j: nat, req: seq<string>, k: nat)
    requires i < |regs| && j < |regs| && Clash(Segments(regs[i]), Segments(regs[j]))
    requires FreshFor(regs, Segments(regs[i]), req) && Matches(Segments(regs[j]), req)
    ensures !Best(regs, req, k)
  {
    if Best(regs, req, k) {
      NoLiteralForFresh(regs, i, req, k);
      ClashIsUndecided(Segments(regs[i]), Segments(regs[j]), Segments(regs[k]));
    }
  }

  // Every request has a right answer exactly if no two registrations clash.
  lemma DecidedIff(regs: seq<string>)
    ensures Decided(regs) <==> forall req :: IsSegments(req) ==> RightAnswerExists(regs, req)
  {
    hide Matches, Segments, IsSegments, Clash, FreshFor, Best, Top, Outranks;
    if Decided(regs) {
      forall req | IsSegments(req) ensures RightAnswerExists(regs, req) {
        TopExists(regs, req);
        if i: nat :| Top(regs, req, i) { TopIsBest(regs, req, i); }
      }
    } else {
      var i, j :| 0 <= i < |regs| && 0 <= j < |regs| && Clash(Segments(regs[i]), Segments(regs[j]));
      var req := ClashRequest(regs, i, j);
      assert !RightAnswerExists(regs, req);
    }
  }

  // A request that two clashing registrations match and no answer is right for.
  lemma ClashRequest(regs: seq<string>, i: nat, j: nat) returns (req: seq<string>)
    requires i < |regs| && j < |regs| && Clash(Segments(regs[i]), Segments(regs[j]))
    ensures IsSegments(req) && !RightAnswerExists(regs, req)
  {
    hide Segments, Clash, Best, IsSegments, Matches;
    req := Filled(Segments(regs[i]), FreshSegment(regs));
    FilledIsFresh(regs, i);
    SegmentsWellFormed(regs[i]);
    SegmentsWellFormed(regs[j]);
    ClashMatches(Segments(regs[i]), Segments(regs[j]), FreshSegment(regs));
    forall k: nat ensures !Best(regs, req, k) {
      ClashHasNoBest(regs, i, j, req, k);
    }
  }

  // ---------- Tame registrations do not clash ----------

  lemma LabelThere(t: Tree, a: seq<string>, b: seq<string>, pa: seq<nat>, pb: seq<nat>, k: nat)
    requires Place(t, a) == Some(pa) && Place(t, b) == Some(pb) && k < |a| && k < |b|
    requires forall m :: 0 <= m <= k ==> SameBranch(a[m], b[m])
    ensures Labels(t, pa)[k] == Labels(t, pb)[k]
  {
    hide Place, SameBranch, Labels;
    PlaceShares(t, a, b, pa, pb, k + 1);
    LabelsShare(t, pa, pb, k + 1);
    assert Labels(t, pa)[k] == Labels(t, pa)[..k + 1][k];
    assert Labels(t, pb)[k] == Labels(t, pb)[..k + 1][k];
  }

  lemma SameKindThere(t: Tree, p: string, k: nat)
    requires SitsRight(t, p) && k < |Segments(p)|
    ensures var path := Place(t, Segments(p)).value;
      k < |path| && SameKind(Labels(t, path)[k], Segments(p)[k])
  {
  }

  // Where two registrations that sit right have both a wildcard, after the same
  // kinds, it is of one kind.
  lemma RightPlacesAgree(t: Tree, p: string, q: string, k: nat)
    requires SitsRight(t, p) && SitsRight(t, q) && k < |Segments(p)| && k < |Segments(q)|
    requires forall m :: 0 <= m < k ==> SameKind(Segments(p)[m], Segments(q)[m])
    requires Wild(Segments(p)[k]) && Wild(Segments(q)[k])
    ensures SameKind(Segments(p)[k], Segments(q)[k])
  {
    hide Segments, Place, SameShape, Labels;
    var a, b := Segments(p), Segments(q);
    LabelThere(t, a, b, Place(t, a).value, Place(t, b).value, k);
    SameKindThere(t, p, k);
    SameKindThere(t, q, k);
  }

  lemma RightPlacesDoNotClash(t: Tree, p: string, q: string)
    requires SitsRight(t, p) && SitsRight(t, q)
    ensures !Clash(Segments(p), Segments(q))
  {
    hide SitsRight, Segments;
    forall k: nat ensures !ClashAt(Segments(p), Segments(q), k) {
      if ClashAt(Segments(p), Segments(q), k) { RightPlacesAgree(t, p, q, k); }
    }
  }

  lemma TameIsDecided(regs: seq<string>)
    requires NonEmptyPatterns(regs) && TameRun(regs)
    ensures Decided(regs)
  {
    TameRunIffAllSitRight(regs);
    hide Clash, SitsRight, Segments, TameRun;
    forall i, j | 0 <= i < |regs| && 0 <= j < |regs| ensures !Clash(Segments(regs[i]), Segments(regs[j])) {
      assert SitsRight(Build(regs), regs[i]) && SitsRight(Build(regs), regs[j]);
      RightPlacesDoNotClash(Build(regs), regs[i], regs[j]);
    }
  }

  // ---------- Exactly the tame registrations give the right answers ----------

  lemma CorrectIsInRank(regs: seq<string>, req: seq<string>, r: Option<Hit>)
    ensures Correct(regs, req, r) ==> CorrectInRank(regs, req, r)
    ensures Decided(regs) && CorrectInRank(regs, req, r) ==> Correct(regs, req, r)
  {
    hide Beats, MoreSpecific, Matches, Segments, Clash, Decided;
    if r.Some? && Correct(regs, req, r) {
      var i: nat :| Best(regs, req, i) && regs[i] == r.value.pattern;
      BestIsTop(regs, req, i);
    }
    if r.Some? && Decided(regs) && CorrectInRank(regs, req, r) {
      var i: nat :| Top(regs, req, i) && regs[i] == r.value.pattern;
      TopIsBest(regs, req, i);
    }
  }

  // Right answers are the top matches of lists on which parameters and stars do
  // not compete.
  lemma CorrectIffDecidedInRank(regs: seq<string>)
    ensures AlwaysCorrect(regs) <==> Decided(regs) && AlwaysInRank(regs)
  {
    hide Correct, CorrectInRank, Decided, Build, Search, Segments, IsSegments, RightAnswerExists;
    if AlwaysCorrect(regs) {
      forall req | IsSegments(req) ensures RightAnswerExists(regs, req) {
        AlwaysCorrectOn(regs, req);
        CorrectExists(regs, req, Search(Build(regs), req));
      }
      DecidedIff(regs);
      forall path: string ensures InRankFor(regs, path) {
        assert CorrectFor(regs, path);
        CorrectIsInRank(regs, Segments(path), Route(regs, path));
      }
    }
    if Decided(regs) && AlwaysInRank(regs) {
      forall path: string ensures CorrectFor(regs, path) {
        assert InRankFor(regs, path);
        CorrectIsInRank(regs, Segments(path), Route(regs, path));
      }
    }
  }

  lemma CorrectExists(regs: seq<string>, req: seq<string>, r: Option<Hit>)
    requires Correct(regs, req, r)
    ensures RightAnswerExists(regs, req)
  {
  }

  // A star stored at a parameter node clashes with what catches longer requests.
  lemma StoredStarClashes(regs: seq<string>, i: nat) returns (k: nat)
    requires NonEmptyPatterns(regs) && AllSettled(regs) && i < |regs| && !SitsRight(Build(regs), regs[i])
    ensures k < |regs| && Clash(Segments(regs[k]), Segments(regs[i]))
  {
    hide AllSettled, Build, Segments, Place, Fits, Walks, IsSegments, Settled, StarOnParam, EndsInStar, FreshFor, Matches, Clash;
    assert Settled(regs, regs[i]) by { SettledOne(regs, i); }
    var ps := Segments(regs[i]);
    RegistrationHasPlace(regs, i);
    var path := Place(Build(regs), ps).value;
    var req := Prolonged(regs, ps, 1);
    NotRightIsStar(regs, regs[i], path);
    StarFacts(regs, ps, path);
    SegmentsWellFormed(regs[i]);
    EndsInStarIs(ps);
    ProlongedIsFresh(regs, ps, 1);
    FreshMatches(regs, ps, req);
    var q := MatchHasAnswer(regs, req, i);
    RootIsNoStar(regs);
    ParamPlaceEnds(Build(regs), path, req);
    AnswerWalks(Build(regs), req, q);
    PrefixIsShorter(path, q);
    BuildHoldsLast(regs, q);
    k :| HoldsRegistration(Build(regs), regs, q, k);
    SettledOne(regs, k);
    SettledFits(regs, regs[k]);
    SettledFits(regs, regs[i]);
    LongerClashes(Labels(Build(regs), q), Segments(regs[k]), Labels(Build(regs), path), ps);
  }

  lemma PrefixIsShorter<T>(a: seq<T>, b: seq<T>)
    requires a <= b && a != b
    ensures |a| < |b|
  {
    assert b[..|a|] == a && b[..|b|] == b;
  }

  lemma SettledOne(regs: seq<string>, i: nat)
    requires AllSettled(regs) && i < |regs|
    ensures Settled(regs, regs[i])
  {
  }

  lemma NotRightIsStar(regs: seq<string>, pattern: string, path: seq<nat>)
    requires Settled(regs, pattern) && !SitsRight(Build(regs), pattern) && PlacedAt(Build(regs), pattern, path)
    ensures StarOnParam(regs, Segments(pattern), path)
  {
  }

  lemma EndsInStarIs(ps: seq<string>)
    ensures EndsInStar(ps) <==> ps != [] && Star(ps[|ps| - 1])
  {
  }

  lemma FreshMatches(regs: seq<string>, ps: seq<string>, req: seq<string>)
    requires FreshFor(regs, ps, req)
    ensures Matches(ps, req)
  {
  }

  lemma AnswerWalks(t: Tree, req: seq<string>, q: seq<nat>)
    requires Answers(t, req, q)
    ensures Walks(t, q, req) && PatternAt(t, q) != ""
  {
  }

  lemma LongerClashes(la: seq<string>, a: seq<string>, lb: seq<string>, b: seq<string>)
    requires Fits(la, a) && Fits(lb, b) && b != [] && |b| < |la| && la[..|b|] == lb
    requires Star(b[|b| - 1]) && Param(lb[|b| - 1])
    ensures Clash(a, b)
  {
    var n := |b| - 1;
    forall m | 0 <= m < n ensures SameKind(a[m], b[m]) {
      assert la[m] == lb[m] && SameKind(la[m], a[m]) && SameKind(lb[m], b[m]);
    }
    assert la[n] == lb[n] && SameKind(la[n], a[n]);
    assert ClashAt(a, b, n);
  }

  // Every request path has its right answer, and the tree gives it, exactly if
  // every registration was tame.
  lemma CorrectIffTame(regs: seq<string>)
    requires NonEmptyPatterns(regs)
    ensures AlwaysCorrect(regs) <==> TameRun(regs)
  {
    hide TameRun, Decided, AlwaysCorrect, AlwaysInRank, AllSettled, SitsRight;
    TameRunIffAllSitRight(regs);
    CorrectIffDecidedInRank(regs);
    InRankIffSettled(regs);
    if TameRun(regs) {
      TameIsDecided(regs);
      TameIsSettled(regs);
    } else if AlwaysCorrect(regs) {
      var i :| 0 <= i < |regs| && !SitsRight(Build(regs), regs[i]);
      var k := StoredStarClashes(regs, i);
      DecidedHasNoClash(regs, k, i);
    }
  }

  lemma DecidedHasNoClash(regs: seq<string>, i: nat, j: nat)
    requires Decided(regs) && i < |regs| && j < |regs|
    ensures !Clash(Segments(regs[i]), Segments(regs[j]))
  {
  }

  lemma TameIsSettled(regs: seq<string>)
    requires TameRun(regs)
    ensures AllSettled(regs)
  {
    TameRunIffAllSitRight(regs);
  }

  // On lists where every request has a right answer, the tree gives it exactly if
  // every registration was tame; on others no tree could.
  lemma DecidedCorrectIffTame(regs: seq<string>)
    requires NonEmptyPatterns(regs)
    ensures Decided(regs) ==> (AlwaysCorrect(regs) <==> TameRun(regs))
    ensures Decided(regs) ==> (AlwaysInRank(regs) <==> TameRun(regs))
    ensures !Decided(regs) ==> !TameRun(regs) && exists req :: IsSegments(req) && !RightAnswerExists(regs, req)
  {
    hide TameRun, Decided, AlwaysCorrect, AlwaysInRank, IsSegments, RightAnswerExists;
    CorrectIffTame(regs);
    CorrectIffDecidedInRank(regs);
    DecidedIff(regs);
    if TameRun(regs) { TameIsDecided(regs); }
  }

  // ---------- In rank without being tame ----------

  lemma StarUnderParam(p: string, q: string, a: string, z: string, b: string)
    requires Segments(p) == [a, z] && Segments(q) == [b] && Param(a) && Star(z) && Star(b)
    ensures Build([p, q]) == Tree("", "", [Tree(q, a, [Tree(p, z, [])])])
  {
    var under := Tree("", a, [Tree(p, z, [])]);
    assert [p][..0] == [] && [p, q][..1] == [p];
    assert [a, z][1..] == [z] && [z][1..] == [] && [b][1..] == [];
    assert Insert(Tree("", z, []), p, []) == Tree(p, z, []);
    assert Insert(Tree("", a, []), p, [z]).children == [Tree(p, z, [])];
    assert Insert(ROOT, p, [a, z]).children == [under];
    assert Build([p]) == Tree("", "", [under]);
    assert FirstMatch([under], b) == 0;
    assert Insert(under, q, []) == Tree(q, a, [Tree(p, z, [])]);
    assert [under][0 := Tree(q, a, [Tree(p, z, [])])] == [Tree(q, a, [Tree(p, z, [])])];
  }

  lemma StarUnderParamPlaces(p: string, q: string, a: string, z: string, b: string)
    requires Param(a) && Star(z) && Star(b)
    ensures var t := Tree("", "", [Tree(q, a, [Tree(p, z, [])])]);
      && Place(t, [a, z]) == Some([0, 0]) && Labels(t, [0, 0]) == [a, z]
      && Place(t, [b]) == Some([0]) && Labels(t, [0]) == [a]
      && NodeAt(t, [0]) == t.children[0] && PatternAt(t, [0]) == q
  {
    var node := Tree(q, a, [Tree(p, z, [])]);
    assert [a, z][1..] == [z] && [z][1..] == [] && [b][1..] == [];
    assert [0, 0][1..] == [0] && [0][1..] == [];
    assert Place(Tree(p, z, []), []) == Some([]) && FirstMatch([Tree(p, z, [])], z) == 0;
    assert Place(node, [z]) == Some([0] + []);
    var deep: seq<nat> := [0] + ([0] + []);
    assert deep == [0, 0] && FirstMatch([node], a) == 0;
    assert Place(Tree("", "", [node]), [a, z]) == Some(deep);
  }

  // After p = '/:a/*z', the star of q = '/*b' is stored at ':a': not a tame run,
  // but every request is answered with its top match.
  lemma SettledButNotTame(p: string, q: string, a: string, z: string, b: string)
    requires p != "" && q != "" && Segments(p) == [a, z] && Segments(q) == [b] && Param(a) && Star(z) && Star(b)
    ensures AlwaysInRank([p, q]) && !TameRun([p, q]) && !Decided([p, q])
  {
    hide AlwaysInRank, TameRun, Build, Segments, Place, Labels, PatternAt;
    var regs := [p, q];
    StarUnderParam(p, q, a, z, b);
    StarUnderParamPlaces(p, q, a, z, b);
    StarStored(regs, p, q, a, z, b);
    InRankIffSettled(regs);
    TameRunIffAllSitRight(regs);
    assert SameShape([a], [b]) ==> SameKind([a][0], [b][0]);
    assert !SitsRight(Build(regs), regs[1]);
    assert ClashAt([a, z], [b], 0);
    assert Clash(Segments(regs[0]), Segments(regs[1]));
  }

  lemma StarStored(regs: seq<string>, p: string, q: string, a: string, z: string, b: string)
    requires regs == [p, q] && Segments(p) == [a, z] && Segments(q) == [b] && Param(a) && Star(z) && Star(b)
    requires var t := Build(regs);
      && t.children == [Tree(q, a, [Tree(p, z, [])])]
      && Place(t, [a, z]) == Some([0, 0]) && Labels(t, [0, 0]) == [a, z]
      && Place(t, [b]) == Some([0]) && Labels(t, [0]) == [a]
      && NodeAt(t, [0]) == t.children[0] && PatternAt(t, [0]) == q
    ensures Settled(regs, p) && Settled(regs, q)
  {
    hide Build, Segments, Place, Labels, NodeAt, PatternAt;
    assert CatchesLonger(Tree(q, a, [Tree(p, z, [])]));
    assert SameShape([b], [a]) ==> SameKind([b][0], [a][0]);
    assert !SameShape([a, z], [a]) && !SameShape([b], [a]);
    assert StarOnParam(regs, [b], [0]);
  }
}
