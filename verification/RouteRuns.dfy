// Trees built by registering a list of patterns in order, and the invariants
// they satisfy whatever the patterns are.
module RouteRuns {
  import opened Wrappers
  import opened RoutePattern
  import opened RouteTrie

  // The tree after registering regs in order on a new method.
  function Build(regs: seq<string>): Tree
  {
    if regs == [] then ROOT
    else
      var last := regs[|regs| - 1];
      Insert(Build(regs[..|regs| - 1]), last, Segments(last))
  }

  predicate NonEmptyPatterns(regs: seq<string>)
  {
    forall i :: 0 <= i < |regs| ==> regs[i] != ""
  }

  // ---------- Siblings ----------

  // Parts are non-empty and distinct, and a wildcard child is the last child.
  predicate SiblingsOk(cs: seq<Tree>)
  {
    && (forall i :: 0 <= i < |cs| ==> cs[i].part != "")
    && (forall i, j :: 0 <= i < j < |cs| ==> cs[i].part != cs[j].part && !Wild(cs[i].part))
  }

  predicate Shaped(t: Tree)
  {
    && SiblingsOk(t.children)
    && (Star(t.part) ==> t.pattern != "")
    && forall i :: 0 <= i < |t.children| ==> Shaped(t.children[i])
  }

  // No part below the root is longer than n.
  predicate PartsWithin(t: Tree, n: nat)
  {
    forall i :: 0 <= i < |t.children| ==> |t.children[i].part| <= n && PartsWithin(t.children[i], n)
  }

  lemma {:induction false} InsertShaped(t: Tree, pattern: string, parts: seq<string>)
    requires Shaped(t.(pattern := pattern)) && (Star(t.part) ==> t.pattern != "" || parts == [])
    requires IsSegments(parts) && pattern != ""
    ensures Shaped(Insert(t, pattern, parts))
    decreases |parts|
  {
    if parts != [] {
      var i := FirstMatch(t.children, parts[0]);
      if i < |t.children| {
        assert Shaped(t.children[i]);
        var c := t.children[i].(pattern := pattern);
        assert Shaped(c);
        InsertShaped(t.children[i], pattern, parts[1..]);
      } else {
        InsertShaped(Tree("", parts[0], []), pattern, parts[1..]);
      }
    }
  }

  lemma {:induction false} InsertPartsWithin(t: Tree, pattern: string, parts: seq<string>, n: nat)
    requires PartsWithin(t, n) && forall p :: p in parts ==> |p| <= n
    ensures PartsWithin(Insert(t, pattern, parts), n)
    decreases |parts|
  {
    if parts != [] {
      var i := FirstMatch(t.children, parts[0]);
      InsertPartsWithin(if i < |t.children| then t.children[i] else Tree("", parts[0], []), pattern, parts[1..], n);
    }
  }

  // Every tree built from non-empty patterns has distinct siblings, at most one
  // wildcard child per node, placed last, and a pattern on every '*' node.
  lemma {:induction false} BuildShaped(regs: seq<string>)
    requires NonEmptyPatterns(regs)
    ensures Shaped(Build(regs))
  {
    if regs != [] {
      var last := regs[|regs| - 1];
      BuildShaped(regs[..|regs| - 1]);
      SegmentsWellFormed(last);
      InsertShaped(Build(regs[..|regs| - 1]), last, Segments(last));
    }
  }

  lemma {:induction false} BuildPartsWithin(regs: seq<string>, n: nat)
    requires forall p :: p in regs ==> |p| <= n
    ensures PartsWithin(Build(regs), n)
  {
    if regs != [] {
      var last := regs[|regs| - 1];
      BuildPartsWithin(regs[..|regs| - 1], n);
      SegmentsWellFormed(last);
      InsertPartsWithin(Build(regs[..|regs| - 1]), last, Segments(last), n);
    }
  }

  // At most two children can accept one segment, so a search step has at most
  // two branches.
  lemma AtMostTwoBranches(t: Tree, part: string, i: nat, j: nat, k: nat)
    requires Shaped(t) && i < j < k < |t.children|
    ensures !(Accepts(t.children[i], part) && Accepts(t.children[j], part) && Accepts(t.children[k], part))
  {
    assert t.children[i].part != t.children[j].part;
    assert t.children[j].part != t.children[k].part;
  }

  // ---------- Which registration a node holds ----------

  predicate PlacedAt(t: Tree, pattern: string, path: seq<nat>)
  {
    Place(t, Segments(pattern)) == Some(path)
  }

  // i is the last registration that goes to this path.
  ghost predicate LastPlaced(t: Tree, regs: seq<string>, path: seq<nat>, i: nat)
  {
    && i < |regs|
    && PlacedAt(t, regs[i], path)
    && forall j :: i < j < |regs| ==> !PlacedAt(t, regs[j], path)
  }

  ghost predicate NonePlaced(t: Tree, regs: seq<string>, path: seq<nat>)
  {
    forall i :: 0 <= i < |regs| ==> !PlacedAt(t, regs[i], path)
  }

  ghost predicate HoldsRegistration(t: Tree, regs: seq<string>, path: seq<nat>, i: nat)
  {
    LastPlaced(t, regs, path, i) && regs[i] == PatternAt(t, path)
  }

  // The node at a path carries the last registration that goes there, if any does.
  ghost predicate HoldsLast(t: Tree, regs: seq<string>, path: seq<nat>)
  {
    || (exists i: nat :: HoldsRegistration(t, regs, path, i))
    || (PatternAt(t, path) == "" && NonePlaced(t, regs, path))
  }

  lemma {:induction false} RegistrationHasPlace(regs: seq<string>, i: nat)
    requires i < |regs|
    ensures Place(Build(regs), Segments(regs[i])).Some?
  {
    var n := |regs| - 1;
    var t := Build(regs[..n]);
    if i == n {
      InsertPatterns(t, regs[n], Segments(regs[n]), []);
    } else {
      RegistrationHasPlace(regs[..n], i);
      InsertKeepsPlaces(t, regs[n], Segments(regs[n]), Segments(regs[i]));
    }
  }

  lemma HoldsLastStep(t: Tree, u: Tree, regs: seq<string>, p: string, path: seq<nat>)
    requires HoldsLast(t, regs, path)
    requires Place(u, Segments(p)).Some?
    requires PatternAt(u, path) == if PlacedAt(u, p, path) then p else PatternAt(t, path)
    requires forall i :: 0 <= i < |regs| ==> PlacedAt(u, regs[i], path) == PlacedAt(t, regs[i], path)
    ensures HoldsLast(u, regs + [p], path)
  {
    var all := regs + [p];
    if PlacedAt(u, p, path) {
      assert HoldsRegistration(u, all, path, |regs|);
    } else if i: nat :| HoldsRegistration(t, regs, path, i) {
      assert HoldsRegistration(u, all, path, i);
    } else {
      assert NonePlaced(u, all, path);
    }
  }

  // In every tree built by registrations each node carries the last registration
  // that goes there.
  lemma {:induction false} BuildHoldsLast(regs: seq<string>, path: seq<nat>)
    ensures HoldsLast(Build(regs), regs, path)
  {
    if regs != [] {
      var n := |regs| - 1;
      var t, u := Build(regs[..n]), Build(regs);
      BuildHoldsLast(regs[..n], path);
      InsertPatterns(t, regs[n], Segments(regs[n]), path);
      forall i | 0 <= i < n ensures PlacedAt(u, regs[..n][i], path) == PlacedAt(t, regs[..n][i], path) {
        RegistrationHasPlace(regs[..n], i);
        InsertKeepsPlaces(t, regs[n], Segments(regs[n]), Segments(regs[i]));
      }
      HoldsLastStep(t, u, regs[..n], regs[n], path);
      assert regs[..n] + [regs[n]] == regs;
    }
  }

  // The depth of a pattern-bearing node is the number of segments of its pattern,
  // and it never exceeds the number of request segments that lead search there.
  lemma AnswerFitsRequest(regs: seq<string>, req: seq<string>)
    ensures match Search(Build(regs), req)
      case None => true
      case Some(h) => h.pattern in regs && |Segments(h.pattern)| == |h.path| <= |req|
  {
    var t := Build(regs);
    SearchFindsFirst(t, req);
    match Search(t, req)
    case None =>
    case Some(h) =>
      BuildHoldsLast(regs, h.path);
      var i: nat :| HoldsRegistration(t, regs, h.path, i);
      WalkLength(t, h.path, req);
  }

  lemma {:induction false} WalkLength(t: Tree, path: seq<nat>, req: seq<string>)
    requires Walks(t, path, req)
    ensures |path| <= |req|
    decreases |path|
  {
    if path != [] {
      WalkLength(t.children[path[0]], path[1..], req[1..]);
    }
  }

  // ---------- Tame registrations ----------

  // The guard of insertion at every level: the child to descend into is missing
  // or has an equal part, up to the name of a wildcard of the same kind.
  predicate TameInsert(t: Tree, parts: seq<string>)
    decreases |parts|
  {
    parts == [] ||
    var i := FirstMatch(t.children, parts[0]);
    i == |t.children| || (SameKind(t.children[i].part, parts[0]) && TameInsert(t.children[i], parts[1..]))
  }

  predicate TameRun(regs: seq<string>)
  {
    regs == [] ||
    var n := |regs| - 1;
    TameRun(regs[..n]) && TameInsert(Build(regs[..n]), Segments(regs[n]))
  }

  // Registration i sits under nodes whose parts have the shape of its segments.
  predicate SitsRight(t: Tree, pattern: string)
  {
    var p := Place(t, Segments(pattern));
    p.Some? && SameShape(Labels(t, p.value), Segments(pattern))
  }

  lemma {:induction false} TameIffSitsRight(t: Tree, pattern: string, parts: seq<string>)
    ensures var u := Insert(t, pattern, parts);
      && Place(u, parts).Some?
      && (TameInsert(t, parts) <==> SameShape(Labels(u, Place(u, parts).value), parts))
    decreases |parts|
  {
    var u := Insert(t, pattern, parts);
    if parts != [] {
      var i := FirstMatch(t.children, parts[0]);
      var was := if i < |t.children| then t.children[i] else Tree("", parts[0], []);
      TameIffSitsRight(was, pattern, parts[1..]);
      FirstMatchIs(u.children, parts[0], i);
      if i == |t.children| { NewChainIsTame(was, parts[1..]); }
      var rest := Place(u.children[i], parts[1..]).value;
      var path := [i] + rest;
      assert path[1..] == rest;
      assert Labels(u, path) == [was.part] + Labels(u.children[i], rest);
      SameShapeCons(was.part, Labels(u.children[i], rest), parts);
    }
  }

  lemma SameShapeCons(a: string, rest: seq<string>, parts: seq<string>)
    requires parts != []
    ensures SameShape([a] + rest, parts) <==> SameKind(a, parts[0]) && SameShape(rest, parts[1..])
  {
    var all := [a] + rest;
    if SameShape(all, parts) {
      forall i | 0 <= i < |rest| ensures SameKind(rest[i], parts[1..][i]) {
        assert SameKind(all[i + 1], parts[i + 1]);
      }
    }
    if SameKind(a, parts[0]) && SameShape(rest, parts[1..]) {
      forall i | 0 <= i < |all| ensures SameKind(all[i], parts[i]) {
        if i > 0 { assert SameKind(rest[i - 1], parts[1..][i - 1]); }
      }
    }
  }

  lemma NewChainIsTame(t: Tree, parts: seq<string>)
    requires t.children == []
    ensures TameInsert(t, parts)
  {
  }

  // Later registrations do not move earlier ones.
  lemma SitsRightIsStable(t: Tree, pattern: string, other: string)
    requires Place(t, Segments(other)).Some?
    ensures SitsRight(Insert(t, pattern, Segments(pattern)), other) == SitsRight(t, other)
  {
    InsertKeepsPlaces(t, pattern, Segments(pattern), Segments(other));
    InsertKeepsNodes(t, pattern, Segments(pattern), Place(t, Segments(other)).value);
  }

  lemma TameIffLastSitsRight(t: Tree, pattern: string)
    ensures TameInsert(t, Segments(pattern)) <==> SitsRight(Insert(t, pattern, Segments(pattern)), pattern)
  {
    TameIffSitsRight(t, pattern, Segments(pattern));
  }

  ghost predicate AllSitRight(t: Tree, regs: seq<string>)
  {
    forall i :: 0 <= i < |regs| ==> SitsRight(t, regs[i])
  }

  lemma {:induction false} TameRunIffAllSitRight(regs: seq<string>)
    ensures TameRun(regs) <==> AllSitRight(Build(regs), regs)
  {
    hide SitsRight, TameInsert;
    if regs != [] {
      var n := |regs| - 1;
      var t, u := Build(regs[..n]), Build(regs);
      TameRunIffAllSitRight(regs[..n]);
      TameIffLastSitsRight(t, regs[n]);
      forall i | 0 <= i < n ensures SitsRight(u, regs[i]) == SitsRight(t, regs[..n][i]) {
        RegistrationHasPlace(regs[..n], i);
        SitsRightIsStable(t, regs[n], regs[i]);
      }
    }
  }
}
