// Consequences of the routing theorem: registration order, and the runs in which
// no wildcard is renamed.
module RouteOrder {
  import opened Wrappers
  import opened Text
  import opened RoutePattern
  import opened RouteTrie
  import opened RouteRuns
  import opened RouteTheorem

  // The pattern of an answer, without the node's position in the tree.
  function AnswerPattern(regs: seq<string>, path: string): Option<string>
  {
    match Route(regs, path)
    case None => None
    case Some(h) => Some(h.pattern)
  }

  predicate DistinctShapes(regs: seq<string>)
  {
    forall i, j :: 0 <= i < j < |regs| ==> !SameShape(Segments(regs[i]), Segments(regs[j]))
  }

  lemma BestIsUnique(regs: seq<string>, others: seq<string>, req: seq<string>, i: nat, j: nat)
    requires Best(regs, req, i) && Best(others, req, j)
    requires regs[i] in others && others[j] in regs
    requires DistinctShapes(regs)
    ensures regs[i] == others[j]
  {
    var i' :| 0 <= i' < |others| && others[i'] == regs[i];
    var j' :| 0 <= j' < |regs| && regs[j'] == others[j];
    var a, b := Segments(regs[i]), Segments(others[j]);
    assert SameShape(b, a) || MoreSpecific(a, b);
    assert SameShape(a, b) || MoreSpecific(b, a);
    if MoreSpecific(a, b) {
      MoreSpecificIsStrict(a, b);
      assert false;
    }
    assert SameShape(a, b);
    assert i == j';
  }

  // Patterns of distinct shapes: two tame orders of the same registrations give
  // every request the same answer.
  lemma OrderDoesNotMatter(regs: seq<string>, others: seq<string>, path: string)
    requires NonEmptyPatterns(regs) && TameRun(regs) && TameRun(others)
    requires DistinctShapes(regs) && multiset(regs) == multiset(others)
    ensures AnswerPattern(regs, path) == AnswerPattern(others, path)
  {
    var req := Segments(path);
    SameMembers(regs, others);
    SameMembers(others, regs);
    assert NonEmptyPatterns(others);
    TameIsCorrect(regs, req);
    TameIsCorrect(others, req);
    match (Route(regs, path), Route(others, path))
    case (Some(h), Some(g)) =>
      var i: nat :| Best(regs, req, i) && regs[i] == h.pattern;
      var j: nat :| Best(others, req, j) && others[j] == g.pattern;
      BestIsUnique(regs, others, req, i, j);
    case _ =>
  }

  lemma SameMembers(a: seq<string>, b: seq<string>)
    requires multiset(a) == multiset(b)
    ensures forall i :: 0 <= i < |a| ==> a[i] in b
  {
    forall i | 0 <= i < |a| ensures a[i] in b {
      assert a[i] in multiset(b);
    }
  }

  // ---------- Clean registrations ----------

  // matchChild finds nothing or a child with an equal part, at every level.
  predicate CleanInsert(t: Tree, parts: seq<string>)
    decreases |parts|
  {
    parts == [] ||
    var i := FirstMatch(t.children, parts[0]);
    i == |t.children| || (t.children[i].part == parts[0] && CleanInsert(t.children[i], parts[1..]))
  }

  predicate CleanRun(regs: seq<string>)
  {
    regs == [] ||
    var n := |regs| - 1;
    CleanRun(regs[..n]) && CleanInsert(Build(regs[..n]), Segments(regs[n]))
  }

  lemma {:induction false} CleanInsertLabels(t: Tree, pattern: string, parts: seq<string>)
    requires CleanInsert(t, parts)
    ensures TameInsert(t, parts)
    ensures var u := Insert(t, pattern, parts); Place(u, parts).Some? && Labels(u, Place(u, parts).value) == parts
    decreases |parts|
  {
    hide Search, Segments;
    var u := Insert(t, pattern, parts);
    if parts != [] {
      var i := FirstMatch(t.children, parts[0]);
      var was := if i < |t.children| then t.children[i] else Tree("", parts[0], []);
      CleanInsertLabels(was, pattern, parts[1..]);
      FirstMatchIs(u.children, parts[0], i);
      var rest := Place(u.children[i], parts[1..]).value;
      var path := [i] + rest;
      assert path[1..] == rest;
      assert Labels(u, path) == [was.part] + Labels(u.children[i], rest);
    }
  }

  // A clean run is tame, and every registration sits under exactly its own parts.
  lemma {:induction false} CleanRunLabels(regs: seq<string>, j: nat)
    requires CleanRun(regs) && j < |regs|
    ensures TameRun(regs)
    ensures var p := Place(Build(regs), Segments(regs[j]));
      p.Some? && Labels(Build(regs), p.value) == Segments(regs[j])
  {
    var n := |regs| - 1;
    var t := Build(regs[..n]);
    CleanInsertLabels(t, regs[n], Segments(regs[n]));
    if n > 0 { CleanRunLabels(regs[..n], if j < n then j else 0); }
    if j < n {
      assert regs[..n][j] == regs[j];
      InsertKeepsPlaces(t, regs[n], Segments(regs[n]), Segments(regs[j]));
      InsertKeepsNodes(t, regs[n], Segments(regs[n]), Place(t, Segments(regs[j])).value);
    }
  }

  // In a clean run, equal shape means equal part list: the last registration of
  // a part list is the one that answers for it.
  lemma CleanShapesAreEqual(regs: seq<string>, i: nat, j: nat)
    requires CleanRun(regs) && i < |regs| && j < |regs|
    requires SameShape(Segments(regs[i]), Segments(regs[j]))
    ensures Segments(regs[i]) == Segments(regs[j])
  {
    CleanRunLabels(regs, i);
    CleanRunLabels(regs, j);
    SameShapeSamePlace(Build(regs), Segments(regs[i]), Segments(regs[j]));
  }

  predicate DistinctPartLists(regs: seq<string>)
  {
    forall i, j :: 0 <= i < j < |regs| ==> Segments(regs[i]) != Segments(regs[j])
  }

  // Patterns of distinct part lists: every clean order gives every request the
  // same answer.
  lemma CleanOrderDoesNotMatter(regs: seq<string>, others: seq<string>, path: string)
    requires NonEmptyPatterns(regs) && CleanRun(regs) && CleanRun(others)
    requires DistinctPartLists(regs) && multiset(regs) == multiset(others)
    ensures AnswerPattern(regs, path) == AnswerPattern(others, path)
  {
    hide AnswerPattern, CleanRun, TameRun;
    CleanIsTame(regs);
    CleanIsTame(others);
    forall i, j | 0 <= i < j < |regs| ensures !SameShape(Segments(regs[i]), Segments(regs[j])) {
      if SameShape(Segments(regs[i]), Segments(regs[j])) { CleanShapesAreEqual(regs, i, j); }
    }
    OrderDoesNotMatter(regs, others, path);
  }

  lemma CleanIsTame(regs: seq<string>)
    requires CleanRun(regs)
    ensures TameRun(regs)
  {
    if regs != [] { CleanRunLabels(regs, 0); }
  }

  // ---------- A run that is not tame ----------

  lemma TwoSegments(path: string, a: string, b: string)
    requires IsSegments([a, b]) && path == "/" + a + "/" + b
    ensures Segments(path) == [a, b]
  {
    SegmentsOfAbsolute([a, b]);
    assert Join([a, b][1..], "/") == b;
    assert "/" + Join([a, b], "/") == path;
  }

  lemma FirstOfTwo(p: string, a: string, x: string)
    requires Segments(p) == [a, x]
    ensures Build([p]) == Tree("", "", [Tree("", a, [Tree(p, x, [])])])
  {
    assert [p][..0] == [];
    assert [a, x][1..] == [x] && [x][1..] == [];
    assert Insert(Tree("", a, []), p, [x]).children == [Tree(p, x, [])];
    assert Build([p]) == Insert(ROOT, p, [a, x]);
  }

  // After p = '/:a/x', the literal b of q = '/b/y' is stored under ':a'.
  lemma LiteralIsAbsorbed(p: string, q: string, a: string, x: string, b: string, y: string)
    requires Segments(p) == [a, x] && Segments(q) == [b, y]
    requires Param(a) && !Wild(x) && x != y
    ensures Build([p, q]) == Tree("", "", [Tree("", a, [Tree(p, x, []), Tree(q, y, [])])])
  {
    FirstOfTwo(p, a, x);
    var under := Tree("", a, [Tree(p, x, [])]);
    var grown := Insert(under, q, [y]);
    assert [p, q][..1] == [p];
    assert [b, y][1..] == [y] && [y][1..] == [];
    assert FirstMatch(under.children, y) == 1;
    assert Insert(Tree("", y, []), q, []) == Tree(q, y, []);
    assert grown.children == under.children + [Insert(Tree("", y, []), q, [y][1..])];
    assert grown.children == [Tree(p, x, []), Tree(q, y, [])];
    assert [under][0 := grown] == [grown];
    assert Build([p, q]) == Insert(Build([p]), q, [b, y]);
  }

  // Then a request '/c/y' for any c is answered by q, although q does not match it.
  lemma AbsorbedLiteralAnswersAll(p: string, q: string, a: string, x: string, b: string, y: string, c: string)
    requires Segments(p) == [a, x] && Segments(q) == [b, y] && q != ""
    requires Param(a) && !Wild(b) && !Wild(x) && !Wild(y) && x != y
    ensures Search(Build([p, q]), [c, y]) == Some(Hit([0, 1], q))
    ensures c != b ==> !Matches(Segments(q), [c, y])
  {
    LiteralIsAbsorbed(p, q, a, x, b, y);
    var kids := [Tree(p, x, []), Tree(q, y, [])];
    var under := Tree("", a, kids);
    var top: seq<nat>, deep: seq<nat> := [1] + [], [0] + [1];
    assert top == [1] && deep == [0, 1];
    assert Search(kids[1], [y][1..]) == Some(Hit([], q));
    assert !Accepts(kids[0], y);
    assert SearchFrom(kids, 1, [y]) == Some(Hit([1], q));
    assert Search(under, [y]) == Some(Hit([1], q));
    assert [c, y][1..] == [y];
    assert SearchFrom([under], 0, [c, y]) == Some(Hit([0, 1], q));
  }

  // A concrete run: '/c/y' is answered by '/b/y'.
  lemma AbsorbedLiteralExample(p: string, q: string, r: string)
    requires p == "/" + ":a" + "/" + "x" && q == "/" + "b" + "/" + "y" && r == "/" + "c" + "/" + "y"
    ensures AnswerPattern([p, q], r) == Some(q)
    ensures !Matches(Segments(q), Segments(r))
  {
    TwoSegments(p, ":a", "x");
    TwoSegments(q, "b", "y");
    TwoSegments(r, "c", "y");
    AbsorbedLiteralAnswersAll(p, q, ":a", "x", "b", "y", "c");
  }
}
