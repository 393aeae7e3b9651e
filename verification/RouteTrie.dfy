// The prefix tree of one HTTP method, as a value: insertion follows the first
// child that is equal or wild, search tries every such child in order.
module RouteTrie {
  import opened Wrappers
  import opened RoutePattern

  datatype Tree = Tree(pattern: string, part: string, children: seq<Tree>)

  // A search result: where the node is (child indices from the root) and its pattern.
  datatype Hit = Hit(path: seq<nat>, pattern: string)

  const ROOT := Tree("", "", [])

  predicate Accepts(child: Tree, part: string)
  {
    child.part == part || Wild(child.part)
  }

  // Index of the first accepting child, or the number of children (matchChild).
  function FirstMatch(cs: seq<Tree>, part: string): (i: nat)
    ensures i <= |cs|
    ensures i < |cs| ==> Accepts(cs[i], part)
    ensures forall j :: 0 <= j < i ==> !Accepts(cs[j], part)
  {
    if cs == [] || Accepts(cs[0], part) then 0 else 1 + FirstMatch(cs[1..], part)
  }

  lemma FirstMatchIs(cs: seq<Tree>, part: string, k: nat)
    requires k < |cs| && Accepts(cs[k], part)
    requires forall j :: 0 <= j < k ==> !Accepts(cs[j], part)
    ensures FirstMatch(cs, part) == k
  {
  }

  function Insert(t: Tree, pattern: string, parts: seq<string>): (r: Tree)
    ensures r.part == t.part
    decreases |parts|
  {
    if parts == [] then t.(pattern := pattern)
    else
      var i := FirstMatch(t.children, parts[0]);
      if i == |t.children| then
        t.(children := t.children + [Insert(Tree("", parts[0], []), pattern, parts[1..])])
      else
        t.(children := t.children[i := Insert(t.children[i], pattern, parts[1..])])
  }

  function Search(t: Tree, req: seq<string>): Option<Hit>
    decreases |req|, |t.children| + 1
  {
    if req == [] || Star(t.part) then
      if t.pattern == "" then None else Some(Hit([], t.pattern))
    else
      SearchFrom(t.children, 0, req)
  }

  function SearchFrom(cs: seq<Tree>, i: nat, req: seq<string>): Option<Hit>
    requires i <= |cs| && req != []
    decreases |req|, |cs| - i
  {
    if i == |cs| then None
    else if !Accepts(cs[i], req[0]) then SearchFrom(cs, i + 1, req)
    else match Search(cs[i], req[1..])
      case Some(h) => Some(Hit([i] + h.path, h.pattern))
      case None => SearchFrom(cs, i + 1, req)
  }

  // ---------- Nodes addressed by path ----------

  predicate HasNode(t: Tree, path: seq<nat>)
    decreases |path|
  {
    path == [] || (path[0] < |t.children| && HasNode(t.children[path[0]], path[1..]))
  }

  function NodeAt(t: Tree, path: seq<nat>): Tree
    requires HasNode(t, path)
    decreases |path|
  {
    if path == [] then t else NodeAt(t.children[path[0]], path[1..])
  }

  // The pattern stored at a path; "" when there is none.
  function PatternAt(t: Tree, path: seq<nat>): string
  {
    if HasNode(t, path) then NodeAt(t, path).pattern else ""
  }

  // The parts on the way from the root (exclusive) to the node at a path.
  function Labels(t: Tree, path: seq<nat>): (ls: seq<string>)
    requires HasNode(t, path)
    ensures |ls| == |path|
    decreases |path|
  {
    if path == [] then []
    else [t.children[path[0]].part] + Labels(t.children[path[0]], path[1..])
  }

  // Where inserting parts would end, if all nodes on the way exist already.
  function Place(t: Tree, parts: seq<string>): (r: Option<seq<nat>>)
    ensures r.Some? ==> HasNode(t, r.value) && |r.value| == |parts|
    decreases |parts|
  {
    if parts == [] then Some([])
    else
      var i := FirstMatch(t.children, parts[0]);
      if i == |t.children| then None
      else match Place(t.children[i], parts[1..])
        case None => None
        case Some(p) => Some([i] + p)
  }

  // A whole request may be walked along a path, ending where search would stop.
  predicate Walks(t: Tree, path: seq<nat>, req: seq<string>)
    decreases |path|
  {
    if path == [] then req == [] || Star(t.part)
    else
      && req != [] && !Star(t.part)
      && path[0] < |t.children|
      && Accepts(t.children[path[0]], req[0])
      && Walks(t.children[path[0]], path[1..], req[1..])
  }

  // Depth-first order on paths.
  predicate Before(p: seq<nat>, q: seq<nat>)
  {
    p == [] || (q != [] && (p[0] < q[0] || (p[0] == q[0] && Before(p[1..], q[1..]))))
  }

  lemma {:induction false} BeforeAntisymmetric(p: seq<nat>, q: seq<nat>)
    requires Before(p, q) && Before(q, p)
    ensures p == q
  {
    if p != [] {
      BeforeAntisymmetric(p[1..], q[1..]);
      assert p == [p[0]] + p[1..] && q == [q[0]] + q[1..];
    }
  }

  lemma {:induction false} WalksHasNode(t: Tree, path: seq<nat>, req: seq<string>)
    requires Walks(t, path, req)
    ensures HasNode(t, path)
    decreases |path|
  {
    if path != [] {
      WalksHasNode(t.children[path[0]], path[1..], req[1..]);
    }
  }

  // ---------- What search computes ----------

  ghost predicate Answers(t: Tree, req: seq<string>, path: seq<nat>)
  {
    Walks(t, path, req) && PatternAt(t, path) != ""
  }

  ghost predicate IsFirstAnswer(t: Tree, req: seq<string>, r: Option<Hit>)
  {
    match r
    case None => forall q :: !Answers(t, req, q)
    case Some(h) =>
      && Answers(t, req, h.path) && h.pattern == PatternAt(t, h.path)
      && forall q :: Answers(t, req, q) ==> Before(h.path, q)
  }

  // Search returns the first path, in depth-first order, that the request can
  // walk and that carries a pattern; nothing exactly when there is no such path.
  lemma {:induction false} SearchFindsFirst(t: Tree, req: seq<string>)
    ensures IsFirstAnswer(t, req, Search(t, req))
    decreases |req|, |t.children| + 1
  {
    if req == [] || Star(t.part) {
      assert forall q :: Walks(t, q, req) ==> q == [];
      assert HasNode(t, []) && NodeAt(t, []) == t;
    } else {
      SearchFromFindsFirst(t, 0, req);
      forall q | Answers(t, req, q) ensures q != [] && q[0] >= 0 {
      }
    }
  }

  lemma AnswersStep(t: Tree, req: seq<string>, q: seq<nat>)
    requires req != [] && !Star(t.part)
    ensures Answers(t, req, q) <==>
      q != [] && q[0] < |t.children| && Accepts(t.children[q[0]], req[0]) && Answers(t.children[q[0]], req[1..], q[1..])
  {
  }

  lemma {:induction false} SearchFromFindsFirst(t: Tree, i: nat, req: seq<string>)
    requires i <= |t.children| && req != [] && !Star(t.part)
    ensures match SearchFrom(t.children, i, req)
      case None => forall q :: Answers(t, req, q) ==> q != [] && q[0] < i
      case Some(h) =>
        && h.path != [] && h.path[0] >= i
        && Answers(t, req, h.path) && h.pattern == PatternAt(t, h.path)
        && forall q :: Answers(t, req, q) && q != [] && q[0] >= i ==> Before(h.path, q)
    decreases |req|, |t.children| - i
  {
    forall q ensures Answers(t, req, q) <==>
      q != [] && q[0] < |t.children| && Accepts(t.children[q[0]], req[0]) && Answers(t.children[q[0]], req[1..], q[1..])
    {
      AnswersStep(t, req, q);
    }
    if i < |t.children| {
      SearchFromFindsFirst(t, i + 1, req);
      if Accepts(t.children[i], req[0]) {
        SearchFindsFirst(t.children[i], req[1..]);
        var sub := Search(t.children[i], req[1..]);
        if sub.Some? {
          var path := [i] + sub.value.path;
          assert path[1..] == sub.value.path;
        }
      }
    }
  }

  // ---------- What insertion changes ----------

  // After inserting parts their place exists and holds the pattern; every other
  // path, old or new, holds what it held before ("" for new ones).
  lemma {:induction false} InsertPatterns(t: Tree, pattern: string, parts: seq<string>, path: seq<nat>)
    ensures var u := Insert(t, pattern, parts);
      && Place(u, parts).Some?
      && PatternAt(u, path) == if path == Place(u, parts).value then pattern else PatternAt(t, path)
    decreases |parts|
  {
    var u := Insert(t, pattern, parts);
    if parts != [] {
      var i := FirstMatch(t.children, parts[0]);
      var was := if i < |t.children| then t.children[i] else Tree("", parts[0], []);
      InsertPatterns(was, pattern, parts[1..], if path == [] then [] else path[1..]);
      FirstMatchIs(u.children, parts[0], i);
      if path != [] && path[0] == i {
        assert path == [path[0]] + path[1..];
        assert PatternAt(u, path) == PatternAt(u.children[i], path[1..]);
        assert i == |t.children| ==> PatternAt(was, path[1..]) == "";
      }
    }
  }

  // Insertion moves nothing: old nodes keep their labels, old places stay.
  lemma {:induction false} InsertKeepsNodes(t: Tree, pattern: string, parts: seq<string>, path: seq<nat>)
    requires HasNode(t, path)
    ensures HasNode(Insert(t, pattern, parts), path)
    ensures Labels(Insert(t, pattern, parts), path) == Labels(t, path)
    decreases |parts|
  {
    if parts != [] && path != [] {
      var i := FirstMatch(t.children, parts[0]);
      if path[0] == i {
        InsertKeepsNodes(t.children[i], pattern, parts[1..], path[1..]);
      }
    }
  }

  lemma {:induction false} InsertKeepsPlaces(t: Tree, pattern: string, parts: seq<string>, qs: seq<string>)
    requires Place(t, qs).Some?
    ensures Place(Insert(t, pattern, parts), qs) == Place(t, qs)
    decreases |parts|
  {
    if parts != [] && qs != [] {
      var i := FirstMatch(t.children, parts[0]);
      var k := FirstMatch(t.children, qs[0]);
      var u := Insert(t, pattern, parts);
      FirstMatchIs(u.children, qs[0], k);
      if k == i {
        InsertKeepsPlaces(t.children[i], pattern, parts[1..], qs[1..]);
      }
    }
  }

  lemma {:induction false} InsertKeepsWalks(t: Tree, pattern: string, parts: seq<string>, path: seq<nat>, req: seq<string>)
    requires HasNode(t, path)
    ensures Walks(Insert(t, pattern, parts), path, req) == Walks(t, path, req)
    decreases |parts|
  {
    if parts != [] && path != [] && req != [] {
      var i := FirstMatch(t.children, parts[0]);
      if path[0] == i {
        InsertKeepsWalks(t.children[i], pattern, parts[1..], path[1..], req[1..]);
      }
    }
  }

  // Registering a non-empty pattern, whatever the tree, changes no answer except
  // towards that pattern and loses none.
  lemma InsertOnlyRedirectsToPattern(t: Tree, pattern: string, parts: seq<string>, req: seq<string>)
    requires pattern != ""
    ensures var before := Search(t, req); var after := Search(Insert(t, pattern, parts), req);
      && (before.Some? ==> after.Some?)
      && (after.Some? ==> after == before || after.value.pattern == pattern)
  {
    var u := Insert(t, pattern, parts);
    var before, after := Search(t, req), Search(u, req);
    SearchFindsFirst(t, req);
    SearchFindsFirst(u, req);
    if before.Some? {
      var p := before.value.path;
      InsertPatterns(t, pattern, parts, p);
      InsertKeepsWalks(t, pattern, parts, p, req);
      assert Answers(u, req, p);
    }
    if after.Some? && after.value.pattern != pattern {
      var q := after.value.path;
      InsertPatterns(t, pattern, parts, q);
      InsertKeepsWalks(t, pattern, parts, q, req);
      assert Answers(t, req, q);
      BeforeAntisymmetric(before.value.path, q);
    }
  }
}
