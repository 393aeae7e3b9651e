// The prefix tree as it is in memory: nodes that own their children, updated in
// place. Each operation is proved against the tree value of RouteTrie.
module RouteNode {
  import opened Wrappers
  import opened RoutePattern
  import T = RouteTrie

  // Indices of the accepting children, in order, from i on.
  function MatchIndices(cs: seq<T.Tree>, part: string, i: nat): (r: seq<nat>)
    requires i <= |cs|
    ensures forall k :: 0 <= k < |r| ==> r[k] < |cs|
    decreases |cs| - i
  {
    if i == |cs| then []
    else if T.Accepts(cs[i], part) then [i] + MatchIndices(cs, part, i + 1)
    else MatchIndices(cs, part, i + 1)
  }

  // Trying the listed children in order.
  function SearchListed(cs: seq<T.Tree>, listed: seq<nat>, req: seq<string>): Option<T.Hit>
    requires req != [] && forall k :: 0 <= k < |listed| ==> listed[k] < |cs|
  {
    if listed == [] then None
    else match T.Search(cs[listed[0]], req[1..])
      case Some(h) => Some(T.Hit([listed[0]] + h.path, h.pattern))
      case None => SearchListed(cs, listed[1..], req)
  }

  // Collecting the accepting children first and then trying them is the same as
  // testing each child when its turn comes.
  lemma {:induction false} SearchListedIsSearchFrom(cs: seq<T.Tree>, i: nat, req: seq<string>)
    requires i <= |cs| && req != []
    ensures SearchListed(cs, MatchIndices(cs, req[0], i), req) == T.SearchFrom(cs, i, req)
    decreases |cs| - i
  {
    if i < |cs| {
      SearchListedIsSearchFrom(cs, i + 1, req);
      if T.Accepts(cs[i], req[0]) {
        assert MatchIndices(cs, req[0], i)[1..] == MatchIndices(cs, req[0], i + 1);
      }
    }
  }

  // One level of insertion.
  lemma InsertUnfolds(t: T.Tree, pattern: string, parts: seq<string>, height: nat)
    requires height <= |parts|
    ensures T.Insert(t, pattern, parts[height..]) ==
      if height == |parts| then t.(pattern := pattern)
      else
        var i := T.FirstMatch(t.children, parts[height]);
        if i == |t.children| then
          t.(children := t.children + [T.Insert(T.Tree("", parts[height], []), pattern, parts[height + 1..])])
        else t.(children := t.children[i := T.Insert(t.children[i], pattern, parts[height + 1..])])
  {
    if height < |parts| {
      assert parts[height..][0] == parts[height] && parts[height..][1..] == parts[height + 1..];
    }
  }

  class Node {
    var pattern: string
    var part: string
    var children: seq<Node>
    var isWild: bool

    ghost var tree: T.Tree
    ghost var Repr: set<Node>

    ghost predicate Valid()
      reads this, Repr
      ensures Valid() ==> this in Repr
      decreases Repr
    {
      && this in Repr
      && tree.pattern == pattern && tree.part == part && isWild == Wild(part)
      && |tree.children| == |children|
      && (forall i :: 0 <= i < |children| ==>
           && children[i] in Repr && children[i].Repr <= Repr && this !in children[i].Repr
           && children[i].Valid() && children[i].tree == tree.children[i])
      && (forall i, j :: 0 <= i < j < |children| ==> children[i].Repr !! children[j].Repr)
    }

    constructor (part: string)
      ensures Valid() && Repr == {this}
      ensures tree == T.Tree("", part, [])
    {
      this.pattern := "";
      this.part := part;
      this.children := [];
      this.isWild := Wild(part);
      tree := T.Tree("", part, []);
      Repr := {this};
    }

    method MatchChild(part: string) returns (child: Node?)
      requires Valid()
      ensures var i := T.FirstMatch(tree.children, part);
        child == if i < |children| then children[i] else null
    {
      var k := 0;
      while k < |children|
        invariant 0 <= k <= |children|
        invariant forall j :: 0 <= j < k ==> !T.Accepts(tree.children[j], part)
      {
        if children[k].part == part || children[k].isWild {
          T.FirstMatchIs(tree.children, part, k);
          return children[k];
        }
        k := k + 1;
      }
      child := null;
    }

    method MatchChildren(part: string) returns (res: seq<Node>)
      requires Valid()
      ensures var ms := MatchIndices(tree.children, part, 0);
        |res| == |ms| && forall k :: 0 <= k < |ms| ==> res[k] == children[ms[k]]
    {
      res := [];
      ghost var ms := MatchIndices(tree.children, part, 0);
      var i := 0;
      while i < |children|
        invariant 0 <= i <= |children| && |res| <= |ms|
        invariant ms[|res|..] == MatchIndices(tree.children, part, i)
        invariant forall k :: 0 <= k < |res| ==> res[k] == children[ms[k]]
      {
        if children[i].part == part || children[i].isWild {
          assert ms[|res|..][0] == i && ms[|res|..][1..] == ms[|res| + 1..];
          res := res + [children[i]];
        }
        i := i + 1;
      }
    }

    method AppendChild(part: string) returns (child: Node)
      requires Valid()
      modifies this
      ensures Valid() && fresh(child) && Repr == old(Repr) + {child}
      ensures children == old(children) + [child]
      ensures tree == old(tree).(children := old(tree).children + [T.Tree("", part, [])])
    {
      child := new Node(part);
      children := children + [child];
      tree := tree.(children := tree.children + [child.tree]);
      Repr := Repr + child.Repr;
    }

    method Insert(pattern: string, parts: seq<string>, height: nat)
      requires Valid() && height <= |parts|
      modifies Repr
      ensures Valid() && fresh(Repr - old(Repr)) && old(Repr) <= Repr
      ensures tree == T.Insert(old(tree), pattern, parts[height..])
      ensures old(children) <= children
      decreases |parts| - height, 0
    {
      InsertUnfolds(tree, pattern, parts, height);
      hide T.Insert;
      if |parts| == height {
        this.pattern := pattern;
        tree := tree.(pattern := pattern);
        return;
      }
      var part := parts[height];
      var child := MatchChild(part);
      ghost var i := T.FirstMatch(tree.children, part);
      ghost var was := tree;
      if child == null {
        child := AppendChild(part);
        assert tree.children[i := T.Insert(tree.children[i], pattern, parts[height + 1..])]
            == was.children + [T.Insert(tree.children[i], pattern, parts[height + 1..])];
      }
      InsertBelow(i, child, pattern, parts, height + 1);
    }

    // The recursive call of Insert on child i.
    method InsertBelow(ghost i: nat, child: Node, pattern: string, parts: seq<string>, height: nat)
      requires Valid() && height <= |parts|
      requires i < |children| && children[i] == child
      modifies Repr
      ensures Valid() && fresh(Repr - old(Repr)) && old(Repr) <= Repr
      ensures children == old(children)
      ensures tree == old(tree).(children := old(tree).children[i := T.Insert(old(tree).children[i], pattern, parts[height..])])
      decreases |parts| - height, 1
    {
      hide T.Insert, Wild;
      assert forall j :: 0 <= j < |children| && j != i ==> children[j].Repr !! child.Repr;
      child.Insert(pattern, parts, height);
      assert forall j :: 0 <= j < |children| && j != i ==> children[j].Valid() && children[j].Repr == old(children[j].Repr);
      Repr := Repr + child.Repr;
      tree := tree.(children := tree.children[i := child.tree]);
    }

    // The node at a path of the tree.
    ghost function Descendant(path: seq<nat>): Node
      requires Valid() && T.HasNode(tree, path)
      reads this, Repr
      decreases |path|
    {
      if path == [] then this else children[path[0]].Descendant(path[1..])
    }

    method Search(parts: seq<string>, height: nat) returns (res: Node?)
      requires Valid() && height <= |parts|
      ensures match T.Search(tree, parts[height..])
        case None => res == null
        case Some(h) => T.HasNode(tree, h.path) && res == Descendant(h.path) && res.pattern == h.pattern
      decreases |parts| - height
    {
      if |parts| == height || Star(part) {
        return if pattern == "" then null else this;
      }
      ghost var req := parts[height..];
      assert req[0] == parts[height] && req[1..] == parts[height + 1..];
      var candidates := MatchChildren(parts[height]);
      ghost var ms := MatchIndices(tree.children, parts[height], 0);
      SearchListedIsSearchFrom(tree.children, 0, req);
      var k := 0;
      while k < |candidates|
        invariant 0 <= k <= |candidates|
        invariant T.Search(tree, req) == SearchListed(tree.children, ms[k..], req)
      {
        res := candidates[k].Search(parts, height + 1);
        if res != null {
          ghost var sub := T.Search(tree.children[ms[k]], req[1..]).value;
          ghost var path := [ms[k]] + sub.path;
          assert path[1..] == sub.path;
          return;
        }
        assert ms[k..][1..] == ms[k + 1..];
        k := k + 1;
      }
      res := null;
    }
  }
}
