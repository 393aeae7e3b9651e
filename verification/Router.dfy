// The router: one tree per HTTP method and one table of handlers, both updated
// by registration and read by dispatch.
module Router {
  import opened Wrappers
  import opened Text
  import opened RoutePattern
  import opened RouteParams
  import opened RouteRuns
  import opened RouteTheorem
  import T = RouteTrie
  import N = RouteNode

  // Handlers are told apart by a number; what they do is not modelled here.
  datatype Handler = Handler(id: nat)

  datatype Registration = Registration(verb: string, pattern: string, handler: Handler)

  // The patterns registered for one method, in order.
  function PatternsOf(log: seq<Registration>, verb: string): seq<string>
  {
    if log == [] then []
    else
      var last := log[|log| - 1];
      PatternsOf(log[..|log| - 1], verb) + if last.verb == verb then [last.pattern] else []
  }

  function Key(verb: string, pattern: string): string
  {
    verb + "-" + pattern
  }

  function Handlers(log: seq<Registration>): map<string, Handler>
  {
    if log == [] then map[]
    else
      var last := log[|log| - 1];
      Handlers(log[..|log| - 1])[Key(last.verb, last.pattern) := last.handler]
  }

  predicate DashFree(log: seq<Registration>)
  {
    forall i :: 0 <= i < |log| ==> '-' !in log[i].verb
  }

  // i is the last registration of this method and pattern.
  predicate LatestFor(log: seq<Registration>, verb: string, pattern: string, i: nat)
  {
    && i < |log| && log[i].verb == verb && log[i].pattern == pattern
    && forall j :: i < j < |log| ==> log[j].verb != verb || log[j].pattern != pattern
  }

  // ---------- The handler table ----------

  function BeforeDash(key: string): nat
  {
    if key == "" || key[0] == '-' then 0 else 1 + BeforeDash(key[1..])
  }

  lemma {:induction false} VerbEndsAtDash(verb: string, pattern: string)
    requires '-' !in verb
    ensures BeforeDash(Key(verb, pattern)) == |verb|
  {
    if verb != "" {
      VerbEndsAtDash(verb[1..], pattern);
      assert Key(verb, pattern)[1..] == Key(verb[1..], pattern);
    }
  }

  lemma KeysOfDashFreeVerbs(v: string, p: string, w: string, q: string)
    requires '-' !in v && '-' !in w && Key(v, p) == Key(w, q)
    ensures v == w && p == q
  {
    VerbEndsAtDash(v, p);
    VerbEndsAtDash(w, q);
    assert v == Key(v, p)[..|v|] && w == Key(w, q)[..|w|];
    assert p == Key(v, p)[|v| + 1..] && q == Key(w, q)[|w| + 1..];
  }

  // w is v with a dash and more, which p has in front of q.
  predicate DashedInto(v: string, p: string, w: string, q: string)
  {
    |v| < |w| && w[..|v|] == v && w[|v|] == '-' && p == w[|v| + 1..] + "-" + q
  }

  lemma KeyOfLonger(v: string, p: string, w: string, q: string)
    requires |v| < |w|
    ensures Key(v, p) == Key(w, q) <==> DashedInto(v, p, w, q)
  {
    var k, l := Key(v, p), Key(w, q);
    if k == l {
      assert v == k[..|v|] == l[..|v|] == w[..|v|];
      assert w[|v|] == l[|v|] == k[|v|] == '-';
      assert p == k[|v| + 1..] && l[|v| + 1..] == w[|v| + 1..] + "-" + q;
    }
    if DashedInto(v, p, w, q) {
      assert w == v + "-" + w[|v| + 1..];
    }
  }

  // Two registrations share a key exactly if they have the same method and
  // pattern, or one method is the other's with a dash and the beginning of the
  // other's pattern.
  lemma DashedVerbsCollide(v: string, p: string, w: string, q: string)
    ensures Key(v, p) == Key(w, q) <==> (v == w && p == q) || DashedInto(v, p, w, q) || DashedInto(w, q, v, p)
  {
    if |v| < |w| {
      KeyOfLonger(v, p, w, q);
    } else if |w| < |v| {
      KeyOfLonger(w, q, v, p);
    } else {
      assert Key(v, p)[..|v|] == v && Key(w, q)[..|w|] == w;
      assert Key(v, p)[|v| + 1..] == p && Key(w, q)[|w| + 1..] == q;
    }
  }

  lemma {:induction false} RegisteredPatterns(log: seq<Registration>, verb: string, pattern: string)
    ensures pattern in PatternsOf(log, verb) <==> exists i :: 0 <= i < |log| && log[i].verb == verb && log[i].pattern == pattern
  {
    if log != [] {
      var n := |log| - 1;
      RegisteredPatterns(log[..n], verb, pattern);
      assert forall i :: 0 <= i < n ==> log[..n][i] == log[i];
      if pattern in PatternsOf(log[..n], verb) {
        var i :| 0 <= i < n && log[..n][i].verb == verb && log[..n][i].pattern == pattern;
        assert log[i].verb == verb;
      }
    }
  }

  // With dash-free method names the table holds, for every registered method and
  // pattern, the handler registered last for them.
  lemma {:induction false} HandlerIsLatest(log: seq<Registration>, verb: string, pattern: string)
    requires DashFree(log) && '-' !in verb
    requires pattern in PatternsOf(log, verb)
    ensures Key(verb, pattern) in Handlers(log)
    ensures exists i: nat :: LatestFor(log, verb, pattern, i) && Handlers(log)[Key(verb, pattern)] == log[i].handler
  {
    var n := |log| - 1;
    var last := log[n];
    if last.verb == verb && last.pattern == pattern {
      assert LatestFor(log, verb, pattern, n);
    } else {
      HandlerIsLatest(log[..n], verb, pattern);
      var i: nat :| LatestFor(log[..n], verb, pattern, i)
        && Handlers(log[..n])[Key(verb, pattern)] == log[..n][i].handler;
      if Key(last.verb, last.pattern) == Key(verb, pattern) {
        KeysOfDashFreeVerbs(last.verb, last.pattern, verb, pattern);
      }
      assert LatestFor(log, verb, pattern, i);
    }
  }

  // The parameters of an answer determine the request that led to it.
  lemma RequestIsRecovered(regs: seq<string>, path: string)
    requires NonEmptyPatterns(regs) && TameRun(regs) && Route(regs, path).Some?
    requires DistinctNames(Segments(Route(regs, path).value.pattern))
    ensures |Segments(Route(regs, path).value.pattern)| <= |Segments(path)|
    ensures RoundTrips(Segments(Route(regs, path).value.pattern), Segments(path))
  {
    var pattern := Route(regs, path).value.pattern;
    TameIsCorrect(regs, Segments(path));
    T.SearchFindsFirst(Build(regs), Segments(path));
    AnswerFitsRequest(regs, Segments(path));
    SegmentsWellFormed(pattern);
    SegmentsWellFormed(path);
    DistinctNamesRoundTrip(Segments(pattern), Segments(path));
  }

  // ---------- The object ----------

  method ParsePatterns(pattern: string) returns (res: seq<string>)
    ensures res == Segments(pattern)
  {
    var parts := Split(pattern, '/');
    res := [];
    var i := 0;
    while i < |parts|
      invariant 0 <= i <= |parts|
      invariant Segments(pattern) == res + ThroughStar(NonEmpty(parts[i..]))
    {
      var part := parts[i];
      assert parts[i..][0] == part && parts[i..][1..] == parts[i + 1..];
      i := i + 1;
      if part == "" {
        continue;
      }
      assert NonEmpty(parts[i - 1..])[1..] == NonEmpty(parts[i..]);
      res := res + [part];
      if part[0] == '*' {
        break;
      }
    }
  }

  method ExtractParams(parts: seq<string>, searchParts: seq<string>) returns (params: map<string, string>)
    requires |parts| <= |searchParts|
    requires forall i :: 0 <= i < |parts| ==> parts[i] != ""
    ensures params == Params(parts, searchParts, |parts|)
  {
    params := map[];
    var index := 0;
    while index < |parts|
      invariant 0 <= index <= |parts|
      invariant params == Params(parts, searchParts, index)
    {
      var part := parts[index];
      if part[0] == ':' && |part| > 1 {
        params := params[part[1..] := searchParts[index]];
      }
      if part[0] == '*' && |part| > 1 {
        params := params[part[1..] := Join(searchParts[index..], "/")];
      }
      index := index + 1;
    }
  }

  lemma HandlersAfterRegistration(log: seq<Registration>, r: Registration)
    ensures Handlers(log + [r]) == Handlers(log)[Key(r.verb, r.pattern) := r.handler]
  {
    assert (log + [r])[..|log|] == log;
  }

  // What one more registration does to the tree of each method.
  lemma BuildAfterRegistration(log: seq<Registration>, r: Registration, verb: string)
    ensures Build(PatternsOf(log + [r], verb)) ==
      if verb == r.verb then T.Insert(Build(PatternsOf(log, verb)), r.pattern, Segments(r.pattern))
      else Build(PatternsOf(log, verb))
  {
    assert (log + [r])[..|log|] == log;
    if verb == r.verb {
      BuildSnoc(PatternsOf(log, verb), r.pattern);
    } else {
      assert PatternsOf(log + [r], verb) == PatternsOf(log, verb);
    }
  }

  lemma TreesAfterRegistration(log: seq<Registration>, r: Registration)
    ensures forall v ::
      Build(PatternsOf(log + [r], v)) ==
      if v == r.verb then T.Insert(Build(PatternsOf(log, v)), r.pattern, Segments(r.pattern))
      else Build(PatternsOf(log, v))
  {
    forall v ensures Build(PatternsOf(log + [r], v)) ==
      if v == r.verb then T.Insert(Build(PatternsOf(log, v)), r.pattern, Segments(r.pattern))
      else Build(PatternsOf(log, v))
    {
      BuildAfterRegistration(log, r, v);
    }
  }

  lemma BuildSnoc(regs: seq<string>, pattern: string)
    ensures Build(regs + [pattern]) == T.Insert(Build(regs), pattern, Segments(pattern))
  {
    assert (regs + [pattern])[..|regs|] == regs;
  }

  class Router {
    var root: map<string, N.Node>
    var handlers: map<string, Handler>

    ghost var log: seq<Registration>
    ghost var Repr: set<N.Node>

    // The trees are disjoint.
    ghost predicate Owned()
      reads `root, `Repr, Repr
    {
      && (forall v :: v in root ==> root[v] in Repr && root[v].Repr <= Repr && root[v].Valid())
      && (forall v, w :: v in root && w in root && v != w ==> root[v].Repr !! root[w].Repr)
    }

    // The value of a method's tree; empty if it has none.
    ghost function Tree(verb: string): T.Tree
      requires Owned()
      reads `root, `Repr, Repr
    {
      if verb in root then root[verb].tree else T.ROOT
    }

    // The trees and the handlers are those of the registrations.
    ghost predicate Valid()
      reads this, Repr
    {
      && Owned()
      && (forall v :: Tree(v) == Build(PatternsOf(log, v)))
      && handlers == Handlers(log)
    }

    constructor ()
      ensures Valid() && log == []
    {
      root := map[];
      handlers := map[];
      log := [];
      Repr := {};
    }

    method EnsureRoot(verb: string)
      requires Owned()
      modifies `root, `Repr
      ensures Owned() && fresh(Repr - old(Repr)) && verb in root
      ensures forall v :: Tree(v) == old(Tree(v))
    {
      hide N.Node.Valid;
      if verb !in root {
        var n := new N.Node("");
        root := root[verb := n];
        Repr := Repr + n.Repr;
      }
    }

    method InsertInto(verb: string, pattern: string, segments: seq<string>)
      requires Owned() && verb in root
      modifies Repr, `Repr
      ensures Owned() && fresh(Repr - old(Repr))
      ensures forall v :: Tree(v) == if v == verb then T.Insert(old(Tree(v)), pattern, segments) else old(Tree(v))
    {
      hide N.Node.Valid, T.Insert;
      var n := root[verb];
      assert segments[0..] == segments;
      assert forall v :: v in root && v != verb ==> root[v].Repr !! n.Repr;
      n.Insert(pattern, segments, 0);
      Repr := Repr + n.Repr;
    }

    // The in-place part of registration.
    method InsertPattern(verb: string, pattern: string)
      requires Owned()
      modifies `root, `Repr, Repr
      ensures Owned() && fresh(Repr - old(Repr))
      ensures forall v ::
        Tree(v) == if v == verb then T.Insert(old(Tree(v)), pattern, Segments(pattern)) else old(Tree(v))
    {
      var segments := ParsePatterns(pattern);
      EnsureRoot(verb);
      InsertInto(verb, pattern, segments);
    }

    method AddRoute(verb: string, pattern: string, handler: Handler)
      requires Valid()
      modifies this, Repr
      ensures Valid() && fresh(Repr - old(Repr))
      ensures log == old(log) + [Registration(verb, pattern, handler)]
    {
      InsertPattern(verb, pattern);
      handlers := handlers[Key(verb, pattern) := handler];
      ghost var r := Registration(verb, pattern, handler);
      HandlersAfterRegistration(log, r);
      TreesAfterRegistration(log, r);
      log := log + [r];
    }

    // The node that answers a request and the parameters its pattern binds.
    method GetRoute(verb: string, path: string) returns (n: N.Node?, params: map<string, string>)
      requires Valid()
      ensures match Route(PatternsOf(log, verb), path)
        case None => n == null
        case Some(h) =>
          && n != null && n.pattern == h.pattern
          && verb in root && T.HasNode(root[verb].tree, h.path) && n == root[verb].Descendant(h.path)
          && |Segments(h.pattern)| <= |Segments(path)|
          && params == Params(Segments(h.pattern), Segments(path), |Segments(h.pattern)|)
    {
      var searchParts := ParsePatterns(path);
      params := map[];
      if verb !in root {
        assert Build([]) == T.ROOT && T.Search(T.ROOT, searchParts) == None;
        return null, map[];
      }
      ghost var regs := PatternsOf(log, verb);
      assert searchParts[0..] == searchParts;
      n := root[verb].Search(searchParts, 0);
      if n == null {
        return null, map[];
      }
      AnswerFitsRequest(regs, searchParts);
      SegmentsWellFormed(n.pattern);
      var parts := ParsePatterns(n.pattern);
      params := ExtractParams(parts, searchParts);
    }

    // The handler that dispatch appends: the one registered last for the answer's
    // method and pattern, or none (not found) when nothing answers.
    method HandlerFor(verb: string, path: string) returns (handler: Option<Handler>)
      requires Valid() && DashFree(log)
      ensures match Route(PatternsOf(log, verb), path)
        case None => handler == None
        case Some(h) => exists i: nat :: LatestFor(log, verb, h.pattern, i) && handler == Some(log[i].handler)
    {
      var n, params := GetRoute(verb, path);
      if n == null {
        return None;
      }
      AnswerFitsRequest(PatternsOf(log, verb), Segments(path));
      RegisteredPatterns(log, verb, n.pattern);
      HandlerIsLatest(log, verb, n.pattern);
      var key := Key(verb, n.pattern);
      handler := Some(handlers[key]);
    }
  }
}
