// What a route pattern is, and what it means for it to match a request.
// Both patterns and request paths are cut into segments by the same function.
module RoutePattern {
  import opened Text

  predicate Param(part: string) { part != "" && part[0] == ':' }
  predicate Star(part: string) { part != "" && part[0] == '*' }
  predicate Wild(part: string) { Param(part) || Star(part) }

  function NonEmpty(parts: seq<string>): seq<string>
  {
    if parts == [] then []
    else if parts[0] == "" then NonEmpty(parts[1..])
    else [parts[0]] + NonEmpty(parts[1..])
  }

  function ThroughStar(parts: seq<string>): seq<string>
  {
    if parts == [] then []
    else if Star(parts[0]) then [parts[0]]
    else [parts[0]] + ThroughStar(parts[1..])
  }

  // The segments of a pattern or of a request path (parsePatterns).
  function Segments(path: string): seq<string>
  {
    ThroughStar(NonEmpty(Split(path, '/')))
  }

  // The lists that Segments can produce.
  predicate IsSegments(parts: seq<string>)
  {
    && (forall i :: 0 <= i < |parts| ==> parts[i] != "" && '/' !in parts[i])
    && (forall i :: 0 <= i < |parts| - 1 ==> !Star(parts[i]))
  }

  lemma {:induction false} FilterKeeps(parts: seq<string>, n: nat)
    requires forall p :: p in parts ==> '/' !in p && |p| <= n
    ensures IsSegments(ThroughStar(NonEmpty(parts)))
    ensures forall p :: p in ThroughStar(NonEmpty(parts)) ==> |p| <= n
  {
    if parts != [] {
      FilterKeeps(parts[1..], n);
      var rest := ThroughStar(NonEmpty(parts[1..]));
      var all := ThroughStar(NonEmpty(parts));
      if parts[0] != "" {
        assert NonEmpty(parts)[1..] == NonEmpty(parts[1..]);
        if !Star(parts[0]) {
          assert all == [parts[0]] + rest;
        }
      }
    }
  }

  // Segments are non-empty and slash-free, and a '*' segment can only be the last.
  lemma SegmentsWellFormed(path: string)
    ensures IsSegments(Segments(path))
    ensures forall p :: p in Segments(path) ==> |p| <= |path|
  {
    SplitPartsHaveNoSeparator(path, '/');
    SplitPartsAreShort(path, '/');
    FilterKeeps(Split(path, '/'), |path|);
  }

  lemma {:induction false} FilterIsIdentity(parts: seq<string>)
    requires IsSegments(parts)
    ensures NonEmpty(parts) == parts && ThroughStar(parts) == parts
  {
    if parts != [] {
      FilterIsIdentity(parts[1..]);
      assert parts == [parts[0]] + parts[1..];
    }
  }

  // Every well-formed list of segments is the list of some path: the two are in
  // correspondence through '/'-joining.
  lemma SegmentsOfJoin(parts: seq<string>)
    requires IsSegments(parts)
    ensures Segments(Join(parts, "/")) == parts
  {
    if parts == [] {
      assert Split("", '/') == [""];
    } else {
      SplitJoin(parts, '/');
      FilterIsIdentity(parts);
    }
  }

  lemma SegmentsOfAbsolute(parts: seq<string>)
    requires IsSegments(parts)
    ensures Segments("/" + Join(parts, "/")) == parts
  {
    SegmentsOfJoin(parts);
    SplitFirst("", '/', Join(parts, "/"));
    assert "" + ['/'] + Join(parts, "/") == "/" + Join(parts, "/");
  }

  lemma {:induction false} NonEmptyFirst(p: string, rest: seq<string>)
    ensures NonEmpty([p] + rest) == (if p == "" then [] else [p]) + NonEmpty(rest)
  {
    assert ([p] + rest)[1..] == rest;
  }

  // Parsing in general: an empty piece is skipped, a piece that begins with a star
  // ends the list, any other piece is a segment. These two cases cover every path.
  lemma SegmentsOfPiece(p: string)
    requires '/' !in p
    ensures Segments(p) == if p == "" then [] else [p]
  {
    SplitOne(p, '/');
    assert [p][1..] == [];
    assert [p] + [] == [p];
    assert NonEmpty([p]) == if p == "" then [] else [p];
    assert ThroughStar([p]) == [p];
  }

  lemma SegmentsOfPieces(p: string, b: string)
    requires '/' !in p
    ensures Segments(p + "/" + b) ==
      if p == "" then Segments(b) else if Star(p) then [p] else [p] + Segments(b)
  {
    assert p + "/" + b == p + ['/'] + b;
    SplitFirst(p, '/', b);
    NonEmptyFirst(p, Split(b, '/'));
    var rest := NonEmpty(Split(b, '/'));
    if p == "" {
      assert [] + rest == rest;
    } else {
      assert ([p] + rest)[1..] == rest;
    }
  }

  // A pattern's segments match a request's segments: literals are equal, ':x'
  // takes exactly one segment, '*x' takes one or more.
  predicate Matches(parts: seq<string>, req: seq<string>)
  {
    if parts == [] then req == []
    else
      && req != []
      && if Star(parts[0]) then true
         else (parts[0] == req[0] || Param(parts[0])) && Matches(parts[1..], req[1..])
  }

  // Equal up to the names of wildcards.
  predicate SameKind(a: string, b: string)
  {
    a == b || (Param(a) && Param(b)) || (Star(a) && Star(b))
  }

  predicate SameShape(a: seq<string>, b: seq<string>)
  {
    |a| == |b| && forall i :: 0 <= i < |a| ==> SameKind(a[i], b[i])
  }

  lemma SameShapeTail(a: seq<string>, b: seq<string>)
    requires SameShape(a, b) && a != []
    ensures SameKind(a[0], b[0]) && SameShape(a[1..], b[1..])
  {
    forall i | 0 <= i < |a| - 1 ensures SameKind(a[1..][i], b[1..][i]) {
      assert SameKind(a[i + 1], b[i + 1]);
    }
  }

  // Patterns of one shape match the same requests.
  lemma {:induction false} SameShapeMatches(a: seq<string>, b: seq<string>, req: seq<string>)
    requires SameShape(a, b)
    ensures Matches(a, req) == Matches(b, req)
  {
    if a != [] {
      SameShapeTail(a, b);
      if req != [] && !Star(a[0]) {
        SameShapeMatches(a[1..], b[1..], req[1..]);
      }
    }
  }

  predicate MoreSpecificAt(a: seq<string>, b: seq<string>, k: nat)
  {
    && k < |a| && k < |b|
    && (forall i :: 0 <= i < k ==> SameKind(a[i], b[i]))
    && !Wild(a[k]) && Wild(b[k])
  }

  // a has a literal where b has a wildcard, at the first place they differ.
  ghost predicate MoreSpecific(a: seq<string>, b: seq<string>)
  {
    exists k: nat :: MoreSpecificAt(a, b, k)
  }

  lemma MoreSpecificIsStrict(a: seq<string>, b: seq<string>)
    requires MoreSpecific(a, b)
    ensures !SameShape(a, b) && !MoreSpecific(b, a)
  {
    var k: nat :| MoreSpecificAt(a, b, k);
    forall j: nat ensures !MoreSpecificAt(b, a, j) {
    }
  }

  lemma {:induction false} MatchesIndexed(parts: seq<string>, req: seq<string>)
    requires IsSegments(parts)
    ensures Matches(parts, req) <==>
      && |parts| <= |req|
      && (|parts| < |req| ==> parts != [] && Star(parts[|parts| - 1]))
      && (forall i :: 0 <= i < |parts| ==> parts[i] == req[i] || Wild(parts[i]))
  {
    if parts != [] && req != [] && !Star(parts[0]) {
      MatchesIndexed(parts[1..], req[1..]);
      assert forall i :: 0 < i < |parts| && i < |req| ==> parts[i] == parts[1..][i - 1] && req[i] == req[1..][i - 1];
      if |parts| > 1 { assert parts[1..][|parts| - 2] == parts[|parts| - 1]; }
      if Matches(parts, req) {
        forall i | 0 <= i < |parts| ensures parts[i] == req[i] || Wild(parts[i]) {
          if i > 0 { assert parts[1..][i - 1] == req[1..][i - 1] || Wild(parts[1..][i - 1]); }
        }
      }
    }
  }
}
