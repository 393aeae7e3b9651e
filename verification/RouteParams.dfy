// Parameters extracted from a matched request, and what they determine.
module RouteParams {
  import opened Text
  import opened RoutePattern

  // A wildcard with a name binds that name.
  predicate Named(part: string) { Wild(part) && |part| > 1 }

  function Value(parts: seq<string>, req: seq<string>, i: nat): string
    requires i < |parts| && i < |req|
  {
    if Star(parts[i]) then Join(req[i..], "/") else req[i]
  }

  // The bindings of the first k parts; later parts override earlier ones.
  function Params(parts: seq<string>, req: seq<string>, k: nat): map<string, string>
    requires k <= |parts| && k <= |req|
  {
    if k == 0 then map[]
    else
      var before := Params(parts, req, k - 1);
      if Named(parts[k - 1]) then before[parts[k - 1][1..] := Value(parts, req, k - 1)] else before
  }

  // The pattern with each named wildcard replaced by its binding.
  function Substitute(parts: seq<string>, params: map<string, string>): (r: seq<string>)
    ensures |r| == |parts|
    ensures forall i :: 0 <= i < |parts| ==>
      r[i] == if Named(parts[i]) && parts[i][1..] in params then params[parts[i][1..]] else parts[i]
  {
    seq(|parts|, i requires 0 <= i < |parts| =>
      if Named(parts[i]) && parts[i][1..] in params then params[parts[i][1..]] else parts[i])
  }

  // Every wildcard has a name and no two have the same.
  predicate DistinctNames(parts: seq<string>)
  {
    && (forall i :: 0 <= i < |parts| && Wild(parts[i]) ==> Named(parts[i]))
    && (forall i, j :: 0 <= i < j < |parts| && Wild(parts[i]) && Wild(parts[j]) ==> parts[i][1..] != parts[j][1..])
  }

  // Substituting the extracted parameters and splitting again gives the request.
  predicate RoundTrips(parts: seq<string>, req: seq<string>)
    requires |parts| <= |req|
  {
    Segments(Join(Substitute(parts, Params(parts, req, |parts|)), "/")) == req
  }

  // The binding of a name is the value of the last part that has it.
  lemma {:induction false} ParamIsLastValue(parts: seq<string>, req: seq<string>, k: nat, i: nat)
    requires i < k <= |parts| && k <= |req| && Named(parts[i])
    requires forall j :: i < j < k && Named(parts[j]) ==> parts[j][1..] != parts[i][1..]
    ensures parts[i][1..] in Params(parts, req, k)
    ensures Params(parts, req, k)[parts[i][1..]] == Value(parts, req, i)
  {
    if i < k - 1 {
      ParamIsLastValue(parts, req, k - 1, i);
    }
  }

  // Nothing is bound but the names of the named wildcards.
  lemma {:induction false} ParamKeysAreNames(parts: seq<string>, req: seq<string>, k: nat, name: string)
    requires k <= |parts| && k <= |req|
    ensures name in Params(parts, req, k) <==>
      exists i :: 0 <= i < k && Wild(parts[i]) && |parts[i]| > 1 && parts[i][1..] == name
  {
    if k > 0 { ParamKeysAreNames(parts, req, k - 1, name); }
  }

  // Joining a tail first does not change the whole.
  lemma {:induction false} JoinTail(parts: seq<string>, k: nat)
    requires k < |parts|
    ensures Join(parts[..k] + [Join(parts[k..], "/")], "/") == Join(parts, "/")
  {
    var folded := parts[..k] + [Join(parts[k..], "/")];
    if k > 0 {
      JoinTail(parts[1..], k - 1);
      assert parts[1..][..k - 1] == parts[..k][1..];
      assert parts[1..][k - 1..] == parts[k..];
      assert folded[1..] == parts[1..][..k - 1] + [Join(parts[1..][k - 1..], "/")];
    } else {
      assert parts[0..] == parts;
    }
  }

  lemma SubstitutedValue(parts: seq<string>, req: seq<string>, i: nat)
    requires IsSegments(parts) && |parts| <= |req| && Matches(parts, req)
    requires DistinctNames(parts) && i < |parts|
    ensures Substitute(parts, Params(parts, req, |parts|))[i] == if Star(parts[i]) then Join(req[i..], "/") else req[i]
  {
    if Wild(parts[i]) {
      ParamIsLastValue(parts, req, |parts|, i);
    } else {
      MatchesIndexed(parts, req);
    }
  }

  lemma MatchLengths(parts: seq<string>, req: seq<string>)
    requires IsSegments(parts) && Matches(parts, req)
    ensures |parts| == |req| || (|parts| < |req| && parts != [] && Star(parts[|parts| - 1]))
  {
    MatchesIndexed(parts, req);
  }

  // The substituted pattern is the request, up to the tail that a '*' takes.
  lemma SubstitutedRequest(parts: seq<string>, req: seq<string>)
    requires IsSegments(parts) && |parts| <= |req| && Matches(parts, req)
    requires DistinctNames(parts)
    ensures var filled, n := Substitute(parts, Params(parts, req, |parts|)), |parts|;
      filled == if n > 0 && Star(parts[n - 1]) then req[..n - 1] + [Join(req[n - 1..], "/")] else req[..n]
  {
    hide Params, Substitute, Matches, DistinctNames, Join, Star, Value, Named;
    var n := |parts|;
    var filled := Substitute(parts, Params(parts, req, n));
    forall i | 0 <= i < n ensures filled[i] == if i == n - 1 && Star(parts[i]) then Join(req[i..], "/") else req[i] {
      SubstitutedValue(parts, req, i);
      assert i < n - 1 ==> !Star(parts[i]);
    }
    if n > 0 { SplitAtLast(filled); }
  }

  lemma SplitAtLast(s: seq<string>)
    requires s != []
    ensures s == s[..|s| - 1] + [s[|s| - 1]]
  {
  }

  lemma DistinctNamesRoundTrip(parts: seq<string>, req: seq<string>)
    requires IsSegments(parts) && IsSegments(req) && |parts| <= |req| && Matches(parts, req)
    requires DistinctNames(parts)
    ensures RoundTrips(parts, req)
  {
    hide Params, Substitute, Matches, IsSegments, DistinctNames, Join, Segments;
    var n := |parts|;
    SubstitutedRequest(parts, req);
    MatchLengths(parts, req);
    SegmentsOfJoin(req);
    if n > 0 && Star(parts[n - 1]) {
      JoinTail(req, n - 1);
    } else {
      assert req[..n] == req;
    }
  }

  // The pattern with a different segment for each wildcard.
  function Labelled(parts: seq<string>): (req: seq<string>)
    ensures |req| == |parts|
    ensures forall i :: 0 <= i < |parts| ==> req[i] == if Wild(parts[i]) then seq(i + 1, _ => 'a') else parts[i]
  {
    seq(|parts|, i requires 0 <= i < |parts| => if Wild(parts[i]) then seq(i + 1, _ => 'a') else parts[i])
  }

  lemma LabelledMatches(parts: seq<string>)
    requires IsSegments(parts)
    ensures IsSegments(Labelled(parts)) && Matches(parts, Labelled(parts))
  {
    var req := Labelled(parts);
    forall i | 0 <= i < |parts| ensures req[i] != "" && '/' !in req[i] && !Star(req[i]) {
      if Wild(parts[i]) {
        assert |req[i]| == i + 1 && req[i][0] == 'a';
      } else {
        assert req[i] == parts[i];
      }
    }
    MatchesIndexed(parts, req);
  }

  lemma LabelledValue(parts: seq<string>, i: nat)
    requires IsSegments(parts) && i < |parts|
    ensures Value(parts, Labelled(parts), i) == Labelled(parts)[i]
  {
    if Star(parts[i]) {
      assert i == |parts| - 1;
      assert Labelled(parts)[i..] == [Labelled(parts)[i]];
    }
  }

  // On the labelled request, whatever the names are, substitution yields
  // a list of segments, so splitting again returns that list itself.
  lemma LabelledSubstitution(parts: seq<string>)
    requires IsSegments(parts)
    ensures RoundTrips(parts, Labelled(parts)) <==>
      Substitute(parts, Params(parts, Labelled(parts), |parts|)) == Labelled(parts)
  {
    var req := Labelled(parts);
    var filled := Substitute(parts, Params(parts, req, |parts|));
    LabelledMatches(parts);
    forall i | 0 <= i < |parts| ensures filled[i] != "" && '/' !in filled[i] && (i < |parts| - 1 ==> !Star(filled[i])) {
      LabelledParam(parts, i);
    }
    SegmentsOfJoin(filled);
  }

  // j is the last part with the name of part i.
  predicate LastNamed(parts: seq<string>, i: nat, j: nat)
    requires i < |parts| && Named(parts[i])
  {
    && i <= j < |parts| && Named(parts[j]) && parts[j][1..] == parts[i][1..]
    && forall k :: j < k < |parts| && Named(parts[k]) ==> parts[k][1..] != parts[i][1..]
  }

  lemma LabelledParam(parts: seq<string>, i: nat)
    requires IsSegments(parts) && i < |parts|
    ensures var filled := Substitute(parts, Params(parts, Labelled(parts), |parts|));
      if Named(parts[i]) then exists j: nat :: LastNamed(parts, i, j) && filled[i] == Labelled(parts)[j]
      else filled[i] == parts[i]
  {
    if Named(parts[i]) {
      var j := LastWithName(parts, i, |parts|);
      assert parts[..|parts|] == parts;
      ParamIsLastValue(parts, Labelled(parts), |parts|, j);
      LabelledValue(parts, j);
    }
  }

  lemma {:induction false} LastWithName(parts: seq<string>, i: nat, n: nat) returns (j: nat)
    requires i < n <= |parts| && Named(parts[i])
    ensures LastNamed(parts[..n], i, j)
  {
    if Named(parts[n - 1]) && parts[n - 1][1..] == parts[i][1..] {
      j := n - 1;
    } else {
      j := LastWithName(parts, i, n - 1);
    }
  }

  lemma LabelledNeedsName(parts: seq<string>, i: nat)
    requires IsSegments(parts) && RoundTrips(parts, Labelled(parts))
    requires i < |parts| && Wild(parts[i])
    ensures Named(parts[i])
    ensures forall j :: i < j < |parts| && Named(parts[j]) ==> parts[i][1..] != parts[j][1..]
  {
    LabelledSubstitution(parts);
    LabelledParam(parts, i);
    assert |Labelled(parts)[i]| == i + 1 && Labelled(parts)[i][0] == 'a';
    if Named(parts[i]) {
      var j: nat :| LastNamed(parts, i, j)
        && Substitute(parts, Params(parts, Labelled(parts), |parts|))[i] == Labelled(parts)[j];
      assert |Labelled(parts)[j]| == j + 1;
    }
  }

  ghost predicate AlwaysRoundTrips(parts: seq<string>)
  {
    forall req: seq<string> :: IsSegments(req) && |parts| <= |req| && Matches(parts, req) ==> RoundTrips(parts, req)
  }

  // Parameters determine every matched request exactly when each wildcard has a
  // name of its own.
  lemma RoundTripsIffDistinctNames(parts: seq<string>)
    requires IsSegments(parts)
    ensures AlwaysRoundTrips(parts) <==> DistinctNames(parts)
  {
    if DistinctNames(parts) {
      forall req: seq<string> | IsSegments(req) && |parts| <= |req| && Matches(parts, req)
        ensures RoundTrips(parts, req)
      {
        DistinctNamesRoundTrip(parts, req);
      }
    }
    if AlwaysRoundTrips(parts) {
      LabelledMatches(parts);
      forall i | 0 <= i < |parts| && Wild(parts[i])
        ensures Named(parts[i]) && forall j :: i < j < |parts| && Named(parts[j]) ==> parts[i][1..] != parts[j][1..]
      {
        LabelledNeedsName(parts, i);
      }
    }
  }
}
