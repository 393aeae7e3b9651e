// The list of servers as text: the registry joins it with commas into a header,
// the discovery client splits and trims it.
module ServerList {
  import opened Text

  // The characters strings.TrimSpace trims.
  predicate IsSpace(c: char)
  {
    || '\t' <= c <= '\r' || c == ' ' || c == '\U{85}' || c == '\U{A0}' || c == '\U{1680}'
    || '\U{2000}' <= c <= '\U{200A}' || c == '\U{2028}' || c == '\U{2029}' || c == '\U{202F}'
    || c == '\U{205F}' || c == '\U{3000}'
  }

  function TrimLeft(s: string): (r: string)
    ensures r == "" || !IsSpace(r[0])
    ensures |r| <= |s| && r == s[|s| - |r|..]
  {
    if s != "" && IsSpace(s[0]) then TrimLeft(s[1..]) else s
  }

  function TrimRight(s: string): (r: string)
    ensures r == "" || !IsSpace(r[|r| - 1])
    ensures |r| <= |s| && r == s[..|r|]
  {
    if s != "" && IsSpace(s[|s| - 1]) then TrimRight(s[..|s| - 1]) else s
  }

  function TrimSpace(s: string): string
  {
    TrimRight(TrimLeft(s))
  }

  // The parts that are not blank, trimmed.
  function Kept(parts: seq<string>): seq<string>
  {
    if parts == [] then []
    else
      var last := TrimSpace(parts[|parts| - 1]);
      Kept(parts[..|parts| - 1]) + if last != "" then [last] else []
  }

  function Parse(header: string): seq<string>
  {
    Kept(Split(header, ','))
  }

  // Addresses that survive the header.
  predicate Plain(addr: string)
  {
    addr != "" && ',' !in addr && !IsSpace(addr[0]) && !IsSpace(addr[|addr| - 1])
  }

  lemma TrimmedIsPlain(s: string)
    requires ',' !in s && TrimSpace(s) != ""
    ensures Plain(TrimSpace(s))
  {
    var l := TrimLeft(s);
    var r := TrimRight(l);
    assert forall c :: c in l ==> c in s;
    assert forall c :: c in r ==> c in l;
    assert r[0] == l[0];
  }

  lemma {:induction false} KeptIsPlain(parts: seq<string>)
    requires forall p :: p in parts ==> ',' !in p
    ensures forall p :: p in Kept(parts) ==> Plain(p)
  {
    hide Plain, TrimSpace;
    if parts != [] {
      var last := parts[|parts| - 1];
      KeptIsPlain(parts[..|parts| - 1]);
      if TrimSpace(last) != "" { TrimmedIsPlain(last); }
    }
  }

  lemma {:induction false} PlainIsKept(parts: seq<string>)
    requires forall p :: p in parts ==> Plain(p)
    ensures Kept(parts) == parts
  {
    if parts != [] {
      var last := parts[|parts| - 1];
      PlainIsKept(parts[..|parts| - 1]);
      assert Plain(last);
      assert TrimSpace(last) == last;
      assert parts == parts[..|parts| - 1] + [last];
    }
  }

  // Joining the list and parsing the header gives the list back, the empty list
  // included, exactly if every address is non-empty, free of commas and without
  // white space around it.
  lemma JoinParse(addrs: seq<string>)
    ensures Parse(Join(addrs, ",")) == addrs <==> forall a :: a in addrs ==> Plain(a)
  {
    assert addrs == [] ==> Parse(Join(addrs, ",")) == [] by {
      assert Split("", ',') == [""];
      assert Kept([""]) == Kept([]) + [];
    }
    hide Kept, Split, Join;
    if Parse(Join(addrs, ",")) == addrs {
      SplitPartsHaveNoSeparator(Join(addrs, ","), ',');
      KeptIsPlain(Split(Join(addrs, ","), ','));
    }
    if addrs != [] && forall a :: a in addrs ==> Plain(a) {
      SplitJoin(addrs, ',');
      PlainIsKept(addrs);
    }
  }

  lemma KeptNext(parts: seq<string>, i: nat)
    requires i < |parts|
    ensures Kept(parts[..i + 1]) == Kept(parts[..i]) + if TrimSpace(parts[i]) != "" then [TrimSpace(parts[i])] else []
  {
    assert parts[..i + 1][..i] == parts[..i];
  }

  // ---------- What parsing gives in general ----------

  predicate Blank(s: string)
  {
    forall i :: 0 <= i < |s| ==> IsSpace(s[i])
  }

  // What is cut off on both sides is blank, and what is left has no white space
  // around it: that determines TrimSpace.
  predicate TrimsTo(s: string, l: string, t: string, r: string)
  {
    s == l + t + r && Blank(l) && Blank(r) && (t == "" || (!IsSpace(t[0]) && !IsSpace(t[|t| - 1])))
  }

  lemma {:induction false} LeftIsBlank(s: string)
    ensures Blank(s[..|s| - |TrimLeft(s)|])
  {
    hide IsSpace;
    if s != "" && IsSpace(s[0]) {
      var k := |s| - |TrimLeft(s)|;
      LeftIsBlank(s[1..]);
      assert s[..k] == [s[0]] + s[1..][..k - 1];
    }
  }

  lemma {:induction false} RightIsBlank(s: string)
    ensures Blank(s[|TrimRight(s)|..])
  {
    if s != "" && IsSpace(s[|s| - 1]) {
      var front := s[..|s| - 1];
      RightIsBlank(front);
      assert s[|TrimRight(s)|..] == front[|TrimRight(s)|..] + [s[|s| - 1]];
    }
  }

  lemma TrimSpaceTrims(s: string)
    ensures exists l, r :: TrimsTo(s, l, TrimSpace(s), r)
  {
    hide TrimLeft, TrimRight, Blank, IsSpace;
    var left := TrimLeft(s);
    var t := TrimSpace(s);
    LeftIsBlank(s);
    RightIsBlank(left);
    var l, r := s[..|s| - |left|], left[|t|..];
    SplitTwice(s, left, t);
    assert TrimsTo(s, l, t, r);
  }

  lemma SplitTwice(s: string, left: string, t: string)
    requires |left| <= |s| && left == s[|s| - |left|..] && |t| <= |left| && t == left[..|t|]
    ensures s == s[..|s| - |left|] + t + left[|t|..]
    ensures t != "" ==> t[0] == left[0]
  {
    assert s == s[..|s| - |left|] + left;
    assert left == t + left[|t|..];
  }

  lemma {:induction false} KeptConcat(a: seq<string>, b: seq<string>)
    ensures Kept(a + b) == Kept(a) + Kept(b)
  {
    hide TrimSpace;
    if b == [] {
      assert a + b == a && Kept(a) + [] == Kept(a);
    } else {
      var n := |b| - 1;
      KeptConcat(a, b[..n]);
      assert (a + b)[..|a| + n] == a + b[..n] && (a + b)[|a| + n] == b[n];
      var last := if TrimSpace(b[n]) != "" then [TrimSpace(b[n])] else [];
      assert Kept(a + b) == (Kept(a) + Kept(b[..n])) + last;
      assert Kept(b) == Kept(b[..n]) + last;
      assert (Kept(a) + Kept(b[..n])) + last == Kept(a) + (Kept(b[..n]) + last);
    }
  }

  // Parsing piece by piece: a blank piece is skipped, any other is trimmed.
  lemma ParseOfPiece(p: string)
    requires ',' !in p
    ensures Parse(p) == if TrimSpace(p) == "" then [] else [TrimSpace(p)]
  {
    SplitOne(p, ',');
    assert [p][..0] == [] && Kept([]) == [];
  }

  lemma ParseOfPieces(p: string, b: string)
    requires ',' !in p
    ensures Parse(p + "," + b) == Parse(p) + Parse(b)
  {
    assert p + "," + b == p + [','] + b;
    SplitFirst(p, ',', b);
    SplitOne(p, ',');
    KeptConcat([p], Split(b, ','));
  }

  method ParseList(header: string) returns (servers: seq<string>)
    ensures servers == Parse(header)
  {
    hide TrimSpace, Split;
    var parts := Split(header, ',');
    servers := [];
    var i := 0;
    while i < |parts|
      invariant 0 <= i <= |parts| && servers == Kept(parts[..i])
    {
      KeptNext(parts, i);
      if TrimSpace(parts[i]) != "" {
        servers := servers + [TrimSpace(parts[i])];
      }
      i := i + 1;
    }
    assert parts[..i] == parts;
  }
}
