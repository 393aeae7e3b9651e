// The registry of servers: heartbeats put servers in, answering a query removes
// those whose time is up.
module Registry {
  import opened Wrappers

  type Time = int

  datatype Beat = Beat(addr: string, at: Time)

  // ---------- What the heartbeats say ----------

  // The time of an address's last heartbeat.
  function LastBeat(log: seq<Beat>, addr: string): Option<Time>
  {
    if log == [] then None
    else if log[|log| - 1].addr == addr then Some(log[|log| - 1].at)
    else LastBeat(log[..|log| - 1], addr)
  }

  predicate Lives(start: Time, timeout: int, now: Time)
  {
    timeout == 0 || start + timeout > now
  }

  // Whether an address is alive by the whole log.
  predicate Fresh(log: seq<Beat>, timeout: int, addr: string, now: Time)
  {
    LastBeat(log, addr).Some? && Lives(LastBeat(log, addr).value, timeout, now)
  }

  // Heartbeats come in the order of their times.
  predicate InOrder(log: seq<Beat>)
  {
    forall i, j :: 0 <= i <= j < |log| ==> log[i].at <= log[j].at
  }

  // Some heartbeat of the address is not older than the timeout, or there is no
  // timeout.
  ghost predicate BeatWithin(log: seq<Beat>, timeout: int, addr: string, now: Time)
  {
    exists i :: 0 <= i < |log| && log[i].addr == addr && (timeout == 0 || now - log[i].at < timeout)
  }

  lemma {:induction false} FreshIffBeatWithin(log: seq<Beat>, timeout: int, addr: string, now: Time)
    requires InOrder(log)
    ensures Fresh(log, timeout, addr, now) <==> BeatWithin(log, timeout, addr, now)
  {
    if log != [] {
      var last := |log| - 1;
      var rest := log[..last];
      FreshIffBeatWithin(rest, timeout, addr, now);
      assert forall i :: 0 <= i < last ==> rest[i] == log[i];
      if BeatWithin(rest, timeout, addr, now) {
        var i :| 0 <= i < last && rest[i].addr == addr && (timeout == 0 || now - rest[i].at < timeout);
        assert log[i].at <= log[last].at;
      }
    }
  }

  lemma AllFreshIffBeatWithin(log: seq<Beat>, timeout: int, now: Time)
    requires InOrder(log)
    ensures forall a :: Fresh(log, timeout, a, now) <==> BeatWithin(log, timeout, a, now)
  {
    hide Fresh, BeatWithin, InOrder;
    forall a ensures Fresh(log, timeout, a, now) <==> BeatWithin(log, timeout, a, now) {
      FreshIffBeatWithin(log, timeout, a, now);
    }
  }

  // ---------- What the registry keeps ----------

  // The table agrees with the log: what it lacks never beat or is over.
  ghost predicate Represents(servers: map<string, Time>, timeout: int, log: seq<Beat>, now: Time)
  {
    forall a ::
      if a in servers then LastBeat(log, a) == Some(servers[a]) else !Fresh(log, timeout, a, now)
  }

  // What is left of the table after a query that read the clock between from and
  // to, a reading for each server.
  ghost predicate Purged(servers: map<string, Time>, timeout: int, from: Time, to: Time, kept: map<string, Time>)
  {
    && kept.Keys <= servers.Keys
    && forall a ::
      a in servers ==>
        if a in kept then kept[a] == servers[a] && Lives(servers[a], timeout, from)
        else !Lives(servers[a], timeout, to)
  }

  // The same while servers are left to look at.
  ghost predicate PurgedButFor(servers: map<string, Time>, timeout: int, from: Time, to: Time,
                               left: set<string>, kept: map<string, Time>)
  {
    && left <= kept.Keys <= servers.Keys
    && (forall a :: a in kept ==> kept[a] == servers[a])
    && forall a ::
      a in servers && a !in left ==>
        if a in kept then Lives(servers[a], timeout, from) else !Lives(servers[a], timeout, to)
  }

  lemma PurgedInTheEnd(servers: map<string, Time>, timeout: int, from: Time, to: Time, kept: map<string, Time>)
    requires PurgedButFor(servers, timeout, from, to, {}, kept)
    ensures Purged(servers, timeout, from, to, kept)
  {
  }

  lemma NothingPurged(servers: map<string, Time>, timeout: int, from: Time, to: Time)
    ensures PurgedButFor(servers, timeout, from, to, servers.Keys, servers)
  {
  }

  lemma PurgeOne(servers: map<string, Time>, timeout: int, from: Time, to: Time,
                 left: set<string>, kept: map<string, Time>, addr: string, clock: Time)
    requires PurgedButFor(servers, timeout, from, to, left, kept) && addr in left && from <= clock <= to
    ensures addr in kept && kept[addr] == servers[addr]
    ensures PurgedButFor(servers, timeout, from, to, left - {addr},
                         if Lives(servers[addr], timeout, clock) then kept else kept - {addr})
  {
  }

  lemma BeatKeeps(servers: map<string, Time>, timeout: int, log: seq<Beat>, now: Time, addr: string, at: Time)
    requires Represents(servers, timeout, log, now) && now <= at
    ensures Represents(servers[addr := at], timeout, log + [Beat(addr, at)], at)
  {
    var log' := log + [Beat(addr, at)];
    assert log'[..|log'| - 1] == log;
  }

  // A query answers as the full log would: everyone it lists was alive when it
  // began, and whoever is alive when it ends is listed. At one instant that is an
  // equivalence.
  lemma QueryAnswersAsLog(servers: map<string, Time>, timeout: int, log: seq<Beat>, now: Time,
                          from: Time, to: Time, kept: map<string, Time>)
    requires Represents(servers, timeout, log, now) && now <= from <= to
    requires Purged(servers, timeout, from, to, kept)
    ensures Represents(kept, timeout, log, to)
    ensures forall a ::
      (a in kept ==> Fresh(log, timeout, a, from)) && (Fresh(log, timeout, a, to) ==> a in kept)
  {
    forall a
      ensures a in kept ==> LastBeat(log, a) == Some(kept[a]) && Fresh(log, timeout, a, from)
      ensures a !in kept ==> !Fresh(log, timeout, a, to)
    {
      assert a in kept ==> a in servers;
    }
  }

  // ---------- Order ----------

  // The order of sort.Strings.
  predicate Less(a: string, b: string)
  {
    if b == "" then false
    else if a == "" then true
    else a[0] < b[0] || (a[0] == b[0] && Less(a[1..], b[1..]))
  }

  lemma {:induction false} LessIsTotal(a: string, b: string)
    ensures a == b || Less(a, b) || Less(b, a)
    ensures !(Less(a, b) && Less(b, a)) && !Less(a, a)
  {
    if a != "" {
      LessIsTotal(a[1..], a[1..]);
      if b != "" {
        LessIsTotal(a[1..], b[1..]);
        assert a == [a[0]] + a[1..] && b == [b[0]] + b[1..];
      }
    }
  }

  lemma {:induction false} LessIsTransitive(a: string, b: string, c: string)
    requires Less(a, b) && Less(b, c)
    ensures Less(a, c)
  {
    if a != "" && a[0] == b[0] == c[0] { LessIsTransitive(a[1..], b[1..], c[1..]); }
  }

  // One string is less than another if it is a proper prefix of it or has the
  // smaller character where they first differ.
  predicate LessAt(a: string, b: string, k: nat)
  {
    k <= |a| && k < |b| && a[..k] == b[..k] && (k == |a| || a[k] < b[k])
  }

  lemma {:induction false} LessIff(a: string, b: string)
    ensures Less(a, b) <==> exists k: nat :: LessAt(a, b, k)
  {
    if a != "" && b != "" && a[0] == b[0] {
      LessIff(a[1..], b[1..]);
      if k: nat :| LessAt(a[1..], b[1..], k) {
        assert a[..k + 1] == [a[0]] + a[1..][..k] && b[..k + 1] == [b[0]] + b[1..][..k];
        assert LessAt(a, b, k + 1);
      }
      if k: nat :| LessAt(a, b, k) {
        assert k > 0 ==> a[1..][..k - 1] == a[..k][1..] && b[1..][..k - 1] == b[..k][1..];
        assert k > 0 ==> LessAt(a[1..], b[1..], k - 1);
      }
    } else if b != "" {
      if a == "" || a[0] < b[0] { assert LessAt(a, b, 0); }
      if k: nat :| LessAt(a, b, k) { LessAtStart(a, b, k); }
    }
  }

  lemma LessAtStart(a: string, b: string, k: nat)
    requires LessAt(a, b, k)
    ensures k == 0 || a[0] == b[0]
  {
    assert k > 0 ==> a[0] == a[..k][0] && b[0] == b[..k][0];
  }

  predicate Ascending(s: seq<string>)
  {
    forall i, j :: 0 <= i < j < |s| ==> Less(s[i], s[j])
  }

  predicate SameElements(s: seq<string>, t: seq<string>)
  {
    (forall x :: x in s ==> x in t) && (forall x :: x in t ==> x in s)
  }

  lemma FirstIsMember(s: seq<string>)
    ensures s == [] || s[0] in s
  {
  }

  // An ascending list is determined by its elements.
  lemma {:induction false} AscendingIsUnique(s: seq<string>, t: seq<string>)
    requires Ascending(s) && Ascending(t) && SameElements(s, t)
    ensures s == t
  {
    if s == [] || t == [] {
      FirstIsMember(s);
      FirstIsMember(t);
    } else {
      FirstIsLeast(s, t);
      FirstIsLeast(t, s);
      LessIsTotal(s[0], t[0]);
      TailsAgree(s, t);
      TailsAgree(t, s);
      AscendingIsUnique(s[1..], t[1..]);
      assert s == [s[0]] + s[1..] && t == [t[0]] + t[1..];
    }
  }

  lemma FirstIsLeast(s: seq<string>, t: seq<string>)
    requires Ascending(s) && s != [] && t != [] && forall x :: x in t ==> x in s
    ensures s[0] == t[0] || Less(s[0], t[0])
  {
    assert t[0] in s;
  }

  lemma TailsAgree(s: seq<string>, t: seq<string>)
    requires Ascending(s) && s != [] && t != [] && s[0] == t[0] && forall x :: x in s ==> x in t
    ensures forall x :: x in s[1..] ==> x in t[1..]
  {
    forall x | x in s[1..] ensures x in t[1..] {
      LessIsTotal(s[0], s[0]);
      assert x in t;
      assert t == [t[0]] + t[1..];
    }
  }

  // ---------- The object ----------

  lemma InsertedIsAscending(s: seq<string>, x: string, i: nat)
    requires Ascending(s) && i <= |s| && (i < |s| ==> !Less(s[i], x) && s[i] != x)
    requires forall j :: 0 <= j < i ==> Less(s[j], x)
    ensures Ascending(s[..i] + [x] + s[i..])
  {
    forall j | i <= j < |s| ensures Less(x, s[j]) {
      LessIsTotal(x, s[i]);
      if i < j { LessIsTransitive(x, s[i], s[j]); }
    }
    hide Less;
  }

  method InsertSorted(s: seq<string>, x: string) returns (r: seq<string>)
    requires Ascending(s) && x !in s
    ensures Ascending(r) && forall y :: y in r <==> y in s || y == x
  {
    var i := 0;
    while i < |s| && Less(s[i], x)
      invariant 0 <= i <= |s|
      invariant forall j :: 0 <= j < i ==> Less(s[j], x)
    {
      i := i + 1;
    }
    InsertedIsAscending(s, x, i);
    hide Ascending, Less;
    r := s[..i] + [x] + s[i..];
    assert s == s[..i] + s[i..];
  }

  predicate Distinct(s: seq<string>)
  {
    forall i, j :: 0 <= i < j < |s| ==> s[i] != s[j]
  }

  lemma NoneIsDistinct()
    ensures Distinct([])
  {
  }

  lemma OneMoreIsDistinct(s: seq<string>, x: string)
    requires Distinct(s) && x !in s
    ensures Distinct(s + [x])
  {
  }

  // Sorts by insertion, in place of sort.Strings.
  method SortStrings(s: seq<string>) returns (r: seq<string>)
    requires Distinct(s)
    ensures Ascending(r) && SameElements(r, s)
  {
    r := [];
    var i := 0;
    while i < |s|
      invariant 0 <= i <= |s|
      invariant Ascending(r) && forall x :: x in r <==> x in s[..i]
    {
      r := InsertSorted(r, s[i]);
      assert s[..i + 1] == s[..i] + [s[i]];
      i := i + 1;
    }
    assert s[..|s|] == s;
  }

  class ServerItem {
    const Addr: string
    var Start: Time

    constructor (addr: string, start: Time)
      ensures Addr == addr && Start == start
    {
      Addr := addr;
      Start := start;
    }
  }

  class GeeRegistry {
    const timeout: int
    var servers: map<string, ServerItem>
    ghost var log: seq<Beat>
    ghost var seen: Time               // the clock's last reading

    ghost function Starts(): map<string, Time>
      reads this`servers, servers.Values`Start
    {
      map a | a in servers :: servers[a].Start
    }

    ghost predicate Valid()
      reads this, servers.Values
    {
      && (forall a :: a in servers ==> servers[a].Addr == a)
      && Represents(Starts(), timeout, log, seen)
      && InOrder(log) && (log != [] ==> log[|log| - 1].at <= seen)
    }

    constructor (timeout: int)
      ensures Valid() && this.timeout == timeout && servers == map[] && log == []
    {
      this.timeout := timeout;
      servers := map[];
      log := [];
      seen := 0;
    }

    method SetStart(addr: string, now: Time)
      requires forall a :: a in servers ==> servers[a].Addr == a
      modifies this`servers, servers.Values`Start
      ensures Starts() == old(Starts())[addr := now]
      ensures forall a :: a in servers ==> servers[a].Addr == a
    {
      if addr !in servers {
        var item := new ServerItem(addr, now);
        servers := servers[addr := item];
      } else {
        servers[addr].Start := now;
      }
      assert Starts() == old(Starts())[addr := now];
    }

    method PutServer(addr: string, now: Time)
      requires Valid() && seen <= now
      modifies this, servers.Values
      ensures Valid() && Starts() == old(Starts())[addr := now]
      ensures log == old(log) + [Beat(addr, now)] && seen == now
    {
      BeatKeeps(Starts(), timeout, log, seen, addr, now);
      hide Represents;
      SetStart(addr, now);
      ghost var starts := Starts();
      log := log + [Beat(addr, now)];
      seen := now;
      assert Starts() == starts;
    }

    // Looks at one server and deletes it if its time is up.
    method KeepIfAlive(addr: string, now: Time) returns (lives: bool)
      requires addr in servers
      modifies this`servers
      ensures lives == Lives(old(Starts())[addr], timeout, now)
      ensures servers == if lives then old(servers) else old(servers) - {addr}
      ensures Starts() == if lives then old(Starts()) else old(Starts()) - {addr}
    {
      lives := timeout == 0 || servers[addr].Start + timeout > now;
      if !lives {
        servers := servers - {addr};
        assert Starts() == old(Starts()) - {addr};
      }
    }

    // The loop of AliveServers; clock holds its readings, one for each server.
    method Collect(clock: seq<Time>, ghost from: Time, ghost to: Time) returns (alive: seq<string>)
      requires |clock| == |servers| && forall i :: 0 <= i < |clock| ==> from <= clock[i] <= to
      modifies this`servers
      ensures Purged(old(Starts()), timeout, from, to, Starts())
      ensures forall a :: a in servers ==> a in old(servers) && servers[a] == old(servers[a])
      ensures Distinct(alive) && forall a :: a in alive <==> a in servers
    {
      ghost var before := Starts();
      NothingPurged(before, timeout, from, to);
      assert before.Keys == servers.Keys;
      hide Purged, PurgedButFor, Lives, Distinct;
      NoneIsDistinct();
      var left := servers.Keys;
      var i := 0;
      alive := [];
      while left != {}
        invariant left <= servers.Keys && forall a :: a in servers ==> a in old(servers) && servers[a] == old(servers[a])
        invariant |left| + i == |clock|
        invariant Distinct(alive) && forall a :: a in alive <==> a in servers && a !in left
        invariant PurgedButFor(before, timeout, from, to, left, Starts())
        decreases left
      {
        var addr :| addr in left;
        PurgeOne(before, timeout, from, to, left, Starts(), addr, clock[i]);
        OneMoreIsDistinct(alive, addr);
        var lives := KeepIfAlive(addr, clock[i]);
        if lives {
          alive := alive + [addr];
        }
        left := left - {addr};
        i := i + 1;
      }
      PurgedInTheEnd(before, timeout, from, to, Starts());
    }

    method AliveServers(clock: seq<Time>, ghost from: Time, ghost to: Time) returns (alive: seq<string>)
      requires Valid() && |clock| == |servers| && seen <= from <= to
      requires forall i :: 0 <= i < |clock| ==> from <= clock[i] <= to
      modifies this`servers, this`seen
      ensures Valid() && seen == to
      ensures Purged(old(Starts()), timeout, from, to, Starts())
      ensures Ascending(alive) && forall a :: a in alive <==> a in servers
      ensures forall a :: a in alive ==> Fresh(log, timeout, a, from) && BeatWithin(log, timeout, a, from)
      ensures forall a :: Fresh(log, timeout, a, to) || BeatWithin(log, timeout, a, to) ==> a in alive
    {
      hide Represents, Fresh, BeatWithin, Purged, Ascending, Distinct, InOrder;
      ghost var before := Starts();
      alive := Collect(clock, from, to);
      ghost var kept := Starts();
      QueryAnswersAsLog(before, timeout, log, seen, from, to, kept);
      seen := to;
      assert Starts() == kept;
      alive := SortStrings(alive);
      AllFreshIffBeatWithin(log, timeout, from);
      AllFreshIffBeatWithin(log, timeout, to);
    }
  }
}
