// The discovery client, which fetches the list of servers from the registry and
// keeps it until its own timeout is over.
module Discovery {
  import opened Wrappers
  import opened Text
  import opened ServerList
  import opened Registry

  const DEFAULT_UPDATE_TIMEOUT := 10_000_000_000  // nanoseconds

  // What the client holds; a client that never fetched has no lastUpdate.
  datatype Cache = Cache(servers: seq<string>, lastUpdate: Option<Time>)

  predicate UpToDate(c: Cache, timeout: int, now: Time)
  {
    c.lastUpdate.Some? && c.lastUpdate.value + timeout > now
  }

  class GeeRegistryDiscovery {
    const timeout: int
    var servers: seq<string>
    var lastUpdate: Option<Time>

    ghost function Contents(): Cache
      reads this
    {
      Cache(servers, lastUpdate)
    }

    constructor (timeout: int)
      ensures this.timeout == if timeout == 0 then DEFAULT_UPDATE_TIMEOUT else timeout
      ensures Contents() == Cache([], None)
    {
      this.timeout := if timeout == 0 then DEFAULT_UPDATE_TIMEOUT else timeout;
      servers := [];
      lastUpdate := None;
    }

    // now and fetched: the clock before and after asking the registry; reply: the
    // header it sent, or why it could not be asked.
    method Refresh<E(0)>(now: Time, reply: Result<string, E>, fetched: Time) returns (error: Option<E>)
      modifies this
      ensures UpToDate(old(Contents()), timeout, now) ==> error == None && Contents() == old(Contents())
      ensures old(lastUpdate).Some? && now - old(lastUpdate).value < timeout ==> error == None && Contents() == old(Contents())
      ensures !UpToDate(old(Contents()), timeout, now) ==>
        match reply
        case Err(e) => error == Some(e) && Contents() == old(Contents())
        case Ok(header) => error == None && Contents() == Cache(Parse(header), Some(fetched))
    {
      if lastUpdate.Some? && lastUpdate.value + timeout > now {
        return None;
      }
      if reply.Err? {
        return Some(reply.error);
      }
      servers := ParseList(reply.value);
      lastUpdate := Some(fetched);
      error := None;
    }

    method GetAll<E(0)>(now: Time, reply: Result<string, E>, fetched: Time) returns (result: Result<seq<string>, E>)
      modifies this
      ensures !UpToDate(old(Contents()), timeout, now) && reply.Err? ==>
        result == Err(reply.error) && Contents() == old(Contents())
      ensures old(lastUpdate).Some? && now - old(lastUpdate).value < timeout ==>
        result == Ok(old(servers)) && Contents() == old(Contents())
      ensures !UpToDate(old(Contents()), timeout, now) && reply.Ok? ==>
        Contents() == Cache(Parse(reply.value), Some(fetched))
      ensures !UpToDate(old(Contents()), timeout, now) && reply.Ok? ==> result == Ok(Parse(reply.value))
      ensures result.Ok? ==> result.value == servers
    {
      var error := Refresh(now, reply, fetched);
      if error.Some? {
        return Err(error.value);
      }
      result := Ok(servers);
    }
  }

  // ---------- Registry and client together ----------

  // A client that is fetching: it has asked, or the registry has answered it.
  datatype Fetch = Idle | Asked | Replied(from: Time, listed: seq<string>)

  // time: the last moment anything happened.
  datatype World = World(servers: map<string, Time>, log: seq<Beat>, cache: Cache, fetch: Fetch, time: Time)

  // GetAll reads the clock at now and returns the list it holds (Reuse) or asks
  // (Ask); the registry reads the clock between from and to and lists its servers
  // to the client (Serve) or to others (Query); the client reads the reply and
  // returns the new list (Receive) or an error (Fail).
  datatype Event =
    | Heartbeat(addr: string, at: Time)
    | Query(from: Time, to: Time, listed: seq<string>)
    | Reuse(now: Time)
    | Ask(now: Time)
    | Serve(from: Time, to: Time, listed: seq<string>)
    | Receive(fetched: Time)
    | Fail(now: Time)

  // latency: how long the client may take from the registry's first clock reading
  // to having the list.
  datatype Config = Config(registryTimeout: int, discoveryTimeout: int, latency: nat)

  function Initial(): World
  {
    World(map[], [], Cache([], None), Idle, 0)
  }

  ghost predicate Lists(w: World, c: Config, from: Time, to: Time, listed: seq<string>)
  {
    Ascending(listed) && Purged(w.servers, c.registryTimeout, from, to, Listed(w, listed))
    && forall a :: a in listed ==> a in w.servers
  }

  function Listed(w: World, listed: seq<string>): map<string, Time>
  {
    map a | a in w.servers && a in listed :: w.servers[a]
  }

  ghost function Step(w: World, e: Event, c: Config): Option<World>
  {
    match e
    case Heartbeat(addr, at) =>
      if w.time <= at && Plain(addr) then
        Some(w.(servers := w.servers[addr := at], log := w.log + [Beat(addr, at)], time := at))
      else None
    case Query(from, to, listed) =>
      if w.time <= from <= to && Lists(w, c, from, to, listed) then
        Some(w.(servers := Listed(w, listed), time := to))
      else None
    case Reuse(now) =>
      if w.time <= now && w.fetch.Idle? && UpToDate(w.cache, c.discoveryTimeout, now) then Some(w.(time := now))
      else None
    case Ask(now) =>
      if w.time <= now && w.fetch.Idle? && !UpToDate(w.cache, c.discoveryTimeout, now) then
        Some(w.(fetch := Asked, time := now))
      else None
    case Serve(from, to, listed) =>
      if w.time <= from <= to && w.fetch.Asked? && Lists(w, c, from, to, listed) then
        Some(w.(servers := Listed(w, listed), fetch := Replied(from, listed), time := to))
      else None
    case Receive(fetched) =>
      if w.time <= fetched && w.fetch.Replied? && fetched <= w.fetch.from + c.latency then
        Some(w.(cache := Cache(Parse(Join(w.fetch.listed, ",")), Some(fetched)), fetch := Idle, time := fetched))
      else None
    case Fail(now) =>
      if w.time <= now && !w.fetch.Idle? then Some(w.(fetch := Idle, time := now)) else None
  }

  // The state after the first k events, if all were possible.
  ghost function Run(events: seq<Event>, k: nat, c: Config): Option<World>
    requires k <= |events|
  {
    if k == 0 then Some(Initial())
    else match Run(events, k - 1, c)
      case None => None
      case Some(w) => Step(w, events[k - 1], c)
  }

  // A heartbeat after the given time.
  ghost predicate BeatAfter(log: seq<Beat>, addr: string, after: Time)
  {
    exists i :: 0 <= i < |log| && log[i].addr == addr && log[i].at > after
  }

  ghost predicate AllBeatAfter(log: seq<Beat>, addrs: seq<string>, after: Time)
  {
    forall a :: a in addrs ==> BeatAfter(log, a, after)
  }

  ghost predicate CacheOk(w: World, c: Config)
  {
    && (match w.cache.lastUpdate
        case None => w.cache.servers == []
        case Some(u) => u <= w.time && AllBeatAfter(w.log, w.cache.servers, u - c.registryTimeout - c.latency))
    && (w.fetch.Replied? ==>
         && AllBeatAfter(w.log, w.fetch.listed, w.fetch.from - c.registryTimeout)
         && Parse(Join(w.fetch.listed, ",")) == w.fetch.listed)
  }

  ghost predicate Inv(w: World, c: Config)
  {
    && Represents(w.servers, c.registryTimeout, w.log, w.time)
    && (forall a :: a in w.servers ==> Plain(a))
    && CacheOk(w, c)
  }

  lemma {:induction false} LastBeatIsInLog(log: seq<Beat>, addr: string, after: Time)
    requires LastBeat(log, addr).Some? && LastBeat(log, addr).value > after
    ensures BeatAfter(log, addr, after)
  {
    var last := |log| - 1;
    if log[last].addr != addr {
      LastBeatIsInLog(log[..last], addr, after);
      var i :| 0 <= i < last && log[..last][i].addr == addr && log[..last][i].at > after;
      assert log[i].addr == addr;
    }
  }

  lemma BeatAfterStays(log: seq<Beat>, beat: Beat, a: string, after: Time)
    requires BeatAfter(log, a, after)
    ensures BeatAfter(log + [beat], a, after)
  {
    var i :| 0 <= i < |log| && log[i].addr == a && log[i].at > after;
    assert (log + [beat])[i] == log[i];
  }

  lemma AllBeatAfterStays(log: seq<Beat>, beat: Beat, addrs: seq<string>, after: Time)
    requires AllBeatAfter(log, addrs, after)
    ensures AllBeatAfter(log + [beat], addrs, after)
  {
    hide BeatAfter;
    forall a | a in addrs ensures BeatAfter(log + [beat], a, after) { BeatAfterStays(log, beat, a, after); }
  }

  lemma AllBeatAfterEarlier(log: seq<Beat>, addrs: seq<string>, after: Time, earlier: Time)
    requires AllBeatAfter(log, addrs, after) && earlier <= after
    ensures AllBeatAfter(log, addrs, earlier)
  {
    forall a | a in addrs ensures BeatAfter(log, a, earlier) { assert BeatAfter(log, a, after); }
  }

  lemma BeatKeepsInv(w: World, c: Config, addr: string, at: Time)
    requires Inv(w, c) && w.time <= at && Plain(addr)
    ensures Inv(w.(servers := w.servers[addr := at], log := w.log + [Beat(addr, at)], time := at), c)
  {
    hide Represents, Plain, AllBeatAfter, Parse, Join;
    var beat := Beat(addr, at);
    BeatKeeps(w.servers, c.registryTimeout, w.log, w.time, addr, at);
    if w.cache.lastUpdate.Some? {
      AllBeatAfterStays(w.log, beat, w.cache.servers, w.cache.lastUpdate.value - c.registryTimeout - c.latency);
    } else {
      assert w.cache.servers == [];
    }
    if w.fetch.Replied? { AllBeatAfterStays(w.log, beat, w.fetch.listed, w.fetch.from - c.registryTimeout); }
  }

  // What the registry lists is what the client will read, and it beat recently.
  lemma ListedBeat(w: World, c: Config, from: Time, to: Time, listed: seq<string>)
    requires Inv(w, c) && w.time <= from <= to && Lists(w, c, from, to, listed) && c.registryTimeout != 0
    ensures Represents(Listed(w, listed), c.registryTimeout, w.log, to)
    ensures Parse(Join(listed, ",")) == listed
    ensures AllBeatAfter(w.log, listed, from - c.registryTimeout)
  {
    QueryAnswersAsLog(w.servers, c.registryTimeout, w.log, w.time, from, to, Listed(w, listed));
    hide Plain, Purged, Represents, Parse, Join, BeatAfter;
    JoinParse(listed);
    forall a | a in listed ensures BeatAfter(w.log, a, from - c.registryTimeout) {
      assert a in Listed(w, listed);
      LastBeatIsInLog(w.log, a, from - c.registryTimeout);
    }
  }

  lemma LaterRepresents(servers: map<string, Time>, timeout: int, log: seq<Beat>, now: Time, later: Time)
    requires Represents(servers, timeout, log, now) && now <= later
    ensures Represents(servers, timeout, log, later)
  {
  }

  lemma WaitKeepsInv(w: World, c: Config, now: Time, fetch: Fetch)
    requires Inv(w, c) && w.time <= now && !fetch.Replied?
    ensures Inv(w.(time := now), c) && Inv(w.(fetch := fetch, time := now), c)
  {
    hide Plain, AllBeatAfter, Parse, Join;
    LaterRepresents(w.servers, c.registryTimeout, w.log, w.time, now);
    hide Represents;
  }

  lemma QueryKeepsInv(w: World, c: Config, from: Time, to: Time, listed: seq<string>)
    requires Inv(w, c) && w.time <= from <= to && Lists(w, c, from, to, listed) && c.registryTimeout != 0
    ensures Inv(w.(servers := Listed(w, listed), time := to), c)
    ensures Inv(w.(servers := Listed(w, listed), fetch := Replied(from, listed), time := to), c)
  {
    hide Represents, Lists, Plain, AllBeatAfter, Parse, Join;
    ListedBeat(w, c, from, to, listed);
  }

  lemma ReceiveKeepsInv(w: World, c: Config, fetched: Time)
    requires Inv(w, c) && w.time <= fetched && w.fetch.Replied? && fetched <= w.fetch.from + c.latency
    ensures Inv(w.(cache := Cache(Parse(Join(w.fetch.listed, ",")), Some(fetched)), fetch := Idle, time := fetched), c)
  {
    hide Plain, AllBeatAfter, Parse, Join;
    LaterRepresents(w.servers, c.registryTimeout, w.log, w.time, fetched);
    hide Represents;
    AllBeatAfterEarlier(w.log, w.fetch.listed, w.fetch.from - c.registryTimeout, fetched - c.registryTimeout - c.latency);
  }

  lemma StepKeepsInv(w: World, e: Event, c: Config)
    requires Inv(w, c) && Step(w, e, c).Some? && c.registryTimeout != 0
    ensures Inv(Step(w, e, c).value, c)
  {
    hide Inv, Plain, Lists, Parse, Join, UpToDate;
    match e
    case Heartbeat(addr, at) => BeatKeepsInv(w, c, addr, at);
    case Query(from, to, listed) => QueryKeepsInv(w, c, from, to, listed);
    case Reuse(now) => WaitKeepsInv(w, c, now, Idle);
    case Ask(now) => WaitKeepsInv(w, c, now, Asked);
    case Serve(from, to, listed) => QueryKeepsInv(w, c, from, to, listed);
    case Receive(fetched) => ReceiveKeepsInv(w, c, fetched);
    case Fail(now) => WaitKeepsInv(w, c, now, Idle);
  }

  lemma {:induction false} RunKeepsInv(events: seq<Event>, k: nat, c: Config)
    requires k <= |events| && Run(events, k, c).Some? && c.registryTimeout != 0
    ensures Inv(Run(events, k, c).value, c)
  {
    if k > 0 {
      hide Step, Inv;
      RunKeepsInv(events, k - 1, c);
      StepKeepsInv(Run(events, k - 1, c).value, events[k - 1], c);
    }
  }

  // How long GetAll may reuse a list: not at all with a timeout below zero.
  function ReuseTime(c: Config): nat
  {
    if c.discoveryTimeout > 0 then c.discoveryTimeout else 0
  }

  // The two ways GetAll returns a list.
  predicate Returns(e: Event)
  {
    e.Reuse? || e.Receive?
  }

  lemma AnswerIsRecent(w: World, e: Event, c: Config)
    requires Returns(e) && Step(w, e, c).Some?
    ensures var u := Step(w, e, c).value;
      u.cache.lastUpdate.Some? && u.time <= u.cache.lastUpdate.value + ReuseTime(c)
  {
    hide Parse, Join;
  }

  lemma {:induction false} RunEndsInStep(events: seq<Event>, k: nat, c: Config)
    requires k < |events| && Run(events, k + 1, c).Some?
    ensures Run(events, k, c).Some? && Run(events, k + 1, c) == Step(Run(events, k, c).value, events[k], c)
  {
    hide Step;
  }

  lemma AnswerIsFresh(w: World, u: World, e: Event, c: Config)
    requires Returns(e) && Step(w, e, c) == Some(u) && CacheOk(u, c)
    ensures AllBeatAfter(u.log, u.cache.servers, u.time - (c.registryTimeout + ReuseTime(c) + c.latency))
  {
    AnswerIsRecent(w, e, c);
    hide AllBeatAfter, Step, ReuseTime, Parse, Join;
    AllBeatAfterEarlier(u.log, u.cache.servers, u.cache.lastUpdate.value - c.registryTimeout - c.latency,
      u.time - (c.registryTimeout + ReuseTime(c) + c.latency));
  }

  // However heartbeats, queries and the steps of fetches interleave: every address
  // GetAll returns at time t sent a heartbeat after t minus both timeouts and the
  // time a fetch may take.
  lemma AnswersAreFresh(events: seq<Event>, k: nat, c: Config)
    requires k < |events| && Returns(events[k]) && Run(events, k + 1, c).Some? && c.registryTimeout != 0
    ensures var w := Run(events, k + 1, c).value;
      AllBeatAfter(w.log, w.cache.servers, w.time - (c.registryTimeout + ReuseTime(c) + c.latency))
  {
    hide Run, Step, Represents, CacheOk, Plain, AllBeatAfter, ReuseTime;
    RunEndsInStep(events, k, c);
    RunKeepsInv(events, k + 1, c);
    AnswerIsFresh(Run(events, k, c).value, Run(events, k + 1, c).value, events[k], c);
  }

  // A list is reused, and the registry not asked, as long as it is younger than the
  // client's timeout.
  lemma AsksOnlyWhenOld(w: World, c: Config, now: Time)
    ensures Step(w, Ask(now), c).Some? ==>
      w.cache.lastUpdate.None? || now - w.cache.lastUpdate.value >= c.discoveryTimeout
    ensures w.time <= now && w.fetch.Idle? ==> (Step(w, Ask(now), c).Some? <==> Step(w, Reuse(now), c) == None)
    ensures Step(w, Reuse(now), c).Some? ==> Step(w, Reuse(now), c).value.cache == w.cache
  {
  }

  // Only the end of a successful fetch changes the list the client holds, to what
  // the registry listed.
  lemma OnlyReceiveChanges(w: World, e: Event, c: Config)
    requires Inv(w, c) && Step(w, e, c).Some?
    ensures !e.Receive? ==> Step(w, e, c).value.cache == w.cache
    ensures e.Receive? ==> w.fetch.Replied? && Step(w, e, c).value.cache == Cache(w.fetch.listed, Some(e.fetched))
  {
    hide Represents, Plain, AllBeatAfter;
  }

  // ---------- Without expiry ----------

  ghost predicate AlwaysFresh(c: Config)
  {
    forall events: seq<Event>, k: nat :: k < |events| && Returns(events[k]) && Run(events, k + 1, c).Some? ==>
      FreshAt(events, k + 1, c)
  }

  ghost predicate FreshAt(events: seq<Event>, k: nat, c: Config)
    requires k <= |events| && Run(events, k, c).Some?
  {
    var w := Run(events, k, c).value;
    AllBeatAfter(w.log, w.cache.servers, w.time - (c.registryTimeout + ReuseTime(c) + c.latency))
  }

  // One heartbeat at time 0, and a fetch at time t.
  function OneBeat(a: string, t: Time): seq<Event>
  {
    [Heartbeat(a, 0), Ask(t), Serve(t, t, [a]), Receive(t)]
  }

  lemma OldBeatIsListed(a: string, t: Time, c: Config)
    requires c.registryTimeout == 0 && Plain(a) && t >= 0
    ensures Run(OneBeat(a, t), 4, c).Some?
    ensures var w := Run(OneBeat(a, t), 4, c).value;
      w.log == [Beat(a, 0)] && w.cache.servers == [a] && w.time == t
  {
    hide Plain, Parse, Join;
    JoinParse([a]);
    var events, servers := OneBeat(a, t), map[a := 0];
    var w1 := World(servers, [Beat(a, 0)], Cache([], None), Idle, 0);
    var w2 := w1.(fetch := Asked, time := t);
    var w3 := w2.(fetch := Replied(t, [a]));
    assert Run(events, 0, c) == Some(Initial());
    assert Initial().log + [Beat(a, 0)] == [Beat(a, 0)] && Initial().servers[a := 0] == servers;
    assert Step(Initial(), events[0], c) == Some(w1);
    assert Run(events, 1, c) == Some(w1);
    assert Run(events, 2, c) == Some(w2);
    assert Listed(w2, [a]) == servers;
    assert Run(events, 3, c) == Some(w3);
  }

  // The bound on the age of an answer holds in all runs exactly if the registry's
  // timeout is not zero; at zero an address is listed for ever.
  lemma AlwaysFreshIff(c: Config)
    ensures AlwaysFresh(c) <==> c.registryTimeout != 0
  {
    hide Run, AllBeatAfter, ReuseTime;
    if c.registryTimeout != 0 {
      forall events: seq<Event>, k: nat | k < |events| && Returns(events[k]) && Run(events, k + 1, c).Some?
        ensures FreshAt(events, k + 1, c)
      {
        AnswersAreFresh(events, k, c);
      }
    } else {
      var t := ReuseTime(c) + c.latency + 1;
      OldBeatIsListed("a", t, c);
      NotFresh("a", t, c);
      var events := OneBeat("a", t);
      assert Returns(events[3]) && !FreshAt(events, 3 + 1, c);
    }
  }

  lemma NotFresh(a: string, t: Time, c: Config)
    requires c.registryTimeout == 0 && Plain(a) && t > ReuseTime(c) + c.latency
    ensures Run(OneBeat(a, t), 4, c).Some? && !FreshAt(OneBeat(a, t), 4, c)
  {
    hide Run, Plain;
    OldBeatIsListed(a, t, c);
    var w := Run(OneBeat(a, t), 4, c).value;
    assert a in w.cache.servers;
    assert !BeatAfter(w.log, a, w.time - (c.registryTimeout + ReuseTime(c) + c.latency));
  }
}
