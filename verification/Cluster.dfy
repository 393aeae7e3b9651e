// A cluster of caching nodes that forward each key to the owner their ring gives.
module Cluster {
  import opened Wrappers
  import opened LruModel
  import opened GroupModel
  import opened ConsistentHash

  type Bytes = seq<bv8>

  // A node: its ring, its cache and its budget.
  datatype Node = Node(ring: Owners, cache: seq<Entry<Bytes>>, maxBytes: int)

  // Nodes by address.
  type State = map<string, Node>

  type Getter = string -> Option<Bytes>

  // What happens to a forwarded request.
  datatype Delivery = Delivered | RequestLost | ReplyLost

  // The state after a Get, its answer, and how many requests were sent to peers.
  datatype Outcome = Outcome(state: State, answer: Option<Bytes>, forwards: nat)

  // The peer a node asks for a key: the owner, unless that is nobody or itself.
  ghost function Pick(ring: Owners, self: string, h: nat): Option<string>
  {
    var owner := Owner(ring, h);
    if owner != "" && owner != self then Some(owner) else None
  }

  ghost function Own(getter: Getter, key: string): Option<(Bytes, nat)>
  {
    match getter(key)
    case None => None
    case Some(b) => Some((b, |b|))
  }

  ghost function Update(s: State, n: string, cache: seq<Entry<Bytes>>): (r: State)
    requires n in s
    ensures r.Keys == s.Keys
  {
    s[n := s[n].(cache := cache)]
  }

  // The end of a Get at node n once its peer, if any, has replied.
  ghost function Finish(s: State, n: string, key: string, getter: Getter, reply: Reply<Bytes>, forwards: nat): (o: Outcome)
    requires n in s
    ensures o.state.Keys == s.Keys
  {
    var (cache, answer) := Miss(s[n].cache, key, Own(getter, key), reply, s[n].maxBytes);
    Outcome(Update(s, n, cache), answer, forwards)
  }

  // A Get at node n; None when forwarding has not ended within fuel steps. The
  // serving side turns a getter's error into an empty answer.
  ghost function GetAt(s: State, n: string, key: string, getter: Getter, hash: Hash, net: nat -> Delivery, fuel: nat)
    : (r: Option<Outcome>)
    requires n in s
    ensures r.Some? ==> r.value.state.Keys == s.Keys
    decreases fuel
  {
    if key == "" then Some(Outcome(s, None, 0))
    else if Lookup(s[n].cache, key).Some? then
      Some(Outcome(Update(s, n, AfterGet(s[n].cache, key)), Lookup(s[n].cache, key), 0))
    else
      match Pick(s[n].ring, n, hash(key))
      case None => Some(Finish(s, n, key, getter, NoPeer, 0))
      case Some(peer) =>
        if peer !in s || net(fuel).RequestLost? then Some(Finish(s, n, key, getter, Failed, 1))
        else if fuel == 0 then None
        else match GetAt(s, peer, key, getter, hash, net, fuel - 1)
          case None => None
          case Some(o) => Some(Forwarded(o, n, key, getter, net(fuel)))
  }

  // How a Get ends at node n after the peer has answered with o.
  ghost function Forwarded(o: Outcome, n: string, key: string, getter: Getter, delivery: Delivery): (r: Outcome)
    requires n in o.state
    ensures r.state.Keys == o.state.Keys
  {
    Finish(o.state, n, key, getter,
      if delivery.ReplyLost? then Failed else Answered(if o.answer.Some? then o.answer.value else []), o.forwards + 1)
  }

  // ---------- Every answer is the getter's ----------

  ghost predicate CachesGetter(s: State, getter: Getter)
  {
    forall n, x :: n in s && x in s[n].cache ==> getter(x.key) == Some(x.value)
  }

  lemma UpdateKeepsGetter(s: State, n: string, cache: seq<Entry<Bytes>>, getter: Getter)
    requires CachesGetter(s, getter) && n in s
    requires forall x :: x in cache ==> x in s[n].cache || getter(x.key) == Some(x.value)
    ensures CachesGetter(Update(s, n, cache), getter)
  {
  }

  lemma FinishKeepsGetter(s: State, n: string, key: string, getter: Getter, reply: Reply<Bytes>, forwards: nat)
    requires CachesGetter(s, getter) && n in s
    ensures CachesGetter(Finish(s, n, key, getter, reply, forwards).state, getter)
  {
    var own := Own(getter, key);
    var cache := Miss(s[n].cache, key, own, reply, s[n].maxBytes).0;
    if !reply.Answered? && own.Some? {
      StepMembers(s[n].cache, Add(Entry(key, own.value.0, own.value.1)), s[n].maxBytes);
    }
    UpdateKeepsGetter(s, n, cache, getter);
  }

  lemma LookupFromGetter(s: State, n: string, key: string, getter: Getter)
    requires CachesGetter(s, getter) && n in s && Lookup(s[n].cache, key).Some?
    ensures getter(key) == Lookup(s[n].cache, key)
    ensures CachesGetter(Update(s, n, AfterGet(s[n].cache, key)), getter)
  {
    var es := s[n].cache;
    assert es[IndexOf(es, key)] in es;
    StepMembers(es, Get(key), s[n].maxBytes);
    UpdateKeepsGetter(s, n, AfterGet(es, key), getter);
  }

  // Node n has a peer to ask, the peer is up, and both request and reply get through.
  ghost predicate PeerAnswers(s: State, n: string, h: nat, delivery: Delivery)
    requires n in s
  {
    var peer := Pick(s[n].ring, n, h);
    peer.Some? && peer.value in s && delivery.Delivered?
  }

  // Whatever the rings and the network do, a key the getter serves is answered
  // with its bytes; a key it does not serve is an empty success exactly if a peer
  // answers, and an error otherwise.
  lemma {:induction false} AnswersAreTheGetters(s: State, n: string, key: string, getter: Getter, hash: Hash,
                                                net: nat -> Delivery, fuel: nat)
    requires n in s && key != "" && CachesGetter(s, getter)
    ensures match GetAt(s, n, key, getter, hash, net, fuel)
      case None => true
      case Some(o) =>
        && o.state.Keys == s.Keys && CachesGetter(o.state, getter)
        && o.answer == if getter(key).Some? then getter(key)
             else if PeerAnswers(s, n, hash(key), net(fuel)) then Some([]) else None
    decreases fuel
  {
    hide Update, CachesGetter;
    if Lookup(s[n].cache, key).Some? {
      LookupFromGetter(s, n, key, getter);
    } else {
      match Pick(s[n].ring, n, hash(key))
      case None =>
        FinishKeepsGetter(s, n, key, getter, NoPeer, 0);
      case Some(peer) =>
        if peer !in s || net(fuel).RequestLost? {
          FinishKeepsGetter(s, n, key, getter, Failed, 1);
        } else if fuel > 0 {
          AnswersAreTheGetters(s, peer, key, getter, hash, net, fuel - 1);
          var sub := GetAt(s, peer, key, getter, hash, net, fuel - 1);
          if sub.Some? {
            var o := sub.value;
            var reply := Answered(if o.answer.Some? then o.answer.value else []);
            FinishKeepsGetter(o.state, n, key, getter, if net(fuel).ReplyLost? then Failed else reply, o.forwards + 1);
          }
        }
    }
  }

  // ---------- One forwarding step ----------

  // All nodes agree on the owner of a key.
  ghost predicate AgreeOn(s: State, h: nat)
  {
    forall n, m :: n in s && m in s ==> Owner(s[n].ring, h) == Owner(s[m].ring, h)
  }

  ghost predicate SameRings(s: State, t: State)
  {
    s.Keys == t.Keys && forall n :: n in s ==> s[n].ring == t[n].ring
  }

  // Each cached key is cached at its owner.
  ghost predicate CachedAtOwner(s: State, hash: Hash)
  {
    forall n, x :: n in s && x in s[n].cache ==> Owner(s[n].ring, hash(x.key)) == n
  }

  lemma FinishKeepsRings(s: State, n: string, key: string, getter: Getter, reply: Reply<Bytes>, forwards: nat)
    requires n in s
    ensures SameRings(s, Finish(s, n, key, getter, reply, forwards).state)
    ensures SameRings(s, Update(s, n, AfterGet(s[n].cache, key)))
  {
  }

  // A Get at a node that has nobody to ask.
  lemma AnsweredAtOnce(s: State, n: string, key: string, getter: Getter, hash: Hash, net: nat -> Delivery, fuel: nat)
    requires n in s && Pick(s[n].ring, n, hash(key)) == None
    ensures var r := GetAt(s, n, key, getter, hash, net, fuel);
      r.Some? && r.value.forwards == 0 && SameRings(s, r.value.state)
  {
    hide Update, AfterGet, SameRings;
    FinishKeepsRings(s, n, key, getter, NoPeer, 0);
    assert SameRings(s, s) by { SameRingsReflexive(s); }
  }

  lemma SameRingsReflexive(s: State)
    ensures SameRings(s, s)
  {
  }

  lemma SameRingsTransitive(s: State, t: State, u: State)
    requires SameRings(s, t) && SameRings(t, u)
    ensures SameRings(s, u)
  {
  }

  // The ways a Get can go when nobody but the owner has someone to ask.
  lemma GetAtForwards(s: State, n: string, key: string, getter: Getter, hash: Hash, net: nat -> Delivery, fuel: nat, peer: string)
    requires n in s && Pick(s[n].ring, n, hash(key)) == Some(peer) && fuel >= 1
    requires peer in s ==> Pick(s[peer].ring, peer, hash(key)) == None
    ensures var r := GetAt(s, n, key, getter, hash, net, fuel);
      if key == "" then r == Some(Outcome(s, None, 0))
      else if Lookup(s[n].cache, key).Some? then
        r == Some(Outcome(Update(s, n, AfterGet(s[n].cache, key)), Lookup(s[n].cache, key), 0))
      else if peer !in s || net(fuel).RequestLost? then r == Some(Finish(s, n, key, getter, Failed, 1))
      else
        var sub := GetAt(s, peer, key, getter, hash, net, fuel - 1);
        sub.Some? && r == Some(Forwarded(sub.value, n, key, getter, net(fuel)))
  {
    hide Finish, Update, AfterGet, Forwarded;
  }

  lemma ForwardedKeepsRings(s: State, o: Outcome, n: string, key: string, getter: Getter, delivery: Delivery)
    requires n in s && n in o.state && SameRings(s, o.state)
    ensures var f := Forwarded(o, n, key, getter, delivery); SameRings(s, f.state) && f.forwards == o.forwards + 1
  {
    hide Update, SameRings;
    var reply := if delivery.ReplyLost? then Failed else Answered(if o.answer.Some? then o.answer.value else []);
    FinishKeepsRings(o.state, n, key, getter, reply, o.forwards + 1);
    SameRingsTransitive(s, o.state, Finish(o.state, n, key, getter, reply, o.forwards + 1).state);
  }

  lemma FinishForwards(s: State, n: string, key: string, getter: Getter, reply: Reply<Bytes>, forwards: nat)
    requires n in s
    ensures Finish(s, n, key, getter, reply, forwards).forwards == forwards
  {
  }

  // If the nodes agree, a Get ends after one request to the owner if the key is not
  // cached here and the owner is another node, and after none otherwise; it
  // changes no ring.
  lemma ForwardedAtMostOnce(s: State, n: string, key: string, getter: Getter, hash: Hash,
                            net: nat -> Delivery, fuel: nat)
    requires n in s && AgreeOn(s, hash(key)) && fuel >= 1
    ensures var r := GetAt(s, n, key, getter, hash, net, fuel);
      && r.Some? && SameRings(s, r.value.state)
      && r.value.forwards ==
           if key != "" && Lookup(s[n].cache, key) == None && Pick(s[n].ring, n, hash(key)).Some? then 1 else 0
  {
    hide GetAt, Finish, Forwarded, Update, AfterGet, SameRings, Lookup;
    match Pick(s[n].ring, n, hash(key))
    case None =>
      AnsweredAtOnce(s, n, key, getter, hash, net, fuel);
    case Some(peer) =>
      SameRingsReflexive(s);
      FinishKeepsRings(s, n, key, getter, Failed, 1);
      FinishForwards(s, n, key, getter, Failed, 1);
      GetAtForwards(s, n, key, getter, hash, net, fuel, peer);
      if peer in s {
        AnsweredAtOnce(s, peer, key, getter, hash, net, fuel - 1);
        ForwardedKeepsRings(s, GetAt(s, peer, key, getter, hash, net, fuel - 1).value, n, key, getter, net(fuel));
      }
  }

  lemma LoadKeepsOwner(s: State, n: string, key: string, getter: Getter, hash: Hash, reply: Reply<Bytes>, forwards: nat)
    requires n in s && CachedAtOwner(s, hash)
    requires reply.Answered? || Owner(s[n].ring, hash(key)) == n
    ensures CachedAtOwner(Finish(s, n, key, getter, reply, forwards).state, hash)
  {
    var own := Own(getter, key);
    if !reply.Answered? && own.Some? {
      StepMembers(s[n].cache, Add(Entry(key, own.value.0, own.value.1)), s[n].maxBytes);
    }
  }

  lemma HitKeepsOwner(s: State, n: string, key: string, hash: Hash)
    requires n in s && CachedAtOwner(s, hash)
    ensures CachedAtOwner(Update(s, n, AfterGet(s[n].cache, key)), hash)
  {
    StepMembers(s[n].cache, Get(key), s[n].maxBytes);
  }

  // If moreover every owner is up and no call fails, keys are cached only at their
  // owners.
  lemma OnlyOwnersCache(s: State, n: string, key: string, getter: Getter, hash: Hash, net: nat -> Delivery, fuel: nat)
    requires n in s && AgreeOn(s, hash(key)) && fuel >= 1
    requires CachedAtOwner(s, hash)
    requires Owner(s[n].ring, hash(key)) in s && Owner(s[n].ring, hash(key)) != ""
    requires net(fuel).Delivered?
    ensures var r := GetAt(s, n, key, getter, hash, net, fuel);
      r.Some? && CachedAtOwner(r.value.state, hash)
  {
    hide GetAt, Forwarded, Update, AfterGet, CachedAtOwner, Lookup, Owner, AgreeOn;
    match Pick(s[n].ring, n, hash(key))
    case None =>
      OwnerCaches(s, n, key, getter, hash, net, fuel);
    case Some(peer) =>
      AgreedOwner(s, n, peer, hash(key));
      HitKeepsOwner(s, n, key, hash);
      GetAtForwards(s, n, key, getter, hash, net, fuel, peer);
      OwnerCaches(s, peer, key, getter, hash, net, fuel - 1);
      AnswerKeepsOwner(GetAt(s, peer, key, getter, hash, net, fuel - 1).value, n, key, getter, hash, net(fuel));
  }

  lemma AnswerKeepsOwner(o: Outcome, n: string, key: string, getter: Getter, hash: Hash, delivery: Delivery)
    requires n in o.state && CachedAtOwner(o.state, hash) && delivery.Delivered?
    ensures CachedAtOwner(Forwarded(o, n, key, getter, delivery).state, hash)
  {
    hide Finish, CachedAtOwner;
    LoadKeepsOwner(o.state, n, key, getter, hash,
      Answered(if o.answer.Some? then o.answer.value else []), o.forwards + 1);
  }

  lemma AgreedOwner(s: State, n: string, m: string, h: nat)
    requires AgreeOn(s, h) && n in s && m in s
    ensures Owner(s[n].ring, h) == Owner(s[m].ring, h)
  {
  }

  lemma OwnerCaches(s: State, n: string, key: string, getter: Getter, hash: Hash, net: nat -> Delivery, fuel: nat)
    requires n in s && CachedAtOwner(s, hash) && Owner(s[n].ring, hash(key)) == n
    ensures var r := GetAt(s, n, key, getter, hash, net, fuel);
      r.Some? && CachedAtOwner(r.value.state, hash)
  {
    hide Finish, Update, AfterGet, CachedAtOwner;
    HitKeepsOwner(s, n, key, hash);
    LoadKeepsOwner(s, n, key, getter, hash, NoPeer, 0);
  }

  // Between two nodes that each take the other for the owner of a key, a Get of it
  // never ends.
  lemma {:induction false} DisagreementLoops(s: State, a: string, b: string, key: string, getter: Getter, hash: Hash,
                                             net: nat -> Delivery, fuel: nat)
    requires a in s && b in s && a != b && a != "" && b != "" && key != ""
    requires Owner(s[a].ring, hash(key)) == b && Owner(s[b].ring, hash(key)) == a
    requires s[a].cache == [] && s[b].cache == [] && forall i: nat :: net(i).Delivered?
    ensures GetAt(s, a, key, getter, hash, net, fuel) == None
    ensures GetAt(s, b, key, getter, hash, net, fuel) == None
  {
    if fuel > 0 {
      DisagreementLoops(s, a, b, key, getter, hash, net, fuel - 1);
    }
  }

  // ---------- Runs of a cluster ----------

  const REPLICAS := 50

  // Every node's ring was made from the same addresses, each in its own order.
  ghost predicate Formed(s: State, hash: Hash)
  {
    forall n :: n in s ==> RingOf(s[n].ring, hash, s.Keys)
  }

  ghost predicate RingOf(ring: Owners, hash: Hash, addrs: set<string>)
  {
    exists order: seq<string> :: (forall x :: x in order <==> x in addrs) && ring == Ring(hash, REPLICAS, order)
  }

  lemma FormedAgree(s: State, hash: Hash, h: nat)
    requires Formed(s, hash) && Separated(hash, REPLICAS, s.Keys)
    ensures AgreeOn(s, h)
  {
    forall n, m | n in s && m in s ensures Owner(s[n].ring, h) == Owner(s[m].ring, h) {
      assert RingOf(s[n].ring, hash, s.Keys) && RingOf(s[m].ring, hash, s.Keys);
      var a: seq<string> :| (forall x :: x in a <==> x in s.Keys) && s[n].ring == Ring(hash, REPLICAS, a);
      var b: seq<string> :| (forall x :: x in b <==> x in s.Keys) && s[m].ring == Ring(hash, REPLICAS, b);
      SameNodesSameRing(hash, REPLICAS, a, b, s.Keys);
    }
  }

  // In a formed cluster every key has an owner, and it is one of the nodes.
  lemma FormedOwner(s: State, n: string, hash: Hash, h: nat)
    requires Formed(s, hash) && Separated(hash, REPLICAS, s.Keys) && n in s
    ensures Owner(s[n].ring, h) in s
  {
    assert RingOf(s[n].ring, hash, s.Keys);
    var order: seq<string> :| (forall x :: x in order <==> x in s.Keys) && s[n].ring == Ring(hash, REPLICAS, order);
    var p0 := hash(Label(0, n));
    assert HasPoint(hash, REPLICAS, n, p0);
    SeparatedOwner(hash, REPLICAS, order, s.Keys, p0);
    var p := OwnerPoint(s[n].ring.Keys, h);
    SeparatedOwner(hash, REPLICAS, order, s.Keys, p);
  }

  // ---------- When every Get ends ----------

  ghost predicate Ends(s: State, n: string, key: string, getter: Getter, hash: Hash, net: nat -> Delivery)
    requires n in s
  {
    exists fuel: nat :: GetAt(s, n, key, getter, hash, net, fuel).Some?
  }

  // Whatever orders the addresses were given in, whatever is cached and whatever
  // the network does.
  ghost predicate AlwaysEnds(members: set<string>, getter: Getter, hash: Hash)
  {
    forall s: State, n: string, key: string, net: nat -> Delivery ::
      s.Keys == members && Formed(s, hash) && n in s ==> Ends(s, n, key, getter, hash, net)
  }

  ghost predicate Fresh(s: State)
  {
    forall n :: n in s ==> s[n].cache == []
  }

  // Node x got the addresses in order b, all others in order a.
  ghost function Split(members: set<string>, hash: Hash, x: string, a: seq<string>, b: seq<string>): (s: State)
    ensures s.Keys == members
  {
    map m | m in members :: Node(Ring(hash, REPLICAS, if m == x then b else a), [], 0)
  }

  lemma SplitIsFormed(members: set<string>, hash: Hash, x: string, a: seq<string>, b: seq<string>)
    requires Lists(a, members) && Lists(b, members)
    ensures Formed(Split(members, hash, x, a, b), hash)
  {
    hide Ring;
    assert RingOf(Ring(hash, REPLICAS, a), hash, members) && RingOf(Ring(hash, REPLICAS, b), hash, members);
  }

  lemma SplitLoops(members: set<string>, hash: Hash, x: string, y: string, a: seq<string>, b: seq<string>,
                   key: string, getter: Getter, net: nat -> Delivery)
    requires x in members && y in members && x != y && x != "" && y != "" && key != ""
    requires Owner(Ring(hash, REPLICAS, a), hash(key)) == x && Owner(Ring(hash, REPLICAS, b), hash(key)) == y
    requires forall i: nat :: net(i).Delivered?
    ensures !Ends(Split(members, hash, x, a, b), x, key, getter, hash, net)
  {
    hide GetAt, Ring, Owner;
    var s := Split(members, hash, x, a, b);
    forall fuel: nat ensures GetAt(s, x, key, getter, hash, net, fuel) == None {
      DisagreementLoops(s, x, y, key, getter, hash, net, fuel);
    }
  }

  // Two nodes with replicas of one hash, each of which was given the other's
  // address last: a Get of a key with that hash never ends, between empty caches
  // and without any failure.
  lemma UnseparatedLoops(members: set<string>, getter: Getter, hash: Hash, net: nat -> Delivery)
    returns (s: State, n: string, key: string)
    requires "" !in members && !Separated(hash, REPLICAS, members) && forall i: nat :: net(i).Delivered?
    ensures s.Keys == members && Formed(s, hash) && Fresh(s) && n in s
    ensures !Ends(s, n, key, getter, hash, net)
  {
    var x, y, i: nat, j: nat :| x in members && y in members && x != y && i < REPLICAS && j < REPLICAS
      && hash(Label(i, x)) == hash(Label(j, y));
    hide Ring, Owner, Ends, Formed, Separated, Lists;
    var a := LastOwnsItsPoints(hash, REPLICAS, members, x, i);
    var b := LastOwnsItsPoints(hash, REPLICAS, members, y, j);
    s, n, key := Split(members, hash, x, a, b), x, Label(i, x);
    SplitIsFormed(members, hash, x, a, b);
    SplitLoops(members, hash, x, y, a, b, key, getter, net);
  }

  // Every Get ends in every cluster of these nodes exactly if the hash separates them.
  lemma EveryGetEndsIff(members: set<string>, getter: Getter, hash: Hash)
    requires "" !in members
    ensures AlwaysEnds(members, getter, hash) <==> Separated(hash, REPLICAS, members)
  {
    if Separated(hash, REPLICAS, members) {
      forall s: State, n: string, key: string, net: nat -> Delivery | s.Keys == members && Formed(s, hash) && n in s
        ensures Ends(s, n, key, getter, hash, net)
      {
        FormedAgree(s, hash, hash(key));
        hide GetAt, Formed, Separated;
        ForwardedAtMostOnce(s, n, key, getter, hash, net, 1);
      }
    } else {
      var s, n, key := UnseparatedLoops(members, getter, hash, AllDelivered);
    }
  }

  // With a hash that separates labels: exactly if no address is another's with a
  // digit in front.
  lemma EveryGetEndsIffNamesApart(members: set<string>, getter: Getter, hash: Hash)
    requires "" !in members && SeparatesLabels(hash, REPLICAS, members)
    ensures AlwaysEnds(members, getter, hash) <==>
      forall a, b :: a in members && b in members ==> !OneDigitMore(a, b)
  {
    EveryGetEndsIff(members, getter, hash);
    DistinctLabelsSeparate(hash, REPLICAS, members);
    hide AlwaysEnds, Separated, SeparatesLabels;
    forall a, b | a in members && b in members ensures DigitsMore(a, b, REPLICAS) <==> OneDigitMore(a, b) {
      ClashIsOneDigit(a, b, REPLICAS);
    }
  }

  ghost function AllDelivered(i: nat): Delivery
  {
    Delivered
  }

  // ---------- Runs ----------

  datatype Request = Request(node: string, key: string, net: nat -> Delivery)

  // The state after the first k requests; one forwarding step is allowed to each.
  ghost function After(s: State, reqs: seq<Request>, k: nat, getter: Getter, hash: Hash): (r: Option<State>)
    requires k <= |reqs| && forall i :: 0 <= i < |reqs| ==> reqs[i].node in s
    ensures r.Some? ==> r.value.Keys == s.Keys
  {
    if k == 0 then Some(s)
    else match After(s, reqs, k - 1, getter, hash)
      case None => None
      case Some(t) =>
        match GetAt(t, reqs[k - 1].node, reqs[k - 1].key, getter, hash, reqs[k - 1].net, 1)
        case None => None
        case Some(o) => Some(o.state)
  }

  ghost predicate Good(s: State, getter: Getter, hash: Hash)
  {
    Formed(s, hash) && Separated(hash, REPLICAS, s.Keys) && CachesGetter(s, getter)
  }

  ghost predicate AnsweredWell(s: State, req: Request, getter: Getter, hash: Hash)
    requires req.node in s
  {
    match GetAt(s, req.node, req.key, getter, hash, req.net, 1)
    case None => false
    case Some(o) =>
      && o.forwards <= 1
      && (req.key == "" ==> o == Outcome(s, None, 0))
      && (req.key != "" ==> o.answer == DueAnswer(s, req, getter, hash))
  }

  ghost function DueAnswer(s: State, req: Request, getter: Getter, hash: Hash): Option<Bytes>
    requires req.node in s
  {
    if getter(req.key).Some? then getter(req.key)
    else if PeerAnswers(s, req.node, hash(req.key), req.net(1)) then Some([]) else None
  }

  // A key that the getter does not serve is an error exactly if it is asked for at
  // its owner or the owner's answer does not get through; elsewhere it is an
  // empty success.
  lemma UnservedKeyIsErrorIff(s: State, n: string, key: string, getter: Getter, hash: Hash, net: nat -> Delivery)
    requires Good(s, getter, hash) && "" !in s && n in s && key != "" && getter(key) == None
    ensures GetAt(s, n, key, getter, hash, net, 1).Some?
    ensures GetAt(s, n, key, getter, hash, net, 1).value.answer == None <==>
      Owner(s[n].ring, hash(key)) == n || !net(1).Delivered?
  {
    hide GetAt;
    GoodOwner(s, n, key, getter, hash);
    ForwardedAtMostOnce(s, n, key, getter, hash, net, 1);
    AnswersAreTheGetters(s, n, key, getter, hash, net, 1);
  }

  // The empty key is an error and changes nothing.
  lemma EmptyKeyIsRefused(s: State, n: string, getter: Getter, hash: Hash, net: nat -> Delivery, fuel: nat)
    requires n in s
    ensures GetAt(s, n, "", getter, hash, net, fuel) == Some(Outcome(s, None, 0))
  {
  }

  // After a Get of a served key that reaches its owner, the owner holds the key,
  // unless the cache was empty and the entry is larger than the budget.
  lemma OwnerHoldsKey(s: State, n: string, key: string, getter: Getter, hash: Hash, net: nat -> Delivery)
    requires Good(s, getter, hash) && "" !in s && n in s && key != "" && getter(key).Some? && net(1).Delivered?
    requires Owner(s[n].ring, hash(key)) == n || Lookup(s[n].cache, key) == None
    ensures GetAt(s, n, key, getter, hash, net, 1).Some?
    ensures var t, o := GetAt(s, n, key, getter, hash, net, 1).value.state, Owner(s[n].ring, hash(key));
      && o in s && o in t.Keys
      && Lookup(t[o].cache, key) ==
           if s[o].cache == [] && |key| + |getter(key).value| > s[o].maxBytes then None else getter(key)
  {
    hide GetAt, Update, AfterGet, Lookup, Forwarded, Good, AgreeOn, CachesGetter;
    GoodOwner(s, n, key, getter, hash);
    GoodCaches(s, getter, hash);
    var o := Owner(s[n].ring, hash(key));
    AgreedOwner(s, n, o, hash(key));
    OwnerKeepsKey(s, o, key, getter, hash, net, 1);
    if o != n {
      OwnerKeepsKey(s, o, key, getter, hash, net, 0);
      GetAtForwards(s, n, key, getter, hash, net, 1, o);
      ForwardedLeavesOwner(GetAt(s, o, key, getter, hash, net, 0).value, n, o, key, getter, net(1));
    }
  }

  lemma GoodCaches(s: State, getter: Getter, hash: Hash)
    requires Good(s, getter, hash)
    ensures CachesGetter(s, getter)
  {
  }

  lemma OwnerKeepsKey(s: State, o: string, key: string, getter: Getter, hash: Hash, net: nat -> Delivery, fuel: nat)
    requires o in s && CachesGetter(s, getter) && key != "" && getter(key).Some? && Owner(s[o].ring, hash(key)) == o
    ensures var r := GetAt(s, o, key, getter, hash, net, fuel);
      && r.Some?
      && Lookup(r.value.state[o].cache, key) ==
           if s[o].cache == [] && |key| + |getter(key).value| > s[o].maxBytes then None else getter(key)
  {
    var es := s[o].cache;
    if Lookup(es, key).Some? {
      LookupFromGetter(s, o, key, getter);
      GetFindsAgain(es, key);
    } else {
      var e := Entry(key, getter(key).value, |getter(key).value|);
      GetAfterAdd(es, e, s[o].maxBytes);
    }
  }

  // A key that was found is found again, in front.
  lemma GetFindsAgain<V>(es: seq<Entry<V>>, key: string)
    requires Lookup(es, key).Some?
    ensures Lookup(AfterGet(es, key), key) == Lookup(es, key)
  {
  }

  lemma ForwardedLeavesOwner(o: Outcome, n: string, m: string, key: string, getter: Getter, delivery: Delivery)
    requires n in o.state && m in o.state && m != n && delivery.Delivered?
    ensures Forwarded(o, n, key, getter, delivery).state[m] == o.state[m]
  {
  }

  lemma GetKeepsGood(s: State, req: Request, getter: Getter, hash: Hash)
    requires req.node in s && Good(s, getter, hash)
    ensures AnsweredWell(s, req, getter, hash)
    ensures GetAt(s, req.node, req.key, getter, hash, req.net, 1).Some?
    ensures Good(GetAt(s, req.node, req.key, getter, hash, req.net, 1).value.state, getter, hash)
  {
    EmptyKeyIsRefused(s, req.node, getter, hash, req.net, 1);
    hide GetAt;
    FormedAgree(s, hash, hash(req.key));
    ForwardedAtMostOnce(s, req.node, req.key, getter, hash, req.net, 1);
    if req.key != "" { AnswersAreTheGetters(s, req.node, req.key, getter, hash, req.net, 1); }
    var t := GetAt(s, req.node, req.key, getter, hash, req.net, 1).value.state;
    forall n | n in t ensures RingOf(t[n].ring, hash, t.Keys) {
      assert t[n].ring == s[n].ring && RingOf(s[n].ring, hash, s.Keys);
    }
  }

  // In every run of a cluster whose nodes were given the same addresses, in any
  // orders, under a hash that separates them, each Get ends after at most one
  // forwarding step with the getter's answer, whatever the network does; the empty
  // key is refused.
  lemma {:induction false} EveryGetIsAnswered(s: State, reqs: seq<Request>, k: nat, getter: Getter, hash: Hash)
    requires k <= |reqs| && forall i :: 0 <= i < |reqs| ==> reqs[i].node in s
    requires Good(s, getter, hash)
    ensures var t := After(s, reqs, k, getter, hash);
      && t.Some? && Good(t.value, getter, hash)
      && (k < |reqs| ==> AnsweredWell(t.value, reqs[k], getter, hash))
  {
    hide GetAt, Good, AnsweredWell;
    if k > 0 {
      EveryGetIsAnswered(s, reqs, k - 1, getter, hash);
      GetKeepsGood(After(s, reqs, k - 1, getter, hash).value, reqs[k - 1], getter, hash);
    }
    if k < |reqs| {
      GetKeepsGood(After(s, reqs, k, getter, hash).value, reqs[k], getter, hash);
    }
  }

  // If no call fails, at every moment keys are cached only at their owners.
  lemma {:induction false} RunCachesAtOwners(s: State, reqs: seq<Request>, k: nat, getter: Getter, hash: Hash)
    requires k <= |reqs| && forall i :: 0 <= i < |reqs| ==> reqs[i].node in s
    requires forall i :: 0 <= i < |reqs| ==> reqs[i].net(1).Delivered?
    requires Good(s, getter, hash) && "" !in s && CachedAtOwner(s, hash)
    ensures After(s, reqs, k, getter, hash).Some?
    ensures CachedAtOwner(After(s, reqs, k, getter, hash).value, hash)
  {
    hide GetAt, CachedAtOwner, Good, AgreeOn, AnsweredWell;
    if k > 0 {
      RunCachesAtOwners(s, reqs, k - 1, getter, hash);
      EveryGetIsAnswered(s, reqs, k - 1, getter, hash);
      var t, req := After(s, reqs, k - 1, getter, hash).value, reqs[k - 1];
      GoodOwner(t, req.node, req.key, getter, hash);
      OnlyOwnersCache(t, req.node, req.key, getter, hash, req.net, 1);
    }
  }

  lemma GoodOwner(s: State, n: string, key: string, getter: Getter, hash: Hash)
    requires Good(s, getter, hash) && n in s
    ensures AgreeOn(s, hash(key)) && Owner(s[n].ring, hash(key)) in s
  {
    FormedAgree(s, hash, hash(key));
    FormedOwner(s, n, hash, hash(key));
  }
}
