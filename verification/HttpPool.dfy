// The peer picker of a node: its ring and the clients of the other nodes.
module HttpPool {
  import opened Wrappers
  import opened ConsistentHash
  import H = HashRing
  import C = Cluster

  const BASE_PATH := "/_geeCache/"

  class HTTPPool {
    const self: string
    const hash: Hash
    var peers: H.Map?
    var httpGetters: map<string, string>  // base URLs by address

    ghost function Points(): Owners
      reads this, peers
    {
      if peers == null then map[] else peers.hashMap
    }

    // Every owner of a point has a client.
    ghost predicate Valid()
      reads this, peers
    {
      && (peers != null ==> peers.Valid() && peers.hash == hash && peers.replicas == C.REPLICAS)
      && (forall p :: p in Points() ==> Points()[p] in httpGetters)
      && (forall a :: a in httpGetters ==> httpGetters[a] == a + BASE_PATH)
    }

    constructor (self: string, hash: Hash)
      ensures Valid() && peers == null && this.self == self && this.hash == hash
    {
      this.self := self;
      this.hash := hash;
      peers := null;
      httpGetters := map[];
    }

    // Installs a new ring over the given addresses.
    method Set(addrs: seq<string>)
      requires Valid()
      modifies this
      ensures Valid() && peers != null && fresh(peers)
      ensures Points() == Ring(hash, C.REPLICAS, addrs)
    {
      var ring := new H.Map(C.REPLICAS, hash);
      ring.Add(addrs);
      var getters := map[];
      var i := 0;
      while i < |addrs|
        invariant 0 <= i <= |addrs|
        invariant forall k :: 0 <= k < i ==> addrs[k] in getters
        invariant forall a :: a in getters ==> getters[a] == a + BASE_PATH
      {
        getters := getters[addrs[i] := addrs[i] + BASE_PATH];
        i := i + 1;
      }
      AddNodesExtends(map[], hash, C.REPLICAS, addrs, |addrs|);
      assert addrs[..|addrs|] == addrs;
      peers := ring;
      httpGetters := getters;
    }

    // The client of the key's owner, unless that is this node or there is none.
    method PickPeer(key: string) returns (peer: Option<string>)
      requires Valid()
      ensures peer == match C.Pick(Points(), self, hash(key))
        case None => None
        case Some(owner) => Some(owner + BASE_PATH)
    {
      if peers != null {
        var owner := peers.Get(key);
        if owner != "" && owner != self {
          assert Points() != map[];
          assert Points().Keys != {} by { var p :| p in Points(); }
          assert OwnerPoint(Points().Keys, hash(key)) in Points();
          return Some(httpGetters[owner]);
        }
      }
      peer := None;
    }
  }
}
