// One node's read-through cache, as a value.
module GroupModel {
  import opened Wrappers
  import opened LruModel

  // What asking a peer gave: nobody to ask, a failed call, or an answer.
  datatype Reply<+V> = NoPeer | Failed | Answered(value: V)

  // A Get of a non-cached key: the peer's answer if there is one, otherwise the
  // getter's value, which is then cached.
  function Miss<V>(es: seq<Entry<V>>, key: string, own: Option<(V, nat)>, reply: Reply<V>, maxBytes: int)
    : (seq<Entry<V>>, Option<V>)
  {
    if reply.Answered? then (es, Some(reply.value))
    else match own
      case None => (es, None)
      case Some((v, len)) => (AfterAdd(es, Entry(key, v, len), maxBytes), Some(v))
  }

  // A value that was loaded here, whether nobody was asked or the peer failed, is
  // held afterwards, unless the cache was empty and the entry is larger than the
  // budget. A peer's answer is passed on and leaves the cache as it was.
  lemma LoadedIsHeld<V>(es: seq<Entry<V>>, key: string, own: Option<(V, nat)>, reply: Reply<V>, maxBytes: int)
    requires Lookup(es, key) == None && key != ""
    ensures var (after, answer) := NodeGet(es, key, own, reply, maxBytes);
      if reply.Answered? then after == es && answer == Some(reply.value)
      else match own
        case None => after == es && answer == None
        case Some((v, len)) =>
          answer == Some(v)
          && Lookup(after, key) == if es == [] && |key| + len > maxBytes then None else Some(v)
  {
    if !reply.Answered? && own.Some? {
      var e := Entry(key, own.value.0, own.value.1);
      GetAfterAdd(es, e, maxBytes);
      assert |Put(es, e)| == 1 <==> es == [];
    }
  }

  // A Get: an error for the empty key, the cached value, or a miss.
  function NodeGet<V>(es: seq<Entry<V>>, key: string, own: Option<(V, nat)>, reply: Reply<V>, maxBytes: int)
    : (seq<Entry<V>>, Option<V>)
  {
    if key == "" then (es, None)
    else if Lookup(es, key).Some? then (AfterGet(es, key), Lookup(es, key))
    else Miss(es, key, own, reply, maxBytes)
  }
}
