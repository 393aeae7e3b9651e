// The client object: its critical sections are proved against RpcShared.
module RpcClient {
  import opened Wrappers
  import S = RpcShared

  datatype Error = ShutDown | Other(code: int)

  class Call {
    var Seq: nat
    var Error: Option<Error>
    var delivered: nat      // how often the call was put on its Done channel

    constructor ()
      ensures Seq == 0 && Error == None && delivered == 0
    {
      Seq := 0;
      Error := None;
      delivered := 0;
    }

    method Done()
      modifies `delivered
      ensures delivered == old(delivered) + 1
    {
      delivered := delivered + 1;
    }
  }

  class Client {
    var nextSeq: nat
    var pending: map<nat, Call>
    var closing: bool
    var shutdown: bool

    ghost function Shared(): S.Shared<Call>
      reads this
    {
      S.Shared(nextSeq, pending, closing, shutdown)
    }

    constructor ()
      ensures Shared() == S.Initial()
    {
      nextSeq := 1;
      pending := map[];
      closing := false;
      shutdown := false;
    }

    method Close() returns (error: Option<Error>)
      modifies this
      ensures Shared() == S.Close(old(Shared())).0
      ensures error.None? == S.Close(old(Shared())).1
      ensures closing && (error.None? <==> !old(closing))
      ensures shutdown == old(shutdown) && pending == old(pending) && nextSeq == old(nextSeq)
    {
      if closing {
        return Some(ShutDown);
      }
      closing := true;
      error := None;
    }

    method IsAvailable() returns (b: bool)
      ensures b == !S.Unavailable(Shared()) && b == (!shutdown && !closing)
    {
      b := !(shutdown || closing);
    }

    method RegisterCall(call: Call) returns (result: Result<nat, Error>)
      modifies this, call`Seq
      ensures Shared() == S.Register(old(Shared()), call).0
      ensures match S.Register(old(Shared()), call).1
        case Some(n) => result == Ok(n) && call.Seq == n
        case None => result == Err(ShutDown) && call.Seq == old(call.Seq)
      ensures closing == old(closing) && shutdown == old(shutdown)
      ensures old(closing) || old(shutdown) ==> result.Err? && pending == old(pending) && nextSeq == old(nextSeq)
      ensures !old(closing) && !old(shutdown) ==>
        result == Ok(old(nextSeq)) && pending == old(pending)[old(nextSeq) := call] && nextSeq == (old(nextSeq) + 1) % S.WRAP
    {
      if shutdown || closing {
        return Err(ShutDown);
      }
      call.Seq := nextSeq;
      pending := pending[call.Seq := call];
      nextSeq := (nextSeq + 1) % S.WRAP;
      result := Ok(call.Seq);
    }

    method RemoveCall(n: nat) returns (call: Call?)
      modifies this
      ensures Shared() == S.Remove(old(Shared()), n).0
      ensures call == match S.Remove(old(Shared()), n).1 case Some(c) => c case None => null
      ensures closing == old(closing) && shutdown == old(shutdown) && nextSeq == old(nextSeq)
      ensures old(closing) || old(shutdown) ==> call == null && pending == old(pending)
      ensures !old(closing) && !old(shutdown) ==>
        pending == old(pending) - {n} && call == (if n in old(pending) then old(pending)[n] else null)
    {
      if shutdown || closing {
        return null;
      }
      call := if n in pending then pending[n] else null;
      pending := pending - {n};
    }

    // Every pending call is delivered once for each number it is pending under,
    // with the given error, and no other call is touched.
    method TerminateCalls(error: Option<Error>)
      modifies this`shutdown, pending.Values
      ensures Shared() == S.Terminate(old(Shared()))
      ensures shutdown && closing == old(closing) && pending == old(pending) && nextSeq == old(nextSeq)
      ensures forall c :: c in pending.Values ==>
        c.Error == error && c.delivered == old(c.delivered) + |S.NumbersOf(pending, c)|
    {
      hide S.NumbersOf;
      shutdown := true;
      PartOfNone(pending);
      var left := pending.Keys;
      while left != {}
        invariant left <= pending.Keys && shutdown
        invariant forall c :: c in pending.Values ==>
          c.delivered + |S.NumbersOf(Part(pending, left), c)| == old(c.delivered) + |S.NumbersOf(pending, c)|
        invariant forall n :: n in pending && n !in left ==> pending[n].Error == error
        decreases left
      {
        var n :| n in left;
        var call := pending[n];
        PartShrinks(pending, left, n);
        left := left - {n};
        call.Error := error;
        call.Done();
      }
      PartOfNone(pending);
    }
  }

  // The calls that are pending under the given numbers.
  ghost function Part<C>(pending: map<nat, C>, left: set<nat>): map<nat, C>
  {
    map n | n in pending && n in left :: pending[n]
  }

  lemma PartShrinks<C>(pending: map<nat, C>, left: set<nat>, n: nat)
    requires n in left && n in pending
    ensures forall c ::
      |S.NumbersOf(Part(pending, left), c)| ==
      |S.NumbersOf(Part(pending, left - {n}), c)| + if c == pending[n] then 1 else 0
  {
    forall c
      ensures |S.NumbersOf(Part(pending, left), c)| ==
        |S.NumbersOf(Part(pending, left - {n}), c)| + if c == pending[n] then 1 else 0
    {
      var was, now := S.NumbersOf(Part(pending, left), c), S.NumbersOf(Part(pending, left - {n}), c);
      assert was == if c == pending[n] then now + {n} else now;
    }
  }

  lemma PartOfNone<C>(pending: map<nat, C>)
    ensures forall c :: S.NumbersOf(Part(pending, {}), c) == {}
    ensures Part(pending, pending.Keys) == pending
  {
  }
}
