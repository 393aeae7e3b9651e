// The state that senders, the receiver, cancelling callers and Close share, and
// what each critical section of the client does to it.
module RpcShared {
  import opened Wrappers

  const WRAP := 0x1_0000_0000_0000_0000  // sequence numbers have 64 bits

  // C stands for calls.
  datatype Shared<C> = Shared(nextSeq: nat, pending: map<nat, C>, closing: bool, shutdown: bool)

  function Initial<C>(): Shared<C>
  {
    Shared(1, map[], false, false)
  }

  predicate Unavailable<C>(s: Shared<C>)
  {
    s.shutdown || s.closing
  }

  // registerCall: the number given to the call, or none.
  function Register<C>(s: Shared<C>, c: C): (Shared<C>, Option<nat>)
  {
    if Unavailable(s) then (s, None)
    else (s.(nextSeq := (s.nextSeq + 1) % WRAP, pending := s.pending[s.nextSeq := c]), Some(s.nextSeq))
  }

  // removeCall: the call registered under a number, if any, which is forgotten.
  function Remove<C>(s: Shared<C>, n: nat): (Shared<C>, Option<C>)
  {
    if Unavailable(s) then (s, None)
    else (s.(pending := s.pending - {n}), if n in s.pending then Some(s.pending[n]) else None)
  }

  // Close: whether it was the first.
  function Close<C>(s: Shared<C>): (Shared<C>, bool)
  {
    if s.closing then (s, false) else (s.(closing := true), true)
  }

  // terminateCalls, apart from completing the pending calls.
  function Terminate<C>(s: Shared<C>): Shared<C>
  {
    s.(shutdown := true)
  }

  // The numbers under which a call is pending.
  function NumbersOf<C(==)>(pending: map<nat, C>, c: C): set<nat>
  {
    set n | n in pending && pending[n] == c
  }
}
