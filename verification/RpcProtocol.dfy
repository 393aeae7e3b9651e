// The client protocol: callers of Client.Call, the receiver and Close, one step
// per critical section or blocking operation, against a server that may send any
// reply at any time.
module RpcProtocol {
  import opened Wrappers
  import S = RpcShared

  type Id = nat

  datatype CallerPc =
    | Entering                         // before locking sending
    | Registering                      // from here to Leaving: holds sending
    | Refused
    | Writing(n: nat)
    | WriteFailed(n: nat)
    | Reclaimed(call: Option<Id>)      // has removed the call it failed to write
    | Leaving
    | Selecting                        // waits for the call or its context
    | Cancelling
    | Received
    | Cancelled

  datatype ReceiverPc =
    | Reading
    | Got(n: nat, remoteError: bool)
    | Holding(n: nat, remoteError: bool, call: Option<Id>)
    | Stopping(error: bool)
    | Terminating(error: bool)         // holds sending
    | Stopped

  // Why done was called.
  datatype Completion =
    | ByRefusal
    | ByWriteError
    | ByReply(n: nat, remoteError: bool, bodyOk: bool)
    | ByTermination(error: bool)

  // One Client.Call: Seq, the completions of its Call object so far, and how
  // often a canceller took it out of the table.
  datatype CallState = CallState(pc: CallerPc, num: nat, done: seq<Completion>, dropped: nat)

  datatype Holder = Caller(id: Id) | Receiver

  datatype State = State(
    shared: S.Shared<Id>,
    sending: Option<Holder>,
    calls: map<Id, CallState>,
    receiver: ReceiverPc,
    order: seq<Id>,                    // the calls in the order they were registered
    wire: seq<nat>)                    // the numbers of the requests written

  datatype Event =
    | Begin(id: Id)
    | Act(id: Id)
    | Write(id: Id, ok: bool)
    | Take(id: Id)
    | Cancel(id: Id)
    | Header(n: nat, remoteError: bool)
    | HeaderFails
    | Body(ok: bool)
    | Receive
    | Close

  function Initial(): State
  {
    State(S.Initial(), None, map[], Reading, [], [])
  }

  // The channel has one slot, which the caller empties when it receives.
  predicate Room(c: CallState, more: nat)
  {
    |c.done| + more <= if c.pc.Received? then 2 else 1
  }

  function Goto(s: State, id: Id, pc: CallerPc): State
    requires id in s.calls
  {
    s.(calls := s.calls[id := s.calls[id].(pc := pc)])
  }

  function Complete(s: State, id: Id, how: Completion): Option<State>
  {
    if id in s.calls && Room(s.calls[id], 1) then
      Some(s.(calls := s.calls[id := s.calls[id].(done := s.calls[id].done + [how])]))
    else None
  }

  function Drop(s: State, call: Option<Id>): State
  {
    if call.Some? && call.value in s.calls then
      s.(calls := s.calls[call.value := s.calls[call.value].(dropped := s.calls[call.value].dropped + 1)])
    else s
  }

  // A critical section of send or of Call's cancellation, unless it is blocked.
  function CallerStep(s: State, id: Id): Option<State>
    requires id in s.calls
  {
    match s.calls[id].pc
    case Entering =>
      if s.sending.Some? then None else Some(Goto(s, id, Registering).(sending := Some(Caller(id))))
    case Registering =>
      (match S.Register(s.shared, id)
       case (shared, Some(n)) =>
         Some(s.(shared := shared, order := s.order + [id], calls := s.calls[id := s.calls[id].(pc := Writing(n), num := n)]))
       case (shared, None) => Some(Goto(s, id, Refused).(shared := shared)))
    case Refused =>
      (match Complete(s, id, ByRefusal)
       case Some(u) => Some(Goto(u, id, Leaving))
       case None => None)
    case WriteFailed(n) =>
      var (shared, call) := S.Remove(s.shared, n);
      Some(Goto(s, id, Reclaimed(call)).(shared := shared))
    case Reclaimed(Some(c)) =>
      (match Complete(s, c, ByWriteError)
       case Some(u) => Some(Goto(u, id, Leaving))
       case None => None)
    case Reclaimed(None) => Some(Goto(s, id, Leaving))
    case Leaving => Some(Goto(s, id, Selecting).(sending := None))
    case Cancelling =>
      var (shared, call) := S.Remove(s.shared, s.calls[id].num);
      Some(Goto(Drop(s, call), id, Cancelled).(shared := shared))
    case _ => None
  }

  function WriteStep(s: State, id: Id, ok: bool): Option<State>
    requires id in s.calls
  {
    match s.calls[id].pc
    case Writing(n) => Some(Goto(s, id, if ok then Leaving else WriteFailed(n)).(wire := s.wire + [n]))
    case _ => None
  }

  // A critical section of receive or terminateCalls.
  function ReceiverStep(s: State): Option<State>
  {
    match s.receiver
    case Got(n, e) =>
      var (shared, call) := S.Remove(s.shared, n);
      Some(s.(shared := shared, receiver := Holding(n, e, call)))
    case Stopping(e) =>
      if s.sending.Some? then None else Some(s.(sending := Some(Receiver), receiver := Terminating(e)))
    case Terminating(e) =>
      if forall id :: id in s.calls ==> Room(s.calls[id], |S.NumbersOf(s.shared.pending, id)|) then
        Some(s.(shared := S.Terminate(s.shared), calls := Terminated(s, e), sending := None, receiver := Stopped))
      else None
    case _ => None
  }

  function Terminated(s: State, e: bool): map<Id, CallState>
  {
    map id | id in s.calls :: s.calls[id].(
      done := s.calls[id].done + seq(|S.NumbersOf(s.shared.pending, id)|, _ => ByTermination(e)))
  }

  function BodyStep(s: State, ok: bool): Option<State>
  {
    match s.receiver
    case Holding(n, e, None) => Some(s.(receiver := if ok then Reading else Stopping(true)))
    case Holding(n, e, Some(c)) =>
      (match Complete(s, c, ByReply(n, e, ok))
       case Some(u) => Some(u.(receiver := if ok then Reading else Stopping(true)))
       case None => None)
    case _ => None
  }

  function Step(s: State, e: Event): Option<State>
  {
    match e
    case Begin(id) =>
      if id in s.calls then None else Some(s.(calls := s.calls[id := CallState(Entering, 0, [], 0)]))
    case Act(id) => if id in s.calls then CallerStep(s, id) else None
    case Write(id, ok) => if id in s.calls then WriteStep(s, id, ok) else None
    case Take(id) =>
      if id in s.calls && s.calls[id].pc.Selecting? && |s.calls[id].done| > 0 then Some(Goto(s, id, Received)) else None
    case Cancel(id) =>
      if id in s.calls && s.calls[id].pc.Selecting? then Some(Goto(s, id, Cancelling)) else None
    case Header(n, remoteError) =>
      if s.receiver.Reading? then Some(s.(receiver := Got(n, remoteError))) else None
    case HeaderFails =>
      // the error of ReadHeader does not leave the loop
      if s.receiver.Reading? then Some(s.(receiver := Stopping(false))) else None
    case Body(ok) => BodyStep(s, ok)
    case Receive => ReceiverStep(s)
    case Close => Some(s.(shared := S.Close(s.shared).0))
  }

  // The state after the first k events, if all were possible.
  function Run(events: seq<Event>, k: nat): Option<State>
    requires k <= |events|
  {
    if k == 0 then Some(Initial())
    else match Run(events, k - 1)
      case None => None
      case Some(s) => Step(s, events[k - 1])
  }

  // ---------- What every step keeps ----------

  predicate HoldsSending(pc: CallerPc)
  {
    pc.Registering? || pc.Refused? || pc.Writing? || pc.WriteFailed? || pc.Reclaimed? || pc.Leaving?
  }

  predicate Early(pc: CallerPc)
  {
    pc.Entering? || pc.Registering? || pc.Refused?
  }

  function One(b: bool): nat
  {
    if b then 1 else 0
  }

  // Where the duty to complete a call lies, or that it was met or dropped.
  function Duties(s: State, id: Id): nat
    requires id in s.calls
  {
    var c := s.calls[id];
    One(Early(c.pc)) + One(!s.shared.shutdown && c.num in s.shared.pending)
    + One(s.receiver.Holding? && s.receiver.call == Some(id)) + One(c.pc.Reclaimed? && c.pc.call.Some?)
    + |c.done| + c.dropped
  }

  predicate CompletionOk(how: Completion, num: nat)
  {
    match how
    case ByReply(n, _, _) => n == num && num != 0
    case ByRefusal => num == 0
    case ByWriteError => num != 0
    case ByTermination(_) => num != 0
  }

  ghost predicate CallOk(s: State, id: Id)
    requires id in s.calls
  {
    var c := s.calls[id];
    && Duties(s, id) == 1
    && (HoldsSending(c.pc) ==> s.sending == Some(Caller(id)))
    && (c.num != 0 ==> c.num <= |s.order| && s.order[c.num - 1] == id)
    && (Early(c.pc) ==> c.num == 0)
    && (c.pc.Writing? ==> c.pc.n == |s.order| && forall i :: 0 <= i < |s.wire| ==> s.wire[i] < c.pc.n)
    && (c.pc.Writing? || c.pc.WriteFailed? ==> c.pc.n == c.num)
    && (c.pc.Writing? || c.pc.WriteFailed? || c.pc.Reclaimed? ==> c.num != 0 && !s.shared.shutdown)
    && (c.pc.Reclaimed? && c.pc.call.Some? ==> c.pc.call.value == id)
    && (c.dropped > 0 ==> c.pc.Cancelled? && c.num != 0)
    && (c.pc.Received? ==> |c.done| > 0)
    && forall i :: 0 <= i < |c.done| ==> CompletionOk(c.done[i], c.num)
  }

  // The calls were numbered 1, 2, ... as they were registered, and what is
  // pending is pending under its own number.
  ghost predicate TableOk(s: State)
  {
    && s.shared.nextSeq == |s.order| + 1
    && (forall i :: 0 <= i < |s.order| ==> s.order[i] in s.calls && s.calls[s.order[i]].num == i + 1)
    && (forall n :: n in s.shared.pending ==> 1 <= n <= |s.order| && s.shared.pending[n] == s.order[n - 1])
  }

  ghost predicate LocksOk(s: State)
  {
    && (s.sending == Some(Receiver) <==> s.receiver.Terminating?)
    && (s.receiver.Stopped? <==> s.shared.shutdown)
    && (s.receiver.Holding? && s.receiver.call.Some? ==>
         && s.receiver.call.value in s.calls
         && s.calls[s.receiver.call.value].num == s.receiver.n != 0)
    && (s.sending.Some? && s.sending.value.Caller? ==>
         s.sending.value.id in s.calls && HoldsSending(s.calls[s.sending.value.id].pc))
  }

  ghost predicate WireOk(s: State)
  {
    && (forall i :: 0 <= i < |s.wire| ==> s.wire[i] <= |s.order|)
    && (forall i, j :: 0 <= i < j < |s.wire| ==> s.wire[i] < s.wire[j])
  }

  ghost predicate Inv(s: State)
  {
    TableOk(s) && LocksOk(s) && WireOk(s) && forall id :: id in s.calls ==> CallOk(s, id)
  }

  // ---------- One call at a time ----------

  predicate ReceiverHolds(s: State, id: Id)
  {
    s.receiver.Holding? && s.receiver.call == Some(id)
  }

  // What a step on behalf of one call may change, as far as the others can tell.
  ghost predicate Local(s: State, u: State, id: Id)
  {
    && u.calls.Keys == s.calls.Keys + {id}
    && u.shared.shutdown == s.shared.shutdown
    && (forall id' :: id' in s.calls && id' != id ==>
         u.calls[id'] == s.calls[id'] && (ReceiverHolds(u, id') <==> ReceiverHolds(s, id')))
    && (u.sending == s.sending || (u.sending == None && s.sending == Some(Caller(id))) || s.sending == None)
    && ((u.wire == s.wire && u.order == s.order) || s.sending == Some(Caller(id)))
    && |s.order| <= |u.order| && (forall i :: 0 <= i < |s.order| ==> u.order[i] == s.order[i])
    && forall n: nat :: n <= |s.order| && (n == 0 || s.order[n - 1] != id) ==> (n in u.shared.pending <==> n in s.shared.pending)
  }

  lemma LocalKeepsOther(s: State, u: State, id: Id, id': Id)
    requires Local(s, u, id) && id' in s.calls && id' != id && CallOk(s, id') && 0 !in s.shared.pending
    ensures CallOk(u, id')
  {
  }

  lemma LocalKeepsCalls(s: State, u: State, id: Id)
    requires Local(s, u, id) && Inv(s) && CallOk(u, id)
    ensures forall id' :: id' in u.calls ==> CallOk(u, id')
  {
    hide Local, CallOk;
    assert u.calls.Keys == s.calls.Keys + {id} by { LocalKeys(s, u, id); }
    forall id' | id' in u.calls ensures CallOk(u, id') {
      if id' != id { LocalKeepsOther(s, u, id, id'); }
    }
  }

  lemma LocalKeys(s: State, u: State, id: Id)
    requires Local(s, u, id)
    ensures u.calls.Keys == s.calls.Keys + {id}
  {
  }

  // What a step that touches no call may change, as far as the calls can tell.
  ghost predicate Still(s: State, u: State)
  {
    && u.calls == s.calls && u.wire == s.wire && u.order == s.order
    && u.shared.shutdown == s.shared.shutdown && u.shared.pending == s.shared.pending
    && (u.sending == s.sending || s.sending == None)
    && forall id :: id in s.calls ==> (ReceiverHolds(u, id) <==> ReceiverHolds(s, id))
  }

  lemma StillKeepsCall(s: State, u: State, id: Id)
    requires Still(s, u) && id in s.calls && CallOk(s, id)
    ensures id in u.calls && CallOk(u, id)
  {
  }

  lemma StillKeepsCalls(s: State, u: State)
    requires Inv(s) && Still(s, u)
    ensures forall id :: id in u.calls ==> CallOk(u, id)
  {
    assert u.calls == s.calls;
    hide CallOk, Still;
    forall id | id in u.calls ensures CallOk(u, id) { StillKeepsCall(s, u, id); }
  }

  // ---------- Callers ----------

  predicate Removes(pc: CallerPc)
  {
    pc.WriteFailed? || pc.Cancelling?
  }

  lemma RemovedIsOwn(s: State, id: Id)
    requires TableOk(s) && id in s.calls && CallOk(s, id)
    ensures s.calls[id].pc.WriteFailed? ==> s.calls[id].pc.n == s.calls[id].num
    ensures s.calls[id].num <= |s.order| && (s.calls[id].num > 0 ==> s.order[s.calls[id].num - 1] == id)
    ensures S.Remove(s.shared, s.calls[id].num).1.Some? ==> S.Remove(s.shared, s.calls[id].num).1 == Some(id)
    ensures HoldsSending(s.calls[id].pc) ==> s.sending == Some(Caller(id))
  {
  }

  lemma RemovalIsLocal(s: State, id: Id)
    requires TableOk(s) && id in s.calls && CallOk(s, id) && CallerStep(s, id).Some? && Removes(s.calls[id].pc)
    ensures Local(s, CallerStep(s, id).value, id)
  {
    RemovedIsOwn(s, id);
    hide CallOk, TableOk;
  }

  lemma OtherIsLocal(s: State, id: Id)
    requires TableOk(s) && id in s.calls && CallOk(s, id) && CallerStep(s, id).Some? && !Removes(s.calls[id].pc)
    ensures Local(s, CallerStep(s, id).value, id)
  {
  }

  lemma RemovalKeepsTable(s: State, id: Id)
    requires TableOk(s) && id in s.calls && CallOk(s, id) && CallerStep(s, id).Some? && |s.order| + 2 < S.WRAP
    requires Removes(s.calls[id].pc)
    ensures var u := CallerStep(s, id).value; TableOk(u) && u.wire == s.wire && |s.order| <= |u.order| <= |s.order| + 1
  {
    RemovedIsOwn(s, id);
    hide CallOk;
  }

  lemma OtherKeepsTable(s: State, id: Id)
    requires TableOk(s) && id in s.calls && CallOk(s, id) && CallerStep(s, id).Some? && |s.order| + 2 < S.WRAP
    requires !Removes(s.calls[id].pc)
    ensures var u := CallerStep(s, id).value; TableOk(u) && u.wire == s.wire && |s.order| <= |u.order| <= |s.order| + 1
  {
  }

  lemma CallerKeepsLocks(s: State, id: Id)
    requires TableOk(s) && LocksOk(s) && id in s.calls && CallOk(s, id) && CallerStep(s, id).Some?
    ensures LocksOk(CallerStep(s, id).value)
  {
  }

  lemma RegisteringKeepsSelf(s: State, id: Id)
    requires TableOk(s) && LocksOk(s) && WireOk(s) && id in s.calls && CallOk(s, id) && CallerStep(s, id).Some?
    requires s.calls[id].pc.Registering? && |s.order| + 2 < S.WRAP
    ensures CallOk(CallerStep(s, id).value, id)
  {
  }

  lemma RemovalKeepsSelf(s: State, id: Id)
    requires TableOk(s) && LocksOk(s) && WireOk(s) && id in s.calls && CallOk(s, id) && CallerStep(s, id).Some?
    requires Removes(s.calls[id].pc)
    ensures CallOk(CallerStep(s, id).value, id)
  {
  }

  lemma OtherKeepsSelf(s: State, id: Id)
    requires TableOk(s) && LocksOk(s) && WireOk(s) && id in s.calls && CallOk(s, id) && CallerStep(s, id).Some?
    requires !Removes(s.calls[id].pc) && !s.calls[id].pc.Registering?
    ensures CallOk(CallerStep(s, id).value, id)
  {
  }

  lemma CallerKeepsInv(s: State, id: Id)
    requires Inv(s) && id in s.calls && CallerStep(s, id).Some? && |s.order| + 2 < S.WRAP
    ensures Inv(CallerStep(s, id).value) && |CallerStep(s, id).value.order| <= |s.order| + 1
  {
    hide CallerStep, CallOk, TableOk, LocksOk, Local;
    if Removes(s.calls[id].pc) { RemovalKeepsTable(s, id); } else { OtherKeepsTable(s, id); }
    CallerKeepsLocks(s, id);
    if Removes(s.calls[id].pc) {
      RemovalKeepsSelf(s, id);
      RemovalIsLocal(s, id);
    } else {
      if s.calls[id].pc.Registering? { RegisteringKeepsSelf(s, id); } else { OtherKeepsSelf(s, id); }
      OtherIsLocal(s, id);
    }
    LocalKeepsCalls(s, CallerStep(s, id).value, id);
  }

  lemma BeginIsLocal(s: State, id: Id)
    requires TableOk(s) && LocksOk(s) && id !in s.calls
    ensures var u := s.(calls := s.calls[id := CallState(Entering, 0, [], 0)]);
      TableOk(u) && LocksOk(u) && CallOk(u, id) && Local(s, u, id)
  {
  }

  lemma BeginKeepsInv(s: State, id: Id)
    requires Inv(s) && id !in s.calls
    ensures Inv(s.(calls := s.calls[id := CallState(Entering, 0, [], 0)]))
  {
    hide CallOk, TableOk, LocksOk, Local;
    BeginIsLocal(s, id);
    LocalKeepsCalls(s, s.(calls := s.calls[id := CallState(Entering, 0, [], 0)]), id);
  }

  lemma WriteIsLocal(s: State, id: Id, ok: bool)
    requires TableOk(s) && WireOk(s) && LocksOk(s) && id in s.calls && CallOk(s, id) && WriteStep(s, id, ok).Some?
    ensures var u := WriteStep(s, id, ok).value;
      TableOk(u) && WireOk(u) && LocksOk(u) && CallOk(u, id) && Local(s, u, id) && u.order == s.order
  {
  }

  lemma WriteKeepsInv(s: State, id: Id, ok: bool)
    requires Inv(s) && id in s.calls && WriteStep(s, id, ok).Some?
    ensures Inv(WriteStep(s, id, ok).value) && WriteStep(s, id, ok).value.order == s.order
  {
    hide WriteStep, CallOk, TableOk, LocksOk, WireOk, Local;
    WriteIsLocal(s, id, ok);
    LocalKeepsCalls(s, WriteStep(s, id, ok).value, id);
  }

  // A caller that takes its call from the channel or gives up waiting.
  lemma WaiterIsLocal(s: State, id: Id, pc: CallerPc)
    requires TableOk(s) && LocksOk(s) && id in s.calls && CallOk(s, id) && s.calls[id].pc.Selecting?
    requires pc.Cancelling? || (pc.Received? && |s.calls[id].done| > 0)
    ensures var u := Goto(s, id, pc); TableOk(u) && LocksOk(u) && CallOk(u, id) && Local(s, u, id)
  {
  }

  lemma WaiterKeepsInv(s: State, id: Id, pc: CallerPc)
    requires Inv(s) && id in s.calls && s.calls[id].pc.Selecting?
    requires pc.Cancelling? || (pc.Received? && |s.calls[id].done| > 0)
    ensures Inv(Goto(s, id, pc))
  {
    hide CallOk, TableOk, LocksOk, Local;
    WaiterIsLocal(s, id, pc);
    LocalKeepsCalls(s, Goto(s, id, pc), id);
  }

  // ---------- The receiver ----------

  predicate Idle(r: ReceiverPc)
  {
    r.Reading? || r.Got? || r.Stopping?
  }

  // Steps that change nothing but the receiver's place in its loop, or closing.
  lemma QuietKeepsInv(s: State, receiver: ReceiverPc, closing: bool)
    requires Inv(s) && (receiver == s.receiver || (Idle(s.receiver) && Idle(receiver)))
    ensures Inv(s.(receiver := receiver, shared := s.shared.(closing := closing)))
  {
    hide CallOk;
    StillKeepsCalls(s, s.(receiver := receiver, shared := s.shared.(closing := closing)));
  }

  lemma BodyIsLocal(s: State, ok: bool)
    requires TableOk(s) && LocksOk(s) && s.receiver.Holding? && s.receiver.call.Some?
    requires s.receiver.call.value in s.calls && CallOk(s, s.receiver.call.value)
    requires BodyStep(s, ok).Some?
    ensures var c, u := s.receiver.call.value, BodyStep(s, ok).value;
      TableOk(u) && LocksOk(u) && CallOk(u, c) && Local(s, u, c) && u.wire == s.wire && u.order == s.order
  {
  }

  lemma BodyOfNothing(s: State, ok: bool)
    requires LocksOk(s) && TableOk(s) && BodyStep(s, ok).Some? && s.receiver.call.None?
    ensures var u := BodyStep(s, ok).value; Still(s, u) && LocksOk(u) && TableOk(u)
  {
  }

  lemma BodyNeedsHolding(s: State, ok: bool)
    requires LocksOk(s) && BodyStep(s, ok).Some?
    ensures s.receiver.Holding? && (s.receiver.call.Some? ==> s.receiver.call.value in s.calls)
  {
  }

  lemma StillKeepsWire(s: State, u: State)
    requires Still(s, u) && WireOk(s)
    ensures WireOk(u) && u.order == s.order
  {
  }

  lemma BodyKeepsInv(s: State, ok: bool)
    requires Inv(s) && BodyStep(s, ok).Some?
    ensures Inv(BodyStep(s, ok).value) && BodyStep(s, ok).value.order == s.order
  {
    hide CallOk, TableOk, LocksOk, Local, Still, BodyStep;
    var u := BodyStep(s, ok).value;
    BodyNeedsHolding(s, ok);
    if s.receiver.call.Some? {
      BodyIsLocal(s, ok);
      LocalKeepsCalls(s, u, s.receiver.call.value);
    } else {
      BodyOfNothing(s, ok);
      StillKeepsCalls(s, u);
      StillKeepsWire(s, u);
    }
  }

  // removeCall for a reply: it takes out the call registered under that number.
  lemma GotIsLocal(s: State, c: Id)
    requires TableOk(s) && LocksOk(s) && s.receiver.Got?
    requires S.Remove(s.shared, s.receiver.n).1 == Some(c) && c in s.calls && CallOk(s, c)
    ensures var u := ReceiverStep(s).value; Local(s, u, c) && CallOk(u, c)
  {
  }

  lemma GotTable(s: State)
    requires TableOk(s) && LocksOk(s) && s.receiver.Got?
    ensures var u := ReceiverStep(s).value; TableOk(u) && LocksOk(u)
    ensures var c := S.Remove(s.shared, s.receiver.n).1; c.Some? ==> c.value in s.calls
  {
  }

  lemma GotNothing(s: State)
    requires s.receiver.Got? && S.Remove(s.shared, s.receiver.n).1.None?
    ensures Still(s, ReceiverStep(s).value)
  {
  }

  lemma GotKeepsInv(s: State)
    requires Inv(s) && s.receiver.Got?
    ensures Inv(ReceiverStep(s).value)
  {
    var u := ReceiverStep(s).value;
    hide CallOk, TableOk, LocksOk, Local, Still, S.Remove;
    GotTable(s);
    assert u.wire == s.wire && u.order == s.order;
    hide ReceiverStep;
    var c := S.Remove(s.shared, s.receiver.n).1;
    if c.Some? {
      GotIsLocal(s, c.value);
      LocalKeepsCalls(s, u, c.value);
    } else {
      GotNothing(s);
      StillKeepsCalls(s, u);
    }
  }

  lemma LockingKeepsInv(s: State, error: bool)
    requires Inv(s) && s.receiver == Stopping(error) && s.sending.None?
    ensures Inv(s.(sending := Some(Receiver), receiver := Terminating(error)))
  {
    hide CallOk;
    StillKeepsCalls(s, s.(sending := Some(Receiver), receiver := Terminating(error)));
  }

  lemma PendingOnce(s: State, id: Id)
    requires TableOk(s) && id in s.calls && CallOk(s, id)
    ensures S.NumbersOf(s.shared.pending, id) == if s.calls[id].num in s.shared.pending then {s.calls[id].num} else {}
  {
  }

  lemma TerminatingKeepsCall(s: State, id: Id)
    requires TableOk(s) && LocksOk(s) && id in s.calls && CallOk(s, id)
    requires s.receiver.Terminating? && ReceiverStep(s).Some?
    ensures CallOk(ReceiverStep(s).value, id)
  {
    PendingOnce(s, id);
    hide S.NumbersOf;
  }

  lemma TerminatingKeepsInv(s: State)
    requires Inv(s) && s.receiver.Terminating? && ReceiverStep(s).Some?
    ensures Inv(ReceiverStep(s).value)
  {
    hide CallOk;
    var u := ReceiverStep(s).value;
    forall id | id in u.calls ensures CallOk(u, id) {
      TerminatingKeepsCall(s, id);
    }
  }

  // ---------- Whole runs ----------

  lemma StepKeepsInv(s: State, e: Event)
    requires Inv(s) && Step(s, e).Some? && |s.order| + 2 < S.WRAP
    ensures Inv(Step(s, e).value) && |Step(s, e).value.order| <= |s.order| + 1
  {
    hide Inv, CallerStep, WriteStep, BodyStep;
    match e
    case Begin(id) => BeginKeepsInv(s, id);
    case Act(id) => CallerKeepsInv(s, id);
    case Write(id, ok) => WriteKeepsInv(s, id, ok);
    case Take(id) => WaiterKeepsInv(s, id, Received);
    case Cancel(id) => WaiterKeepsInv(s, id, Cancelling);
    case Header(n, remoteError) => QuietKeepsInv(s, Got(n, remoteError), s.shared.closing);
    case HeaderFails => QuietKeepsInv(s, Stopping(false), s.shared.closing);
    case Body(ok) => BodyKeepsInv(s, ok);
    case Receive =>
      if s.receiver.Got? { GotKeepsInv(s); }
      else if s.receiver.Stopping? { LockingKeepsInv(s, s.receiver.error); }
      else { TerminatingKeepsInv(s); }
    case Close => QuietKeepsInv(s, s.receiver, true);
  }

  // A run too short for the sequence number to wrap around.
  predicate IsRun(events: seq<Event>, k: nat)
  {
    k <= |events| && k < S.WRAP - 1 && Run(events, k).Some?
  }

  lemma {:induction false} RunKeepsInv(events: seq<Event>, k: nat)
    requires IsRun(events, k)
    ensures Inv(Run(events, k).value) && |Run(events, k).value.order| <= k
  {
    if k > 0 {
      hide Inv, Step;
      RunKeepsInv(events, k - 1);
      StepKeepsInv(Run(events, k - 1).value, events[k - 1]);
    }
  }

  // In every interleaving each call is completed at most once, and not at all if
  // its own canceller took it out of the table. Once terminateCalls is through,
  // every registered call has met one of the two, and nobody waits in vain.
  lemma CompletedOnce(events: seq<Event>, k: nat, id: Id)
    requires IsRun(events, k) && id in Run(events, k).value.calls
    ensures var s := Run(events, k).value; var c := s.calls[id];
      && |c.done| + c.dropped <= 1
      && (c.dropped > 0 ==> c.pc.Cancelled?)
      && (s.receiver.Stopped? && c.num != 0 ==> |c.done| + c.dropped == 1)
      && (s.receiver.Stopped? && c.pc.Selecting? ==> Step(s, Take(id)).Some?)
  {
    RunKeepsInv(events, k);
    var s := Run(events, k).value;
    hide Step, TableOk;
    assert CallOk(s, id);
  }

  // ---------- What happens to a call ----------

  // In a client that is neither closed nor shut down a call is registered under
  // the next number, and its request is written under that number.
  lemma OpenClientSends(events: seq<Event>, k: nat, id: Id, ok: bool)
    requires IsRun(events, k) && id in Run(events, k).value.calls && Run(events, k).value.calls[id].pc.Registering?
    requires !Run(events, k).value.shared.closing && !Run(events, k).value.shared.shutdown
    ensures var s := Run(events, k).value; var n := |s.order| + 1;
      && Step(s, Act(id)).Some?
      && var u := Step(s, Act(id)).value;
        && u.shared.pending == s.shared.pending[n := id] && n !in s.shared.pending
        && u.order == s.order + [id]
        && Step(u, Write(id, ok)).Some? && Step(u, Write(id, ok)).value.wire == s.wire + [n]
  {
    RunKeepsInv(events, k);
    hide Run, CallOk, WireOk, LocksOk;
  }

  // A call whose request could not be written, and that is still pending in an open
  // client, is taken out and completed with that error.
  lemma FailedWriteCompletes(events: seq<Event>, k: nat, id: Id)
    requires IsRun(events, k) && id in Run(events, k).value.calls && Run(events, k).value.calls[id].pc.WriteFailed?
    requires !Run(events, k).value.shared.closing && Run(events, k).value.calls[id].num in Run(events, k).value.shared.pending
    ensures var s := Run(events, k).value;
      && Step(s, Act(id)).Some? && Step(Step(s, Act(id)).value, Act(id)).Some?
      && var u := Step(Step(s, Act(id)).value, Act(id)).value;
        && id in u.calls && u.calls[id].done == [ByWriteError]
        && u.shared.pending == s.shared.pending - {s.calls[id].num}
  {
    RunKeepsInv(events, k);
    hide Run, WireOk;
    var s := Run(events, k).value;
    assert CallOk(s, id);
    FailedWriteIsOwn(s, id);
  }

  lemma FailedWriteIsOwn(s: State, id: Id)
    requires TableOk(s) && id in s.calls && CallOk(s, id) && s.calls[id].pc.WriteFailed?
    requires !s.shared.closing && s.calls[id].num in s.shared.pending
    ensures Step(s, Act(id)).Some? && Step(Step(s, Act(id)).value, Act(id)).Some?
    ensures var u := Step(Step(s, Act(id)).value, Act(id)).value;
      && id in u.calls && u.calls[id].done == [ByWriteError]
      && u.shared.pending == s.shared.pending - {s.calls[id].num}
  {
    RemovedIsOwn(s, id);
  }

  predicate OfReceiver(e: Event)
  {
    e.Header? || e.HeaderFails? || e.Body? || e.Receive?
  }

  lemma OthersLeaveReceiver(s: State, e: Event)
    requires Step(s, e).Some? && !OfReceiver(e)
    ensures Step(s, e).value.receiver == s.receiver
  {
    hide CallerStep, WriteStep;
    if e.Act? { CallerLeavesReceiver(s, e.id); }
    if e.Write? { WriteLeavesReceiver(s, e.id, e.ok); }
  }

  lemma CallerLeavesReceiver(s: State, id: Id)
    requires id in s.calls && CallerStep(s, id).Some?
    ensures CallerStep(s, id).value.receiver == s.receiver
  {
  }

  lemma WriteLeavesReceiver(s: State, id: Id, ok: bool)
    requires id in s.calls && WriteStep(s, id, ok).Some?
    ensures WriteStep(s, id, ok).value.receiver == s.receiver
  {
  }

  // Between two of its own events the receiver stays where it is.
  lemma {:induction false} ReceiverWaits(events: seq<Event>, k: nat, l: nat)
    requires k <= l <= |events| && Run(events, l).Some?
    requires forall i :: k <= i < l ==> !OfReceiver(events[i])
    ensures Run(events, k).Some? && Run(events, l).value.receiver == Run(events, k).value.receiver
  {
    hide Step, OfReceiver;
    if k < l {
      ReceiverWaits(events, k, l - 1);
      OthersLeaveReceiver(Run(events, l - 1).value, events[l - 1]);
    }
  }

  lemma {:induction false} RunPrefix(events: seq<Event>, k: nat, l: nat)
    requires k <= l <= |events| && Run(events, l).Some?
    ensures Run(events, k).Some?
  {
    hide Step;
    if k < l { RunPrefix(events, k, l - 1); }
  }

  // The header of a reply was read, and its call is taken out of the table.
  lemma GotTakesOut(s: State, n: nat, r: bool, id: Id)
    requires s.receiver == Got(n, r) && !s.shared.closing && !s.shared.shutdown
    requires n in s.shared.pending && s.shared.pending[n] == id
    ensures Step(s, Receive).Some? && Step(s, Receive).value.receiver == Holding(n, r, Some(id))
  {
  }

  lemma HeldIsCompleted(s: State, n: nat, r: bool, id: Id, ok: bool)
    requires LocksOk(s) && s.receiver == Holding(n, r, Some(id)) && id in s.calls && CallOk(s, id)
    ensures Step(s, Body(ok)).Some?
    ensures var u := Step(s, Body(ok)).value;
      && id in u.calls && n !in u.shared.pending && u.calls[id].done == [ByReply(n, r, ok)]
      && u.receiver == (if ok then Reading else Stopping(true))
  {
  }

  // A reply reaches its call. If header n is read, and the client is open and n
  // pending when the receiver looks, then with the body the call registered under n
  // is completed by that reply, with its outcome, and is no longer pending. What
  // callers and Close do in between makes no difference.
  lemma ReplyCompletesCall(events: seq<Event>, h: nat, g: nat, b: nat, n: nat, r: bool, ok: bool, id: Id)
    requires h < g < b < |events| && IsRun(events, b)
    requires events[h] == Header(n, r) && events[g] == Receive && events[b] == Body(ok)
    requires forall i :: h < i < b && i != g ==> !OfReceiver(events[i])
    requires Run(events, g).Some? && !Run(events, g).value.shared.closing && !Run(events, g).value.shared.shutdown
    requires n in Run(events, g).value.shared.pending && Run(events, g).value.shared.pending[n] == id
    ensures Run(events, b + 1).Some?
    ensures var u := Run(events, b + 1).value;
      && id in u.calls && n !in u.shared.pending && u.calls[id].done == [ByReply(n, r, ok)]
      && u.receiver == (if ok then Reading else Stopping(true))
      && (u.calls[id].pc.Selecting? ==> Step(u, Take(id)).Some?)
  {
    hide OfReceiver, CallOk, TableOk, WireOk, CallerStep, WriteStep, BodyStep, ReceiverStep;
    RunPrefix(events, h + 1, b);
    HeaderIsGot(events, h, n, r);
    ReceiverWaits(events, h + 1, g);
    GotTakesOut(Run(events, g).value, n, r, id);
    RunPrefix(events, g + 1, b);
    ReceiverWaits(events, g + 1, b);
    RunKeepsInv(events, b);
    HeldIsCompleted(Run(events, b).value, n, r, id, ok);
  }

  lemma HeaderIsGot(events: seq<Event>, h: nat, n: nat, r: bool)
    requires h < |events| && events[h] == Header(n, r) && Run(events, h + 1).Some?
    ensures Run(events, h + 1).value.receiver == Got(n, r)
  {
  }

  // A reply under a number that is not pending, or that comes after Close, fills no
  // call and takes none out; the receiver reads on.
  lemma UnknownReplyIsSkipped(s: State, n: nat, r: bool, ok: bool)
    requires s.receiver.Reading? && (n !in s.shared.pending || s.shared.closing)
    ensures Step(s, Header(n, r)).Some?
    ensures var t := Step(s, Header(n, r)).value;
      && Step(t, Receive).Some? && Step(Step(t, Receive).value, Body(ok)).Some?
      && var u := Step(Step(t, Receive).value, Body(ok)).value;
        && u.calls == s.calls && u.shared == s.shared && u.wire == s.wire && u.sending == s.sending
        && u.receiver == (if ok then Reading else Stopping(true))
  {
    assert n !in s.shared.pending ==> s.shared.pending - {n} == s.shared.pending;
  }

  // After Close no call is registered any more.
  lemma {:induction false} CloseRefusesLater(events: seq<Event>, k: nat, l: nat)
    requires k < l <= |events| && Run(events, l).Some? && events[k] == Close
    ensures Run(events, k).Some?
    ensures Run(events, l).value.shared.closing && Run(events, l).value.order == Run(events, k).value.order
  {
    hide CallerStep, WriteStep, BodyStep, ReceiverStep;
    RunPrefix(events, l - 1, l);
    if k + 1 < l {
      CloseRefusesLater(events, k, l - 1);
      ClosedKeepsOrder(Run(events, l - 1).value, events[l - 1]);
    }
  }

  lemma ClosedKeepsOrder(s: State, e: Event)
    requires s.shared.closing && Step(s, e).Some?
    ensures Step(s, e).value.shared.closing && Step(s, e).value.order == s.order
  {
    hide CallerStep, S.NumbersOf;
    if e.Act? { ClosedCallerKeepsOrder(s, e.id); }
  }

  lemma ClosedCallerKeepsOrder(s: State, id: Id)
    requires s.shared.closing && id in s.calls && CallerStep(s, id).Some?
    ensures CallerStep(s, id).value.shared.closing && CallerStep(s, id).value.order == s.order
  {
  }

  // ---------- Nothing blocks ----------

  // The duty to call done on a call, wherever it lies.
  predicate AboutToComplete(s: State, id: Id)
  {
    && id in s.calls
    && (s.calls[id].pc.Refused? || ReceiverHolds(s, id) || s.calls[id].pc == Reclaimed(Some(id)))
  }

  lemma CanTerminate(s: State)
    requires Inv(s) && s.receiver.Terminating?
    ensures ReceiverStep(s).Some?
  {
    forall id | id in s.calls ensures Room(s.calls[id], |S.NumbersOf(s.shared.pending, id)|) {
      assert CallOk(s, id);
      PendingOnce(s, id);
    }
  }

  // So sending on the one-slot channel never blocks: not for a refused call, a
  // call whose request failed or a reply, and not in terminateCalls.
  lemma DoneNeverBlocks(events: seq<Event>, k: nat, ok: bool)
    requires IsRun(events, k)
    ensures var s := Run(events, k).value;
      && (forall id :: AboutToComplete(s, id) ==> Room(s.calls[id], 1))
      && (s.receiver.Holding? ==> Step(s, Body(ok)).Some?)
      && (s.receiver.Terminating? ==> Step(s, Receive).Some?)
  {
    RunKeepsInv(events, k);
    var s := Run(events, k).value;
    hide Run, TableOk;
    forall id | AboutToComplete(s, id) ensures Room(s.calls[id], 1) {
      assert CallOk(s, id);
    }
    if s.receiver.Terminating? { CanTerminate(s); }
  }

  lemma HolderGoesOn(s: State, id: Id, ok: bool)
    requires LocksOk(s) && s.sending == Some(Caller(id)) && id in s.calls && CallOk(s, id)
    ensures Step(s, if s.calls[id].pc.Writing? then Write(id, ok) else Act(id)).Some?
  {
  }

  predicate GoesOn(s: State, h: Holder, ok: bool)
  {
    match h
    case Receiver => Step(s, Receive).Some?
    case Caller(id) => Step(s, if id in s.calls && s.calls[id].pc.Writing? then Write(id, ok) else Act(id)).Some?
  }

  lemma InvGoesOn(s: State, ok: bool)
    requires Inv(s) && s.sending.Some?
    ensures GoesOn(s, s.sending.value, ok)
  {
    hide TableOk, WireOk, CallOk, CallerStep, WriteStep, BodyStep, ReceiverStep;
    match s.sending.value
    case Caller(id) => HolderGoesOn(s, id, ok);
    case Receiver => CanTerminate(s);
  }

  // And whoever holds the sending lock can go on.
  lemma LockHolderGoesOn(events: seq<Event>, k: nat, ok: bool)
    requires IsRun(events, k) && Run(events, k).value.sending.Some?
    ensures GoesOn(Run(events, k).value, Run(events, k).value.sending.value, ok)
  {
    RunKeepsInv(events, k);
    hide Run, Inv, GoesOn;
    InvGoesOn(Run(events, k).value, ok);
  }

  predicate SameNumber(s: State, id: Id, id': Id)
  {
    id in s.calls && id' in s.calls && s.calls[id].num == s.calls[id'].num != 0
  }

  // The i-th completion of a call is by a reply.
  predicate ByReplyAt(s: State, id: Id, i: nat)
  {
    id in s.calls && i < |s.calls[id].done| && s.calls[id].done[i].ByReply?
  }

  lemma NumbersDiffer(s: State, id: Id, id': Id)
    requires SameNumber(s, id, id') && CallOk(s, id) && CallOk(s, id')
    ensures id == id'
  {
  }

  lemma RepliesFit(s: State, id: Id, i: nat)
    requires ByReplyAt(s, id, i) && CallOk(s, id)
    ensures s.calls[id].done[i].n == s.calls[id].num != 0
  {
    assert CompletionOk(s.calls[id].done[i], s.calls[id].num);
  }

  // How far a Client.Call has come.
  function Progress(pc: CallerPc): nat
  {
    match pc
    case Entering => 0
    case Registering => 1
    case Refused => 2
    case Writing(_) => 2
    case WriteFailed(_) => 3
    case Reclaimed(_) => 4
    case Leaving => 5
    case Selecting => 6
    case Cancelling => 7
    case Received => 8
    case Cancelled => 8
  }

  predicate OfCaller(e: Event, id: Id)
  {
    (e.Act? || e.Write? || e.Take? || e.Cancel?) && e.id == id
  }

  lemma CallerAdvances(s: State, id: Id)
    requires id in s.calls && CallerStep(s, id).Some?
    ensures var u := CallerStep(s, id).value;
      id in u.calls && Progress(u.calls[id].pc) > Progress(s.calls[id].pc)
  {
  }

  lemma CallerMovesOne(s: State, id: Id, id': Id)
    requires id in s.calls && CallerStep(s, id).Some? && id' in s.calls && id' != id
    ensures id' in CallerStep(s, id).value.calls && CallerStep(s, id).value.calls[id'].pc == s.calls[id'].pc
  {
  }

  // Every step of a caller takes it forward, and nobody else moves it.
  lemma StepsAdvance(s: State, e: Event, id: Id)
    requires Step(s, e).Some? && id in s.calls
    ensures var u := Step(s, e).value;
      && id in u.calls
      && if OfCaller(e, id) then Progress(u.calls[id].pc) > Progress(s.calls[id].pc)
         else u.calls[id].pc == s.calls[id].pc
  {
    hide CallerStep, S.NumbersOf;
    if e.Act? {
      if e.id == id { CallerAdvances(s, id); } else { CallerMovesOne(s, e.id, id); }
    }
  }

  // A caller is held up only by the sending lock when it wants it, or while it waits
  // for its call; and it can give up waiting at any time. The receiver is held up
  // only by the sending lock, or while it waits for the server.
  predicate CallerGoesOn(s: State, id: Id, ok: bool)
    requires id in s.calls
  {
    match s.calls[id].pc
    case Entering => s.sending.Some? || Step(s, Act(id)).Some?
    case Writing(_) => Step(s, Write(id, ok)).Some?
    case Selecting => Step(s, Cancel(id)).Some? && (s.calls[id].done != [] ==> Step(s, Take(id)).Some?)
    case Received => true
    case Cancelled => true
    case _ => Step(s, Act(id)).Some?
  }

  predicate ReceiverGoesOn(s: State, n: nat, r: bool, ok: bool)
  {
    match s.receiver
    case Reading => Step(s, Header(n, r)).Some? && Step(s, HeaderFails).Some?
    case Holding(_, _, _) => Step(s, Body(ok)).Some?
    case Stopping(_) => s.sending.Some? || Step(s, Receive).Some?
    case Stopped => true
    case _ => Step(s, Receive).Some?
  }

  lemma NobodyIsStuck(events: seq<Event>, k: nat, id: Id, n: nat, r: bool, ok: bool)
    requires IsRun(events, k)
    ensures var s := Run(events, k).value;
      ReceiverGoesOn(s, n, r, ok) && (id in s.calls ==> CallerGoesOn(s, id, ok))
  {
    hide Run, Inv, CallerGoesOn, ReceiverGoesOn;
    RunKeepsInv(events, k);
    InvReceiverGoesOn(Run(events, k).value, n, r, ok);
    if id in Run(events, k).value.calls { InvCallerGoesOn(Run(events, k).value, id, ok); }
  }

  lemma InvReceiverGoesOn(s: State, n: nat, r: bool, ok: bool)
    requires Inv(s)
    ensures ReceiverGoesOn(s, n, r, ok)
  {
    hide TableOk, WireOk, CallOk;
    if s.receiver.Terminating? { CanTerminate(s); }
    if s.receiver.Holding? && s.receiver.call.Some? { HeldIsCompletedAt(s, ok); }
  }

  lemma HeldIsCompletedAt(s: State, ok: bool)
    requires LocksOk(s) && s.receiver.Holding? && s.receiver.call.Some?
    requires forall id :: id in s.calls ==> CallOk(s, id)
    ensures Step(s, Body(ok)).Some?
  {
    hide CallOk;
    HeldIsCompleted(s, s.receiver.n, s.receiver.remoteError, s.receiver.call.value, ok);
  }

  lemma InvCallerGoesOn(s: State, id: Id, ok: bool)
    requires Inv(s) && id in s.calls
    ensures CallerGoesOn(s, id, ok)
  {
    hide TableOk, WireOk, LocksOk;
    assert CallOk(s, id);
  }

  // Numbers: what is pending is pending under its call's Seq, below nextSeq; no
  // two registered calls share one; requests reach the wire in increasing order;
  // and a reply fills only the call registered under the reply's number.
  lemma NumbersIdentifyCalls(events: seq<Event>, k: nat)
    requires IsRun(events, k)
    ensures var s := Run(events, k).value;
      && (forall n :: n in s.shared.pending ==>
           0 < n < s.shared.nextSeq && s.shared.pending[n] in s.calls && s.calls[s.shared.pending[n]].num == n)
      && (forall id, id' :: SameNumber(s, id, id') ==> id == id')
      && (forall i, j :: 0 <= i < j < |s.wire| ==> s.wire[i] < s.wire[j])
      && (forall id, i: nat :: ByReplyAt(s, id, i) ==> s.calls[id].done[i].n == s.calls[id].num != 0)
  {
    RunKeepsInv(events, k);
    var s := Run(events, k).value;
    hide Run, CallOk;
    forall id, id' | SameNumber(s, id, id') ensures id == id' {
      NumbersDiffer(s, id, id');
    }
    forall id, i: nat | ByReplyAt(s, id, i) ensures s.calls[id].done[i].n == s.calls[id].num != 0 {
      RepliesFit(s, id, i);
    }
  }

  lemma CancellingIsOwn(s: State, id: Id)
    requires TableOk(s) && id in s.calls && CallOk(s, id) && s.calls[id].pc.Cancelling?
    ensures var u := Step(s, Act(id)).value; var num := s.calls[id].num;
      && Step(s, Act(id)).Some? && u.calls - {id} == s.calls - {id}
      && u.shared.pending == s.shared.pending - (if S.Unavailable(s.shared) then {} else {num})
      && (num == 0 ==> u.shared == s.shared)
  {
    RemovedIsOwn(s, id);
    hide CallOk;
  }

  // Cancelling takes out the canceller's own call, and nothing if that call was
  // never registered (Seq 0).
  lemma CancelTouchesOwnCallOnly(events: seq<Event>, k: nat, id: Id)
    requires IsRun(events, k)
    requires id in Run(events, k).value.calls && Run(events, k).value.calls[id].pc.Cancelling?
    ensures var s := Run(events, k).value; var u := Step(s, Act(id)).value; var num := s.calls[id].num;
      && Step(s, Act(id)).Some? && u.calls - {id} == s.calls - {id}
      && u.shared.pending == s.shared.pending - (if S.Unavailable(s.shared) then {} else {num})
      && (num == 0 ==> u.shared == s.shared)
  {
    RunKeepsInv(events, k);
    hide Run, CallOk, Step;
    CancellingIsOwn(Run(events, k).value, id);
  }

  lemma TerminationReaches(s: State, id: Id)
    requires TableOk(s) && LocksOk(s) && s.receiver.Terminating? && id in s.calls && CallOk(s, id)
    ensures Terminated(s, s.receiver.error)[id].done ==
      if s.calls[id].num in s.shared.pending then [ByTermination(s.receiver.error)] else s.calls[id].done
  {
    PendingOnce(s, id);
    hide S.NumbersOf;
    if s.calls[id].num in s.shared.pending { assert s.calls[id].done == []; }
  }

  // terminateCalls puts exactly one completion, with the error it was given, on
  // each pending call.
  lemma TerminationReachesPending(s: State)
    requires Inv(s) && s.receiver.Terminating?
    ensures ReceiverStep(s).Some?
    ensures ReceiverStep(s).value.calls.Keys == s.calls.Keys
    ensures forall id ::
      id in s.calls ==>
        ReceiverStep(s).value.calls[id].done ==
          if s.calls[id].num in s.shared.pending then [ByTermination(s.receiver.error)] else s.calls[id].done
  {
    CanTerminate(s);
    var calls := ReceiverStep(s).value.calls;
    assert calls == Terminated(s, s.receiver.error);
    assert calls.Keys == s.calls.Keys;
    hide CallOk, Terminated, S.NumbersOf, ReceiverStep;
    forall id | id in s.calls
      ensures calls[id].done ==
        if s.calls[id].num in s.shared.pending then [ByTermination(s.receiver.error)] else s.calls[id].done
    {
      TerminationReaches(s, id);
    }
  }

  // Reading a header has failed among the first k events.
  ghost predicate HeaderFailed(events: seq<Event>, k: nat)
    requires k <= |events|
  {
    exists j :: 0 <= j < k && events[j].HeaderFails?
  }

  predicate ByTerminationAt(s: State, id: Id, i: nat)
  {
    id in s.calls && i < |s.calls[id].done| && s.calls[id].done[i].ByTermination?
  }

  // The error on its way to terminateCalls, and then on the calls it completes, is
  // nil exactly if reading a header has failed.
  ghost predicate ErrorTells(s: State, failed: bool)
  {
    && (s.receiver.Stopping? || s.receiver.Terminating? ==> s.receiver.error == !failed)
    && (failed ==> s.receiver.Stopping? || s.receiver.Terminating? || s.receiver.Stopped?)
    && forall id, i: nat :: ByTerminationAt(s, id, i) ==> s.receiver.Stopped? && s.calls[id].done[i].error == !failed
  }

  // The step adds no completion by terminateCalls and leaves the receiver alone.
  ghost predicate AddsNoTermination(s: State, u: State)
  {
    forall id, i: nat ::
      ByTerminationAt(u, id, i) ==> ByTerminationAt(s, id, i) && u.calls[id].done[i] == s.calls[id].done[i]
  }

  // A caller leaves each call's completions as they are, or adds one of its own.
  lemma CallerCompletes(s: State, id: Id, id': Id)
    requires id in s.calls && CallerStep(s, id).Some?
    ensures var u := CallerStep(s, id).value;
      && u.receiver == s.receiver
      && (id' in u.calls ==>
           && id' in s.calls
           && (u.calls[id'].done == s.calls[id'].done || u.calls[id'].done == s.calls[id'].done + [ByRefusal]
               || u.calls[id'].done == s.calls[id'].done + [ByWriteError]))
  {
  }

  lemma CallerAddsNoTermination(s: State, id: Id)
    requires id in s.calls && CallerStep(s, id).Some?
    ensures AddsNoTermination(s, CallerStep(s, id).value) && CallerStep(s, id).value.receiver == s.receiver
  {
    var u := CallerStep(s, id).value;
    CallerCompletes(s, id, id);
    hide CallerStep;
    forall id', i: nat | ByTerminationAt(u, id', i)
      ensures ByTerminationAt(s, id', i) && u.calls[id'].done[i] == s.calls[id'].done[i]
    {
      CallerCompletes(s, id, id');
    }
  }

  lemma BodyAddsNoTermination(s: State, ok: bool)
    requires BodyStep(s, ok).Some?
    ensures AddsNoTermination(s, BodyStep(s, ok).value)
    ensures s.receiver.Holding? && BodyStep(s, ok).value.receiver == if ok then Reading else Stopping(true)
  {
  }

  lemma WriteAddsNoTermination(s: State, id: Id, ok: bool)
    requires id in s.calls && WriteStep(s, id, ok).Some?
    ensures AddsNoTermination(s, WriteStep(s, id, ok).value) && WriteStep(s, id, ok).value.receiver == s.receiver
  {
  }

  lemma ReceiverTells(s: State, failed: bool)
    requires ErrorTells(s, failed) && ReceiverStep(s).Some?
    ensures ErrorTells(ReceiverStep(s).value, failed)
  {
    if s.receiver.Terminating? {
      hide S.NumbersOf;
      var u := ReceiverStep(s).value;
      forall id, i: nat | ByTerminationAt(u, id, i) ensures u.calls[id].done[i].error == !failed {
        assert i < |s.calls[id].done| ==> !ByTerminationAt(s, id, i);
      }
    }
  }

  lemma CarriesOver(s: State, u: State, failed: bool)
    requires ErrorTells(s, failed) && AddsNoTermination(s, u) && u.receiver == s.receiver
    ensures ErrorTells(u, failed)
  {
  }

  lemma StepTells(s: State, e: Event, failed: bool)
    requires ErrorTells(s, failed) && Step(s, e).Some?
    ensures ErrorTells(Step(s, e).value, failed || e.HeaderFails?)
  {
    hide CallerStep, WriteStep, ReceiverStep, BodyStep;
    var u := Step(s, e).value;
    match e
    case Act(id) =>
      CallerAddsNoTermination(s, id);
      CarriesOver(s, u, failed);
    case Write(id, ok) =>
      WriteAddsNoTermination(s, id, ok);
      CarriesOver(s, u, failed);
    case Body(ok) => BodyAddsNoTermination(s, ok);
    case Receive => ReceiverTells(s, failed);
    case _ =>
  }

  lemma {:induction false} RunTells(events: seq<Event>, k: nat)
    requires k <= |events| && Run(events, k).Some?
    ensures ErrorTells(Run(events, k).value, HeaderFailed(events, k))
  {
    if k > 0 {
      RunTells(events, k - 1);
      hide Step, ErrorTells;
      assert HeaderFailed(events, k) <==> HeaderFailed(events, k - 1) || events[k - 1].HeaderFails?;
      StepTells(Run(events, k - 1).value, events[k - 1], HeaderFailed(events, k - 1));
    }
  }

  // A call completed by terminateCalls, without a reply, carries an error exactly
  // if no header failed to be read; otherwise it looks like a success.
  lemma HeaderFailureLooksLikeSuccess(events: seq<Event>, k: nat, id: Id, i: nat)
    requires k <= |events| && Run(events, k).Some?
    requires ByTerminationAt(Run(events, k).value, id, i)
    ensures Run(events, k).value.calls[id].done[i].error <==> forall j :: 0 <= j < k ==> !events[j].HeaderFails?
  {
    RunTells(events, k);
  }

  // A run in which that happens: one call is written, the next header cannot be
  // read, and the caller receives its call without an error.
  lemma HeaderFailureExample()
    ensures var events :=
        [Begin(0), Act(0), Act(0), Write(0, true), Act(0), HeaderFails, Receive, Receive, Take(0)];
      && Run(events, 9).Some?
      && 0 in Run(events, 9).value.calls
      && Run(events, 9).value.calls[0] == CallState(Received, 1, [ByTermination(false)], 0)
  {
    var events := [Begin(0), Act(0), Act(0), Write(0, true), Act(0), HeaderFails, Receive, Receive, Take(0)];
    var s1 := Initial().(calls := Initial().calls[0 := CallState(Entering, 0, [], 0)]);
    var s2 := s1.(calls := s1.calls[0 := CallState(Registering, 0, [], 0)], sending := Some(Caller(0)));
    var s3 := s2.(calls := s2.calls[0 := CallState(Writing(1), 1, [], 0)], order := s2.order + [0],
                  shared := s2.shared.(nextSeq := 2, pending := s2.shared.pending[1 := 0]));
    var s4 := s3.(calls := s3.calls[0 := CallState(Leaving, 1, [], 0)], wire := s3.wire + [1]);
    var s5 := s4.(calls := s4.calls[0 := CallState(Selecting, 1, [], 0)], sending := None);
    var s7 := s5.(receiver := Terminating(false), sending := Some(Receiver));
    var s8 := s5.(receiver := Stopped, shared := S.Terminate(s5.shared), calls := Terminated(s7, false));
    hide Run;
    RunNext(events, 0, Initial(), s1);
    RunNext(events, 1, s1, s2);
    RunNext(events, 2, s2, s3);
    RunNext(events, 3, s3, s4);
    RunNext(events, 4, s4, s5);
    RunNext(events, 5, s5, s5.(receiver := Stopping(false)));
    RunNext(events, 6, s5.(receiver := Stopping(false)), s7);
    assert S.NumbersOf(s7.shared.pending, 0) == {1};
    assert s8.calls[0] == CallState(Selecting, 1, [ByTermination(false)], 0);
    RunNext(events, 7, s7, s8);
    RunNext(events, 8, s8, Step(s8, Take(0)).value);
  }

  lemma RunNext(events: seq<Event>, k: nat, s: State, u: State)
    requires k < |events| && (k == 0 ==> s == Initial()) && (k > 0 ==> Run(events, k) == Some(s))
    requires Step(s, events[k]) == Some(u)
    ensures Run(events, k + 1) == Some(u)
  {
  }

  // ---------- After Close ----------

  // Pending in a closed client, and completed by nothing but terminateCalls.
  predicate LeftPending(s: State, id: Id)
  {
    && id in s.calls && s.shared.closing && s.calls[id].num in s.shared.pending
    && if s.shared.shutdown then |s.calls[id].done| == 1 && s.calls[id].done[0].ByTermination? else s.calls[id].done == []
  }

  // What no step undoes for a pending call of a closed client.
  ghost predicate KeepsPending(s: State, u: State, id: Id)
    requires id in s.calls
  {
    && id in u.calls && u.calls[id].num == s.calls[id].num && u.shared == s.shared
    && |s.calls[id].done| <= |u.calls[id].done| && u.calls[id].done[..|s.calls[id].done|] == s.calls[id].done
  }

  lemma ClosedCallerStep(s: State, e: Id, id: Id)
    requires id in s.calls && s.shared.closing && e in s.calls && CallerStep(s, e).Some?
    requires s.calls[id].num in s.shared.pending && CallOk(s, id) && 0 !in s.shared.pending
    ensures KeepsPending(s, CallerStep(s, e).value, id)
  {
  }

  lemma ClosedReceiverStep(s: State, id: Id)
    requires id in s.calls && s.shared.closing && ReceiverStep(s).Some? && !s.receiver.Terminating?
    ensures KeepsPending(s, ReceiverStep(s).value, id)
  {
  }

  lemma ClosedStep(s: State, e: Event, id: Id)
    requires id in s.calls && s.shared.closing && Step(s, e).Some?
    requires s.calls[id].num in s.shared.pending && CallOk(s, id) && 0 !in s.shared.pending
    requires !s.receiver.Terminating? || e != Receive
    ensures KeepsPending(s, Step(s, e).value, id)
  {
    hide CallerStep, ReceiverStep, CallOk;
    match e
    case Act(id') => ClosedCallerStep(s, id', id);
    case Receive => ClosedReceiverStep(s, id);
    case _ =>
  }

  lemma LeftPendingStays(s: State, e: Event, id: Id)
    requires Inv(s) && Step(s, e).Some? && Inv(Step(s, e).value) && LeftPending(s, id)
    ensures LeftPending(Step(s, e).value, id)
  {
    hide Step, CallOk, ReceiverStep, Terminated;
    if e == Receive && s.receiver.Terminating? {
      TerminationReachesPending(s);
      TerminatingShuts(s, id);
    } else {
      ClosedStep(s, e, id);
      DoneOnce(Step(s, e).value, id);
    }
  }

  lemma TerminatingShuts(s: State, id: Id)
    requires s.receiver.Terminating? && ReceiverStep(s).Some?
    ensures Step(s, Receive) == ReceiverStep(s) && ReceiverStep(s).value.shared == S.Terminate(s.shared)
    ensures id in s.calls ==> id in ReceiverStep(s).value.calls && ReceiverStep(s).value.calls[id].num == s.calls[id].num
  {
  }

  lemma DoneOnce(s: State, id: Id)
    requires id in s.calls && CallOk(s, id)
    ensures |s.calls[id].done| + One(!s.shared.shutdown && s.calls[id].num in s.shared.pending) <= 1
  {
  }

  lemma PendingIsLeft(s: State, id: Id)
    requires Inv(s) && s.shared.closing && !s.shared.shutdown && id in s.calls && s.calls[id].num in s.shared.pending
    ensures LeftPending(s, id)
  {
    hide CallOk;
    DoneOnce(s, id);
  }

  // A call that is pending when the client is closed, even one whose reply is on
  // its way, is completed by terminateCalls and by nothing else.
  lemma {:induction false} CloseLeavesItToTermination(events: seq<Event>, k: nat, l: nat, id: Id)
    requires k <= l && IsRun(events, k) && IsRun(events, l)
    requires var s := Run(events, k).value;
      s.shared.closing && !s.shared.shutdown && id in s.calls && s.calls[id].num in s.shared.pending
    ensures LeftPending(Run(events, l).value, id)
  {
    hide Step, Inv, LeftPending;
    if k == l {
      RunKeepsInv(events, k);
      PendingIsLeft(Run(events, k).value, id);
    } else {
      CloseLeavesItToTermination(events, k, l - 1, id);
      RunKeepsInv(events, l - 1);
      RunKeepsInv(events, l);
      LeftPendingStays(Run(events, l - 1).value, events[l - 1], id);
    }
  }
}
