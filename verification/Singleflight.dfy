// Singleflight's Do, run by any number of threads: one step per lock, unlock or
// blocking operation. The switch relock keeps (true) or drops (false) line 28,
// which locks the mutex a second time.
module Singleflight {
  import opened Wrappers

  type Tid = nat
  type CallId = nat

  datatype Pc<V> =
    | Start                            // before locking
    | Checking                         // holds the lock, looks the key up
    | Joined(c: CallId)                // holds the lock, found a call
    | Waiting(c: CallId)               // waits for the call
    | Relock                           // holds the lock, locks again
    | Inserting                        // holds the lock, inserts its own call
    | Running(c: CallId)               // runs fn
    | Stored(c: CallId)                // has stored fn's result
    | Cleaning(c: CallId)              // has woken the waiters
    | Deleting(c: CallId)              // holds the lock, deletes the key
    | Returned(c: CallId, value: V)

  datatype Thread<V> = Thread(key: string, pc: Pc<V>)

  datatype Call<V> = Call(key: string, leader: Tid, value: Option<V>, done: bool)

  datatype State<V> = State(
    mu: Option<Tid>,
    m: map<string, CallId>,
    calls: seq<Call<V>>,               // every call ever made
    threads: map<Tid, Thread<V>>,
    runs: seq<(CallId, V)>)            // every return of fn, with the call it was for

  datatype Event<V> = Arrive(t: Tid, key: string) | Act(t: Tid) | Finish(t: Tid, value: V)

  function Initial<V>(): State<V>
  {
    State(None, map[], [], map[], [])
  }

  function Goto<V>(s: State<V>, t: Tid, pc: Pc<V>): State<V>
    requires t in s.threads
  {
    s.(threads := s.threads[t := Thread(s.threads[t].key, pc)])
  }

  // The step of thread t, unless it is blocked.
  function Act1<V>(s: State<V>, t: Tid, relock: bool): Option<State<V>>
    requires t in s.threads
  {
    var key := s.threads[t].key;
    match s.threads[t].pc
    case Start =>
      if s.mu.Some? then None else Some(Goto(s, t, Checking).(mu := Some(t)))
    case Checking =>
      if key in s.m then Some(Goto(s, t, Joined(s.m[key])))
      else Some(Goto(s, t, if relock then Relock else Inserting))
    case Joined(c) => Some(Goto(s, t, Waiting(c)).(mu := None))
    case Waiting(c) =>
      if c < |s.calls| && s.calls[c].done && s.calls[c].value.Some? then
        Some(Goto(s, t, Returned(c, s.calls[c].value.value)))
      else None
    case Relock =>
      if s.mu.Some? then None else Some(Goto(s, t, Inserting).(mu := Some(t)))
    case Inserting =>
      Some(Goto(s, t, Running(|s.calls|)).(
        mu := None, m := s.m[key := |s.calls|], calls := s.calls + [Call(key, t, None, false)]))
    case Stored(c) =>
      if c < |s.calls| then Some(Goto(s, t, Cleaning(c)).(calls := s.calls[c := s.calls[c].(done := true)])) else None
    case Cleaning(c) =>
      if s.mu.Some? then None else Some(Goto(s, t, Deleting(c)).(mu := Some(t)))
    case Deleting(c) =>
      if c < |s.calls| && s.calls[c].value.Some? then
        Some(Goto(s, t, Returned(c, s.calls[c].value.value)).(mu := None, m := s.m - {key}))
      else None
    case Running(_) => None
    case Returned(_, _) => None
  }

  // fn returns at thread t, with any value.
  function Finish1<V>(s: State<V>, t: Tid, value: V): Option<State<V>>
    requires t in s.threads
  {
    match s.threads[t].pc
    case Running(c) =>
      if c < |s.calls| then
        Some(Goto(s, t, Stored(c)).(calls := s.calls[c := s.calls[c].(value := Some(value))], runs := s.runs + [(c, value)]))
      else None
    case _ => None
  }

  function Step<V>(s: State<V>, e: Event<V>, relock: bool): Option<State<V>>
  {
    match e
    case Arrive(t, key) =>
      if t in s.threads then None else Some(s.(threads := s.threads[t := Thread(key, Start)]))
    case Act(t) => if t in s.threads then Act1(s, t, relock) else None
    case Finish(t, value) => if t in s.threads then Finish1(s, t, value) else None
  }

  // The state after the first k events of an interleaving, if all were possible.
  function Run<V>(events: seq<Event<V>>, k: nat, relock: bool): Option<State<V>>
    requires k <= |events|
  {
    if k == 0 then Some(Initial())
    else match Run(events, k - 1, relock)
      case None => None
      case Some(s) => Step(s, events[k - 1], relock)
  }

  // ---------- The intended protocol ----------

  predicate Holds<V>(pc: Pc<V>)
  {
    pc.Checking? || pc.Joined? || pc.Relock? || pc.Inserting? || pc.Deleting?
  }

  predicate Leads<V>(pc: Pc<V>)
  {
    pc.Running? || pc.Stored? || pc.Cleaning? || pc.Deleting?
  }

  // What is true of each thread, each key in the table and each call.
  ghost predicate ThreadOk<V>(s: State<V>, t: Tid)
    requires t in s.threads
  {
    var key, pc := s.threads[t].key, s.threads[t].pc;
    && (Holds(pc) ==> s.mu == Some(t))
    && !pc.Relock?
    && (pc.Inserting? ==> key !in s.m)
    && (pc.Joined? || pc.Waiting? || pc.Returned? || Leads(pc) ==> pc.c < |s.calls| && s.calls[pc.c].key == key)
    && (Leads(pc) ==>
         && s.calls[pc.c].leader == t && key in s.m && s.m[key] == pc.c
         && s.calls[pc.c].value.Some? == !pc.Running?
         && s.calls[pc.c].done == (pc.Cleaning? || pc.Deleting?))
    && (pc.Returned? ==> s.calls[pc.c].value == Some(pc.value))
  }

  // A key in the table belongs to a call whose leader is still at work.
  predicate KeyOk<V>(s: State<V>, key: string)
    requires key in s.m
  {
    var c := s.m[key];
    && c < |s.calls| && s.calls[c].key == key
    && s.calls[c].leader in s.threads
    && var leader := s.threads[s.calls[c].leader];
       leader.key == key && Leads(leader.pc) && leader.pc.c == c
  }

  // Until a call is done its leader is running fn for it or about to wake the
  // waiters.
  predicate InProgress<V>(s: State<V>, c: CallId)
    requires c < |s.calls|
  {
    s.calls[c].done ||
    (s.calls[c].leader in s.threads
     && var pc := s.threads[s.calls[c].leader].pc; (pc.Running? || pc.Stored?) && pc.c == c)
  }

  // A call has a value exactly if fn returned for it, once, with that value.
  ghost predicate CallOk<V>(s: State<V>, c: CallId)
    requires c < |s.calls|
  {
    InProgress(s, c) &&
    match s.calls[c].value
    case None => !s.calls[c].done && forall i :: 0 <= i < |s.runs| ==> s.runs[i].0 != c
    case Some(v) => exists i: nat :: SingleRun(s.runs, c, v, i)
  }

  ghost predicate SingleRun<V>(runs: seq<(CallId, V)>, c: CallId, v: V, i: nat)
  {
    i < |runs| && runs[i] == (c, v) && forall j :: 0 <= j < |runs| && j != i ==> runs[j].0 != c
  }

  ghost predicate Inv<V>(s: State<V>)
  {
    && (forall t :: t in s.threads ==> ThreadOk(s, t))
    && (forall key :: key in s.m ==> KeyOk(s, key))
    && (forall c :: 0 <= c < |s.calls| ==> CallOk(s, c))
    && (forall i :: 0 <= i < |s.runs| ==> s.runs[i].0 < |s.calls|)
    && (s.mu.Some? ==> s.mu.value in s.threads && Holds(s.threads[s.mu.value].pc))
  }

  lemma ActKeepsOther<V>(s: State<V>, t: Tid, t': Tid)
    requires t in s.threads && ThreadOk(s, t) && t' in s.threads && ThreadOk(s, t') && t' != t
    requires Act1(s, t, false).Some?
    ensures t' in Act1(s, t, false).value.threads && ThreadOk(Act1(s, t, false).value, t')
  {
  }

  lemma ActKeepsSelf<V>(s: State<V>, t: Tid)
    requires t in s.threads && ThreadOk(s, t) && Act1(s, t, false).Some?
    requires s.threads[t].pc.Checking? && s.threads[t].key in s.m ==> KeyOk(s, s.threads[t].key)
    ensures t in Act1(s, t, false).value.threads && ThreadOk(Act1(s, t, false).value, t)
  {
  }

  lemma ActKeepsThread<V>(s: State<V>, t: Tid, t': Tid)
    requires Inv(s) && t in s.threads && Act1(s, t, false).Some?
    requires t' in Act1(s, t, false).value.threads
    ensures ThreadOk(Act1(s, t, false).value, t')
  {
    assert Act1(s, t, false).value.threads.Keys == s.threads.Keys;
    hide CallOk, KeyOk, ThreadOk, Act1;
    if t' == t { ActKeepsSelf(s, t); } else { ActKeepsOther(s, t, t'); }
  }

  lemma ActKeepsKey<V>(s: State<V>, t: Tid, key: string)
    requires t in s.threads && ThreadOk(s, t) && Act1(s, t, false).Some?
    requires key in s.m ==> KeyOk(s, key)
    requires key in Act1(s, t, false).value.m
    ensures KeyOk(Act1(s, t, false).value, key)
  {
    if s.threads[t].pc.Inserting? && key == s.threads[t].key {
    } else {
      assert key in s.m;
    }
  }

  lemma NewCallOk<V>(s: State<V>, t: Tid)
    requires t in s.threads && s.threads[t].pc.Inserting? && Act1(s, t, false).Some?
    requires forall i :: 0 <= i < |s.runs| ==> s.runs[i].0 < |s.calls|
    ensures var u := Act1(s, t, false).value; |u.calls| == |s.calls| + 1 && CallOk(u, |s.calls|)
  {
  }

  lemma ActKeepsOldCall<V>(s: State<V>, t: Tid, c: CallId)
    requires t in s.threads && ThreadOk(s, t) && Act1(s, t, false).Some?
    requires c < |s.calls| && CallOk(s, c)
    ensures c < |Act1(s, t, false).value.calls| && CallOk(Act1(s, t, false).value, c)
  {
  }

  lemma ActKeepsCall<V>(s: State<V>, t: Tid, c: CallId)
    requires Inv(s) && t in s.threads && Act1(s, t, false).Some?
    requires c < |Act1(s, t, false).value.calls|
    ensures CallOk(Act1(s, t, false).value, c)
  {
    hide ThreadOk, CallOk, KeyOk;
    assert ThreadOk(s, t);
    if c < |s.calls| { ActKeepsOldCall(s, t, c); } else { NewCallOk(s, t); }
  }

  lemma ActKeepsLock<V>(s: State<V>, t: Tid)
    requires Inv(s) && t in s.threads && Act1(s, t, false).Some?
    ensures var u := Act1(s, t, false).value;
      && (u.mu.Some? ==> u.mu.value in u.threads && Holds(u.threads[u.mu.value].pc))
      && u.runs == s.runs && |u.calls| >= |s.calls|
  {
    hide CallOk, KeyOk;
    assert ThreadOk(s, t);
  }

  lemma ActKeepsInv<V>(s: State<V>, t: Tid)
    requires Inv(s) && t in s.threads && Act1(s, t, false).Some?
    ensures Inv(Act1(s, t, false).value)
  {
    assert ThreadOk(s, t);
    hide Act1, ThreadOk, KeyOk, CallOk;
    var u := Act1(s, t, false).value;
    forall t' | t' in u.threads ensures ThreadOk(u, t') {
      ActKeepsThread(s, t, t');
    }
    forall key | key in u.m ensures KeyOk(u, key) {
      ActKeepsKey(s, t, key);
    }
    forall c | 0 <= c < |u.calls| ensures CallOk(u, c) {
      ActKeepsCall(s, t, c);
    }
    ActKeepsLock(s, t);
  }

  lemma FinishKeepsThread<V>(s: State<V>, t: Tid, value: V, t': Tid)
    requires t in s.threads && ThreadOk(s, t) && t' in s.threads && ThreadOk(s, t')
    requires Finish1(s, t, value).Some?
    ensures Finish1(s, t, value).value.threads.Keys == s.threads.Keys
    ensures ThreadOk(Finish1(s, t, value).value, t')
  {
  }

  lemma FinishKeepsCall<V>(s: State<V>, t: Tid, value: V, c: CallId)
    requires t in s.threads && ThreadOk(s, t) && Finish1(s, t, value).Some?
    requires c < |s.calls| && CallOk(s, c) && s.threads[t].pc.c < |s.calls| && CallOk(s, s.threads[t].pc.c)
    ensures |Finish1(s, t, value).value.calls| == |s.calls| && CallOk(Finish1(s, t, value).value, c)
  {
    var u := Finish1(s, t, value).value;
    if c == s.threads[t].pc.c {
      assert SingleRun(u.runs, c, value, |s.runs|);
    } else if s.calls[c].value.Some? {
      var i: nat :| SingleRun(s.runs, c, s.calls[c].value.value, i);
      assert SingleRun(u.runs, c, s.calls[c].value.value, i);
    }
  }

  lemma FinishKeepsKey<V>(s: State<V>, t: Tid, value: V, key: string)
    requires t in s.threads && Finish1(s, t, value).Some? && key in s.m && KeyOk(s, key)
    ensures Finish1(s, t, value).value.m == s.m && KeyOk(Finish1(s, t, value).value, key)
  {
  }

  lemma FinishKeepsInv<V>(s: State<V>, t: Tid, value: V)
    requires Inv(s) && t in s.threads && Finish1(s, t, value).Some?
    ensures Inv(Finish1(s, t, value).value)
  {
    var u := Finish1(s, t, value).value;
    assert ThreadOk(s, t);
    assert s.threads[t].pc.Running? && s.threads[t].pc.c < |s.calls|;
    hide ThreadOk, KeyOk, CallOk;
    forall t' | t' in u.threads ensures ThreadOk(u, t') {
      FinishKeepsThread(s, t, value, t');
    }
    forall key | key in u.m ensures KeyOk(u, key) {
      FinishKeepsKey(s, t, value, key);
    }
    forall c | 0 <= c < |u.calls| ensures CallOk(u, c) {
      FinishKeepsCall(s, t, value, c);
    }
  }

  lemma ArriveKeepsInv<V>(s: State<V>, t: Tid, key: string)
    requires Inv(s) && t !in s.threads
    ensures Inv(s.(threads := s.threads[t := Thread(key, Start)]))
  {
    var u := s.(threads := s.threads[t := Thread(key, Start)]);
    forall t' | t' in u.threads ensures ThreadOk(u, t') {
      if t' != t { assert ThreadOk(s, t'); }
    }
    forall k | k in u.m ensures KeyOk(u, k) {
      assert KeyOk(s, k);
    }
    forall c | 0 <= c < |u.calls| ensures CallOk(u, c) {
      assert CallOk(s, c);
    }
  }

  lemma {:induction false} RunKeepsInv<V>(events: seq<Event<V>>, k: nat)
    requires k <= |events| && Run(events, k, false).Some?
    ensures Inv(Run(events, k, false).value)
  {
    if k > 0 {
      RunKeepsInv(events, k - 1);
      var s := Run(events, k - 1, false).value;
      hide Inv, Act1, Finish1;
      match events[k - 1]
      case Arrive(t, key) => ArriveKeepsInv(s, t, key);
      case Act(t) => ActKeepsInv(s, t);
      case Finish(t, value) => FinishKeepsInv(s, t, value);
    }
  }

  // Two threads that both lead a call for the same key.
  predicate LeadersOf<V>(s: State<V>, t: Tid, t': Tid)
  {
    && t in s.threads && t' in s.threads && s.threads[t].key == s.threads[t'].key
    && Leads(s.threads[t].pc) && Leads(s.threads[t'].pc)
  }

  // In every interleaving: at most one thread per key is between inserting and
  // deleting its call; the call it will delete is its own; and every thread that
  // has returned has the result of the only run of fn for the call it made or
  // joined, a call for its own key.
  lemma SingleflightHolds<V>(events: seq<Event<V>>, k: nat)
    requires k <= |events| && Run(events, k, false).Some?
    ensures var s := Run(events, k, false).value;
      && (forall t, t' :: LeadersOf(s, t, t') ==> t == t')
      && (forall t :: t in s.threads && s.threads[t].pc.Deleting? ==>
           && s.threads[t].key in s.m && s.m[s.threads[t].key] < |s.calls|
           && s.calls[s.m[s.threads[t].key]].leader == t)
      && (forall t :: t in s.threads && s.threads[t].pc.Returned? ==>
           && s.threads[t].pc.c < |s.calls| && s.calls[s.threads[t].pc.c].key == s.threads[t].key
           && exists i: nat :: SingleRun(s.runs, s.threads[t].pc.c, s.threads[t].pc.value, i))
  {
    RunKeepsInv(events, k);
    var s := Run(events, k, false).value;
    forall t, t' | LeadersOf(s, t, t') ensures t == t' {
      assert ThreadOk(s, t) && ThreadOk(s, t');
    }
    forall t | t in s.threads && s.threads[t].pc.Returned?
      ensures exists i: nat :: SingleRun(s.runs, s.threads[t].pc.c, s.threads[t].pc.value, i)
    {
      assert ThreadOk(s, t) && CallOk(s, s.threads[t].pc.c);
    }
  }

  // The threads of a Do: how far it has come.
  function Progress<V>(pc: Pc<V>): nat
  {
    match pc
    case Start => 0
    case Checking => 1
    case Joined(_) => 2
    case Relock => 2
    case Inserting => 3
    case Running(_) => 4
    case Waiting(_) => 5
    case Stored(_) => 5
    case Cleaning(_) => 6
    case Deleting(_) => 7
    case Returned(_, _) => 8
  }

  lemma ActMovesOne<V>(s: State<V>, t: Tid, relock: bool, t': Tid)
    requires t in s.threads && Act1(s, t, relock).Some? && t' in s.threads && t' != t
    ensures var u := Act1(s, t, relock).value; t' in u.threads && u.threads[t'] == s.threads[t']
  {
  }

  lemma ActAdvances<V>(s: State<V>, t: Tid, relock: bool)
    requires t in s.threads && Act1(s, t, relock).Some?
    ensures var u := Act1(s, t, relock).value;
      t in u.threads && u.threads[t].key == s.threads[t].key && Progress(u.threads[t].pc) > Progress(s.threads[t].pc)
  {
  }

  // Every step takes its own thread forward and moves no other, so a Do takes at
  // most eight steps.
  lemma StepsAdvance<V>(s: State<V>, e: Event<V>, relock: bool, t: Tid)
    requires Step(s, e, relock).Some? && t in s.threads
    ensures var u := Step(s, e, relock).value;
      && t in u.threads && u.threads[t].key == s.threads[t].key
      && if e == Act(t) || (e.Finish? && e.t == t)
         then Progress(u.threads[t].pc) > Progress(s.threads[t].pc)
         else u.threads[t].pc == s.threads[t].pc
  {
    hide Act1, Progress;
    match e
    case Act(t') => if t' == t { ActAdvances(s, t, relock); } else { ActMovesOne(s, t', relock, t); }
    case Finish(t', value) => FinishAdvances(s, t', value, t);
    case Arrive(_, _) =>
  }

  lemma FinishAdvances<V>(s: State<V>, t: Tid, value: V, t': Tid)
    requires t in s.threads && Finish1(s, t, value).Some? && t' in s.threads
    ensures var u := Finish1(s, t, value).value;
      && t' in u.threads && u.threads[t'].key == s.threads[t'].key
      && if t' == t then Progress(u.threads[t].pc) > Progress(s.threads[t].pc) else u.threads[t'].pc == s.threads[t'].pc
  {
  }

  // The thread has joined call c, waits for it or has returned its result.
  predicate With<V>(pc: Pc<V>, c: CallId)
  {
    (pc.Joined? || pc.Waiting? || pc.Returned?) && pc.c == c
  }

  lemma ActStaysWith<V>(s: State<V>, t: Tid, relock: bool, c: CallId)
    requires t in s.threads && Act1(s, t, relock).Some? && With(s.threads[t].pc, c)
    ensures t in Act1(s, t, relock).value.threads && With(Act1(s, t, relock).value.threads[t].pc, c)
  {
  }

  lemma StaysWith<V>(s: State<V>, e: Event<V>, relock: bool, t: Tid, c: CallId)
    requires Step(s, e, relock).Some? && t in s.threads && With(s.threads[t].pc, c)
    ensures t in Step(s, e, relock).value.threads && With(Step(s, e, relock).value.threads[t].pc, c)
  {
    hide Act1;
    match e
    case Act(t') => if t' == t { ActStaysWith(s, t, relock, c); } else { ActMovesOne(s, t', relock, t); }
    case _ =>
  }

  // A Do that finds a call in flight for its key joins that call and stays with it.
  lemma {:induction false} FoundCallIsJoined<V>(events: seq<Event<V>>, k: nat, l: nat, relock: bool, t: Tid)
    requires k < l <= |events| && Run(events, k, relock).Some? && Run(events, l, relock).Some?
    requires events[k] == Act(t)
    requires var s := Run(events, k, relock).value;
      t in s.threads && s.threads[t].pc.Checking? && s.threads[t].key in s.m
    ensures var s, u := Run(events, k, relock).value, Run(events, l, relock).value;
      t in u.threads && With(u.threads[t].pc, s.m[s.threads[t].key])
  {
    if k + 1 < l {
      FoundCallIsJoined(events, k, l - 1, relock, t);
      var s := Run(events, k, relock).value;
      StaysWith(Run(events, l - 1, relock).value, events[l - 1], relock, t, s.m[s.threads[t].key]);
    }
  }

  // A Do that finds none makes one of its own and runs fn for it.
  lemma MissingCallIsMade<V>(s: State<V>, t: Tid)
    requires t in s.threads && s.threads[t].pc.Checking? && s.threads[t].key !in s.m
    ensures var u := Act1(s, t, false).value;
      && Act1(s, t, false).Some? && t in u.threads && Act1(u, t, false).Some?
      && var w := Act1(u, t, false).value;
        && t in w.threads && w.threads[t].pc == Running(|s.calls|) && w.mu == None
        && w.m == s.m[s.threads[t].key := |s.calls|] && w.calls == s.calls + [Call(s.threads[t].key, t, None, false)]
  {
  }

  // As long as some thread has not returned, some thread can go on.
  lemma NoDeadlock<V>(events: seq<Event<V>>, k: nat, t: Tid, value: V) returns (t': Tid)
    requires k <= |events| && Run(events, k, false).Some?
    requires t in Run(events, k, false).value.threads && !Run(events, k, false).value.threads[t].pc.Returned?
    ensures var s := Run(events, k, false).value;
      t' in s.threads && (Act1(s, t', false).Some? || Finish1(s, t', value).Some?)
  {
    RunKeepsInv(events, k);
    var s := Run(events, k, false).value;
    t' := t;
    assert ThreadOk(s, t);
    if s.mu.Some? {
      t' := s.mu.value;
      assert ThreadOk(s, t');
      if s.threads[t'].pc.Deleting? { assert CallOk(s, s.threads[t'].pc.c); }
    } else if s.threads[t].pc.Waiting? {
      var c := s.threads[t].pc.c;
      assert CallOk(s, c);
      if !s.calls[c].done { t' := s.calls[c].leader; }
    }
  }

  // ---------- As written ----------

  // With line 28, at most one thread ever gets past the first lock, and it stays there.
  ghost predicate Jammed<V>(s: State<V>)
  {
    && s.m == map[] && s.calls == []
    && (forall t :: t in s.threads ==>
         && (s.threads[t].pc.Start? || s.threads[t].pc.Checking? || s.threads[t].pc.Relock?)
         && (!s.threads[t].pc.Start? ==> s.mu == Some(t)))
    && (s.mu.Some? ==> s.mu.value in s.threads && !s.threads[s.mu.value].pc.Start?)
  }

  lemma StepJams<V>(s: State<V>, e: Event<V>)
    requires Jammed(s) && Step(s, e, true).Some?
    ensures Jammed(Step(s, e, true).value)
  {
  }

  lemma {:induction false} RunJams<V>(events: seq<Event<V>>, k: nat)
    requires k <= |events| && Run(events, k, true).Some?
    ensures Jammed(Run(events, k, true).value)
  {
    if k > 0 {
      hide Step, Jammed;
      RunJams(events, k - 1);
      StepJams(Run(events, k - 1, true).value, events[k - 1]);
    }
  }

  // Thread t holds the mutex and waits for it.
  ghost predicate Stuck<V>(s: State<V>, t: Tid)
  {
    && s.mu == Some(t) && t in s.threads && s.threads[t].pc.Relock?
    && forall t' :: t' in s.threads ==> Act1(s, t', true) == None
  }

  lemma JammedIsStuck<V>(s: State<V>, t: Tid)
    requires Jammed(s) && t in s.threads && s.threads[t].pc.Relock?
    ensures Stuck(s, t)
  {
  }

  lemma StuckStays<V>(s: State<V>, t: Tid, e: Event<V>)
    requires Jammed(s) && Stuck(s, t) && Step(s, e, true).Some?
    ensures Stuck(Step(s, e, true).value, t)
  {
    StepJams(s, e);
    JammedIsStuck(Step(s, e, true).value, t);
  }

  // A Do that finds no call in flight keeps the mutex in all later states: it is
  // stuck on the second lock, and so is everyone who arrives.
  lemma {:induction false} StuckForEver<V>(events: seq<Event<V>>, k: nat, l: nat, t: Tid)
    requires k <= l <= |events| && Run(events, k, true).Some? && Run(events, l, true).Some?
    requires t in Run(events, k, true).value.threads && Run(events, k, true).value.threads[t].pc.Relock?
    ensures Stuck(Run(events, l, true).value, t)
    decreases l
  {
    hide Stuck, Jammed, Step;
    if k == l {
      RunJams(events, k);
      JammedIsStuck(Run(events, k, true).value, t);
    } else {
      StuckForEver(events, k, l - 1, t);
      RunJams(events, l - 1);
      StuckStays(Run(events, l - 1, true).value, t, events[l - 1]);
    }
  }

  // So as written no Do ever returns.
  lemma NoDoReturns<V>(events: seq<Event<V>>, k: nat, t: Tid)
    requires k <= |events| && Run(events, k, true).Some? && t in Run(events, k, true).value.threads
    ensures !Run(events, k, true).value.threads[t].pc.Returned?
  {
    RunJams(events, k);
  }
}
