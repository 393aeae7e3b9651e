// The middleware chain: Next is a loop over a cursor that every handler shares
// and may advance by calling Next itself, any number of times.
module Middleware {

  // What a handler does, as far as the chain can tell. Recovering runs its body
  // under a deferred recover.
  datatype Stmt = Next | Panic | Recovering(body: Handler)

  type Handler = seq<Stmt>

  const Recovery: Handler := [Recovering([Next])]

  // Where the cursor is left, and whether a panic is under way.
  datatype Outcome = Outcome(cursor: int, panicked: bool)

  // Bounds the depth of the calls below: a loop at c, or a handler run at c.
  function LoopRank(n: int, c: int): nat
  {
    if c < n then 2 * (n - c) + 1 else 0
  }

  function RunRank(n: int, c: int): nat
  {
    if c < n then 2 * (n - c) else 1
  }

  function Loop(handlers: seq<Handler>, c: int): (o: Outcome)
    requires c >= 0
    ensures o.cursor >= c
    decreases LoopRank(|handlers|, c)
  {
    if c >= |handlers| then Outcome(c, false)
    else
      var o := Run(handlers, handlers[c], c);
      if o.panicked then o else Loop(handlers, o.cursor + 1)
  }

  function Run(handlers: seq<Handler>, stmts: Handler, c: int): (o: Outcome)
    requires c >= -1
    ensures o.cursor >= c
    decreases RunRank(|handlers|, c), stmts
  {
    if stmts == [] then Outcome(c, false)
    else
      var o := match stmts[0]
        case Next => Loop(handlers, c + 1)
        case Panic => Outcome(c, true)
        case Recovering(body) => Outcome(Run(handlers, body, c).cursor, false);
      if o.panicked then o else Run(handlers, stmts[1..], o.cursor)
  }

  // A loop that no panic cuts short runs the cursor past the last handler, and
  // one past the end cannot panic.
  lemma {:induction false} LoopStartsAll(handlers: seq<Handler>, c: nat)
    ensures var o := Loop(handlers, c);
      if o.panicked then c < |handlers| else o.cursor >= |handlers|
    decreases LoopRank(|handlers|, c)
  {
    if c < |handlers| {
      var o := Run(handlers, handlers[c], c);
      if !o.panicked { LoopStartsAll(handlers, o.cursor + 1); }
    }
  }

  // When a handler that calls Next ends without a panic, all later handlers have
  // been run.
  lemma {:induction false} NextRunsRest(handlers: seq<Handler>, stmts: Handler, c: nat)
    ensures !Run(handlers, stmts, c).panicked && Next in stmts ==> Run(handlers, stmts, c).cursor >= |handlers|
    decreases stmts
  {
    if stmts != [] {
      assert stmts == [stmts[0]] + stmts[1..];
      match stmts[0]
      case Next =>
        LoopStartsAll(handlers, c + 1);
        var o := Loop(handlers, c + 1);
        if !o.panicked { NextRunsRest(handlers, stmts[1..], o.cursor); }
      case Panic =>
      case Recovering(body) => NextRunsRest(handlers, stmts[1..], Run(handlers, body, c).cursor);
    }
  }

  // ---------- Which panics get out ----------

  predicate RecoveryFree(stmts: Handler)
  {
    forall i :: 0 <= i < |stmts| ==> !stmts[i].Recovering?
  }

  // One of the handlers from c on panics by itself.
  predicate PanicsFrom(handlers: seq<Handler>, c: int)
  {
    exists j :: c <= j < |handlers| && j >= 0 && Panic in handlers[j]
  }

  // Without recovering handlers a panic anywhere ahead is met, however often and
  // wherever the handlers call Next, and it ends the loop.
  lemma {:induction false} PanicsMeet(handlers: seq<Handler>, c: nat)
    requires forall j :: c <= j < |handlers| ==> RecoveryFree(handlers[j])
    ensures Loop(handlers, c).panicked <==> PanicsFrom(handlers, c)
    decreases LoopRank(|handlers|, c)
  {
    if c < |handlers| {
      var o := Run(handlers, handlers[c], c);
      RunPanics(handlers, handlers[c], c);
      if !o.panicked { PanicsMeet(handlers, o.cursor + 1); }
    }
  }

  lemma {:induction false} RunPanics(handlers: seq<Handler>, stmts: Handler, c: nat)
    requires RecoveryFree(stmts) && forall j :: c < j < |handlers| ==> RecoveryFree(handlers[j])
    ensures Run(handlers, stmts, c).panicked <==>
      Panic in stmts || (Next in stmts && PanicsFrom(handlers, c + 1))
    ensures !Run(handlers, stmts, c).panicked ==>
      Run(handlers, stmts, c).cursor == c || !PanicsFrom(handlers, c + 1)
    decreases RunRank(|handlers|, c), stmts
  {
    if stmts != [] {
      var rest := stmts[1..];
      assert stmts == [stmts[0]] + rest;
      if stmts[0].Next? {
        PanicsMeet(handlers, c + 1);
        var o := Loop(handlers, c + 1);
        if !o.panicked { RunPanics(handlers, rest, o.cursor); }
      } else {
        RunPanics(handlers, rest, c);
      }
    }
  }

  // ---------- Chains with Recovery in them ----------

  predicate Plain(stmts: Handler)
  {
    stmts == Recovery || RecoveryFree(stmts)
  }

  // The handler panics before it does anything else.
  predicate StartsWithPanic(stmts: Handler)
  {
    stmts != [] && stmts[0].Panic?
  }

  function Guarded(stmts: Handler, depth: nat): nat
  {
    if stmts == Recovery then depth + 1
    else if StartsWithPanic(stmts) && depth > 0 then depth - 1
    else depth
  }

  // How many Recovery calls are still open when handler j starts: each one before
  // it opens one, each panic that a handler starts with closes the innermost.
  function Guards(handlers: seq<Handler>, j: nat): nat
    requires j <= |handlers|
  {
    if j == 0 then 0 else Guarded(handlers[j - 1], Guards(handlers, j - 1))
  }

  // With depth Recovery calls open before handler c: the first handler from c on
  // that starts with a panic when none is open any more, or the number of handlers.
  function Stop(handlers: seq<Handler>, c: nat, depth: nat): (p: nat)
    requires c <= |handlers|
    ensures c <= p <= |handlers|
    ensures p < |handlers| ==> StartsWithPanic(handlers[p])
    decreases |handlers| - c
  {
    if c == |handlers| || (StartsWithPanic(handlers[c]) && depth == 0) then c
    else Stop(handlers, c + 1, Guarded(handlers[c], depth))
  }

  // Whether a panic gets out of the handlers from c on, under depth Recovery calls.
  predicate Escapes(handlers: seq<Handler>, c: nat, depth: nat)
    requires c <= |handlers|
    decreases |handlers| - c
  {
    c < |handlers| && ((Panic in handlers[c] && depth == 0) || Escapes(handlers, c + 1, Guarded(handlers[c], depth)))
  }

  // One more Recovery call underneath catches the panic that would have got out,
  // and leaves what comes after it on its own.
  lemma {:induction false} OneMoreGuard(handlers: seq<Handler>, c: nat, depth: nat)
    requires c <= |handlers|
    ensures var p := Stop(handlers, c, depth);
      if p < |handlers| then
        && Stop(handlers, c, depth + 1) == Stop(handlers, p + 1, 0)
        && Escapes(handlers, c, depth + 1) == Escapes(handlers, p + 1, 0)
      else Stop(handlers, c, depth + 1) == p && !Escapes(handlers, c, depth + 1)
    decreases |handlers| - c
  {
    if c < |handlers| && !(StartsWithPanic(handlers[c]) && depth == 0) {
      OneMoreGuard(handlers, c + 1, Guarded(handlers[c], depth));
    }
  }

  // What a loop from c on comes to: it ends at the stop, or past the end.
  ghost predicate LoopEnds(handlers: seq<Handler>, c: nat, o: Outcome)
    requires c <= |handlers|
  {
    var p := Stop(handlers, c, 0);
    if p < |handlers| then o == Outcome(p, true) && Escapes(handlers, c, 0)
    else o.cursor >= |handlers| && (o.panicked <==> Escapes(handlers, c, 0))
  }

  lemma {:induction false} LoopStops(handlers: seq<Handler>, c: nat)
    requires c <= |handlers| && forall j :: c <= j < |handlers| ==> Plain(handlers[j])
    ensures LoopEnds(handlers, c, Loop(handlers, c))
    decreases |handlers| - c
  {
    if c < |handlers| {
      hide LoopEnds;
      LoopStops(handlers, c + 1);
      if handlers[c] == Recovery {
        var p := Loop(handlers, c + 1).cursor;
        if p < |handlers| { LoopStops(handlers, p + 1); }
        EndsAtRecovery(handlers, c);
      } else if handlers[c] != [] && handlers[c][0].Next? {
        EndsAtNext(handlers, c);
      } else {
        EndsElsewhere(handlers, c);
      }
    } else {
      EndsElsewhere(handlers, c);
    }
  }

  lemma EndsAtRecovery(handlers: seq<Handler>, c: nat)
    requires c < |handlers| && handlers[c] == Recovery && LoopEnds(handlers, c + 1, Loop(handlers, c + 1))
    requires var p := Loop(handlers, c + 1).cursor; p < |handlers| ==> LoopEnds(handlers, p + 1, Loop(handlers, p + 1))
    ensures LoopEnds(handlers, c, Loop(handlers, c))
  {
    RunRecovery(handlers, c);
    OneMoreGuard(handlers, c + 1, 0);
    hide Run;
  }

  lemma EndsAtNext(handlers: seq<Handler>, c: nat)
    requires c < |handlers| && RecoveryFree(handlers[c]) && handlers[c] != [] && handlers[c][0].Next?
    requires LoopEnds(handlers, c + 1, Loop(handlers, c + 1))
    ensures LoopEnds(handlers, c, Loop(handlers, c))
  {
    var rest := handlers[c][1..];
    var inner := Loop(handlers, c + 1);
    assert handlers[c] == [Next] + rest;
    if !inner.panicked { RunPastEnd(handlers, rest, inner.cursor); }
  }

  lemma EndsElsewhere(handlers: seq<Handler>, c: nat)
    requires c <= |handlers|
    requires c < |handlers| ==>
      && RecoveryFree(handlers[c]) && (handlers[c] == [] || handlers[c][0].Panic?)
      && LoopEnds(handlers, c + 1, Loop(handlers, c + 1))
    ensures LoopEnds(handlers, c, Loop(handlers, c))
  {
  }

  lemma RunRecovery(handlers: seq<Handler>, c: nat)
    ensures Run(handlers, Recovery, c) == Outcome(Loop(handlers, c + 1).cursor, false)
  {
    assert [Next][1..] == [] && Recovery[1..] == [];
    var inner := Loop(handlers, c + 1);
    assert Run(handlers, [], inner.cursor) == Outcome(inner.cursor, false);
    assert Run(handlers, [Next], c).cursor == inner.cursor;
  }

  // Past the end calls of Next do nothing.
  lemma {:induction false} RunPastEnd(handlers: seq<Handler>, stmts: Handler, c: nat)
    requires c >= |handlers| && RecoveryFree(stmts)
    ensures var o := Run(handlers, stmts, c); o.cursor >= c && (o.panicked <==> Panic in stmts)
    decreases stmts
  {
    if stmts != [] {
      assert stmts == [stmts[0]] + stmts[1..];
      if stmts[0].Next? { RunPastEnd(handlers, stmts[1..], c + 1); }
    }
  }

  lemma {:induction false} EscapesIffUnguarded(handlers: seq<Handler>, c: nat)
    requires c <= |handlers|
    ensures Escapes(handlers, c, Guards(handlers, c)) <==>
      exists j :: c <= j < |handlers| && Panic in handlers[j] && Guards(handlers, j) == 0
    decreases |handlers| - c
  {
    if c < |handlers| { EscapesIffUnguarded(handlers, c + 1); }
  }

  // Each Recovery catches one panic: a panic gets out of a chain exactly if some
  // handler that panics starts when no Recovery call is open any more, however
  // often and wherever the handlers call Next and wherever Recovery is installed.
  lemma EachRecoveryCatchesOne(handlers: seq<Handler>)
    requires forall j :: 0 <= j < |handlers| ==> Plain(handlers[j])
    ensures Loop(handlers, 0).panicked <==>
      exists j :: 0 <= j < |handlers| && Panic in handlers[j] && Guards(handlers, j) == 0
  {
    LoopStops(handlers, 0);
    EscapesIffUnguarded(handlers, 0);
  }

  predicate PanicsTwice(handlers: seq<Handler>, r: nat, i: nat, j: nat)
  {
    r < i < j < |handlers| && StartsWithPanic(handlers[i]) && Panic in handlers[j]
  }

  lemma {:induction false} GuardsOfOne(handlers: seq<Handler>, r: nat, j: nat)
    requires r < |handlers| && handlers[r] == Recovery && j <= |handlers|
    requires forall k :: 0 <= k < |handlers| && k != r ==> RecoveryFree(handlers[k])
    ensures Guards(handlers, j) == 0 <==>
      j <= r || exists i :: r < i < j && StartsWithPanic(handlers[i])
    ensures Guards(handlers, j) <= 1
  {
    if j > 0 {
      GuardsOfOne(handlers, r, j - 1);
      assert Recovery[0].Recovering?;
      var h := handlers[j - 1];
      assert h == Recovery <==> j - 1 == r;
      if exists i :: r < i < j && StartsWithPanic(handlers[i]) {
        var i :| r < i < j && StartsWithPanic(handlers[i]);
        assert i < j - 1 || StartsWithPanic(h);
      }
    }
  }

  // With one Recovery, at place r: a panic gets out exactly if a handler before r
  // panics, or one after r starts with a panic and a later one panics too.
  lemma SecondPanicEscapes(handlers: seq<Handler>, r: nat)
    requires r < |handlers| && handlers[r] == Recovery
    requires forall k :: 0 <= k < |handlers| && k != r ==> RecoveryFree(handlers[k])
    ensures Loop(handlers, 0).panicked <==>
      || (exists i :: 0 <= i < r && Panic in handlers[i])
      || (exists i: nat, j: nat :: PanicsTwice(handlers, r, i, j))
  {
    EachRecoveryCatchesOne(handlers);
    forall j | 0 <= j < |handlers|
      ensures Guards(handlers, j) == 0 <==> j <= r || exists i :: r < i < j && StartsWithPanic(handlers[i])
    {
      GuardsOfOne(handlers, r, j);
    }
    if Loop(handlers, 0).panicked {
      var j :| 0 <= j < |handlers| && Panic in handlers[j] && Guards(handlers, j) == 0;
      if j > r {
        var i :| r < i < j && StartsWithPanic(handlers[i]);
        assert PanicsTwice(handlers, r, i, j);
      }
    }
  }

  // The first k handlers, in order.
  function UpTo(k: nat): seq<nat>
  {
    seq(k, i => i)
  }

  class Context {
    const handlers: seq<Handler>
    var index: int
    ghost var started: seq<nat>

    // The handlers up to the cursor have been started, in order and once each,
    // and no others.
    ghost predicate Valid()
      reads this
    {
      index >= -1 && started == UpTo(if index < |handlers| then index + 1 else |handlers|)
    }

    constructor (handlers: seq<Handler>)
      ensures Valid() && this.handlers == handlers && index == -1 && started == []
    {
      this.handlers := handlers;
      index := -1;
      started := [];
    }

    // Whatever the handlers do, and however deep in other calls of Next: started
    // handlers stay a prefix in increasing order, and without a panic all are
    // started.
    method Next() returns (panicked: bool)
      requires Valid()
      modifies this
      ensures Valid() && Outcome(index, panicked) == Loop(handlers, old(index) + 1)
      ensures !panicked ==> index >= |handlers| && started == UpTo(|handlers|)
      decreases LoopRank(|handlers|, index + 1)
    {
      index := index + 1;
      while index < |handlers|
        invariant index > old(index) && started == UpTo(if index < |handlers| then index else |handlers|)
        invariant Loop(handlers, index) == Loop(handlers, old(index) + 1)
      {
        started := started + [index];
        panicked := Handle(handlers[index]);
        if panicked { return; }
        index := index + 1;
      }
      panicked := false;
    }

    method Handle(stmts: Handler) returns (panicked: bool)
      requires Valid()
      modifies this
      ensures Valid() && Outcome(index, panicked) == Run(handlers, stmts, old(index))
      ensures !panicked && Stmt.Next in stmts && old(index) >= 0 ==> index >= |handlers| && started == UpTo(|handlers|)
      decreases RunRank(|handlers|, index), stmts
    {
      if index >= 0 { NextRunsRest(handlers, stmts, index); }
      var rest := stmts;
      while rest != []
        invariant Valid() && index >= old(index)
        invariant Run(handlers, rest, index) == Run(handlers, stmts, old(index))
        invariant |rest| <= |stmts| && rest == stmts[|stmts| - |rest|..]
        decreases |rest|
      {
        match rest[0] {
          case Next =>
            panicked := Next();
            if panicked { return; }
          case Panic => return true;
          case Recovering(body) =>
            panicked := Handle(body);
        }
        rest := rest[1..];
      }
      panicked := false;
    }
  }
}
