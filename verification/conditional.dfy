/** The `If(predicate, consequent).Else(elseConsequent)` construct of
    predicament.js as a state machine. The deferred promise is reduced to a
    single settlement; each registered handler runs once the promise is
    settled and reads the configuration current at that moment (at
    settlement for handlers registered before it, at registration for
    handlers registered after it). */
module Conditional {
  import opened Values

  /** A continuation function registered on an `If`, named by its identity. */
  datatype Continuation = Continuation(id: nat)

  /** What an else-consequent is called with: nothing, or the error. */
  datatype Argument = NoArgument | ErrorArgument(error: Value)

  /** One call of a continuation. */
  datatype Call = Consequent(f: Continuation) | Alternative(f: Continuation, arg: Argument)

  /** The state of the deferred promise. */
  datatype Settlement = Pending | Fulfilled(value: Value) | Rejected(reason: Value)

  /** One `If` instance: its configuration `_cfg`, how many rejection
      handlers `Else` has registered, whether the `nextTick` evaluation is
      still to come, how often the predicate was invoked, the promise, and
      the continuation calls made so far. An absent continuation stands for
      any falsy value. */
  datatype IfState = IfState(
    consequent: Option<Continuation>,
    elseConsequent: Option<Continuation>,
    rejectHandlers: nat,
    tickScheduled: bool,
    invocations: nat,
    promise: Settlement,
    calls: seq<Call>)

  /** The fulfilment handler registered by the constructor. A truthy value
      with no consequent falls through to the else-consequent. */
  function OnFulfilled(s: IfState, v: Value): (r: seq<Call>)
    ensures |r| <= 1
    ensures forall k :: k in r && k.Consequent? ==> Truthy(v) && s.consequent == Some(k.f)
    ensures forall k :: k in r && k.Alternative? ==>
              && k.arg == NoArgument && s.elseConsequent == Some(k.f)
              && !(Truthy(v) && s.consequent.Some?)
    ensures r == [] <==> !(Truthy(v) && s.consequent.Some?) && s.elseConsequent.None?
  {
    if Truthy(v) && s.consequent.Some? then [Consequent(s.consequent.value)]
    else if s.elseConsequent.Some? then [Alternative(s.elseConsequent.value, NoArgument)]
    else []
  }

  /** One rejection handler registered by `Else`. */
  function OnRejected(s: IfState, e: Value): (r: seq<Call>)
    ensures |r| <= 1
    ensures forall k :: k in r ==>
              k.Alternative? && s.elseConsequent == Some(k.f) && k.arg == ErrorArgument(e)
    ensures r == [] <==> s.elseConsequent.None?
  {
    if s.elseConsequent.Some? then [Alternative(s.elseConsequent.value, ErrorArgument(e))]
    else []
  }

  /** `k` copies of `calls`, one per registered handler. */
  function Repeat(calls: seq<Call>, k: nat): (r: seq<Call>)
    ensures |r| == k * |calls|
    ensures forall i :: 0 <= i < |r| ==> r[i] in calls
  {
    if k == 0 then [] else calls + Repeat(calls, k - 1)
  }

  /** The state invariant every reachable `If` keeps. */
  predicate Valid(s: IfState) {
    && s.invocations <= 1
    && (s.tickScheduled <==> s.invocations == 0)
    && (s.rejectHandlers == 0 ==> s.elseConsequent.None?)
    && (!s.promise.Pending? ==> s.invocations == 1)
    && (s.promise.Pending? ==> s.calls == [])
    && (s.promise.Fulfilled? ==> FulfilledCalls(s))
    && (s.promise.Rejected? ==>
          forall i :: 0 <= i < |s.calls| ==>
            s.calls[i].Alternative? && s.calls[i].arg == ErrorArgument(s.promise.reason))
  }

  /** After fulfilment: at most one call; the consequent only on a truthy
      value, and always then if one is set; an else-consequent only without
      an argument and only when the consequent could not fire. */
  predicate FulfilledCalls(s: IfState)
    requires s.promise.Fulfilled?
  {
    var v := s.promise.value;
    && |s.calls| <= 1
    && (Truthy(v) && s.consequent.Some? ==> s.calls == [Consequent(s.consequent.value)])
    && (forall i :: 0 <= i < |s.calls| && s.calls[i].Consequent? ==>
          Truthy(v) && s.consequent == Some(s.calls[i].f))
    && (forall i :: 0 <= i < |s.calls| && s.calls[i].Alternative? ==>
          s.calls[i].arg == NoArgument && !(Truthy(v) && s.consequent.Some?))
  }

  /** `If(predicate, consequent)`: nothing has run yet; the evaluation of the
      predicate is scheduled for the next tick. */
  function New(consequent: Option<Continuation>): (s: IfState)
    ensures Valid(s)
    ensures s.promise.Pending? && s.invocations == 0 && s.calls == []
    ensures s.consequent == consequent && s.elseConsequent.None?
    ensures s.rejectHandlers == 0 && s.tickScheduled
  {
    IfState(consequent, None, 0, true, 0, Pending, [])
  }

  /** `.Else(elseConsequent)`: replaces the else-consequent and registers one
      more rejection handler; on an already rejected promise that handler
      runs at once. */
  function Else(s: IfState, c: Option<Continuation>): (t: IfState)
    ensures Valid(s) ==> Valid(t)
    ensures t.elseConsequent == c && t.rejectHandlers == s.rejectHandlers + 1
    ensures t.consequent == s.consequent && t.promise == s.promise
    ensures t.invocations == s.invocations
    ensures !s.promise.Rejected? ==> t.calls == s.calls
    ensures s.promise.Rejected? && c.Some? ==>
              t.calls == s.calls + [Alternative(c.value, ErrorArgument(s.promise.reason))]
    ensures s.promise.Rejected? && c.None? ==> t.calls == s.calls
  {
    var t := s.(elseConsequent := c, rejectHandlers := s.rejectHandlers + 1);
    match s.promise
    case Rejected(e) => t.(calls := s.calls + OnRejected(t, e))
    case _ => t
  }

  /** The `nextTick` callback: invokes the predicate, once. */
  function Tick(s: IfState): (t: IfState)
    ensures Valid(s) ==> Valid(t)
    ensures Valid(s) ==> t.invocations == 1
    ensures t.promise == s.promise && t.calls == s.calls
    ensures t.consequent == s.consequent && t.elseConsequent == s.elseConsequent
    ensures t.rejectHandlers == s.rejectHandlers
    ensures !t.tickScheduled
  {
    if s.tickScheduled then s.(tickScheduled := false, invocations := s.invocations + 1)
    else s
  }

  /** The callback handed to the predicate: a truthy `err` rejects the
      promise, anything else fulfils it with `val`. The callback exists only
      once the predicate was invoked, and only the first settlement counts. */
  function Callback(s: IfState, c: Completion): (t: IfState)
    ensures Valid(s) ==> Valid(t)
    ensures !s.promise.Pending? || s.invocations == 0 ==> t == s
    ensures s.promise.Pending? && s.invocations > 0 ==>
              t.promise == (if Truthy(c.err) then Rejected(c.err) else Fulfilled(c.val))
    ensures s.calls <= t.calls
  {
    if s.invocations == 0 || !s.promise.Pending? then s
    else
      match Classify(c)
      case Err(e) => s.(promise := Rejected(e), calls := s.calls + Repeat(OnRejected(s, e), s.rejectHandlers))
      case Val(v) => s.(promise := Fulfilled(v), calls := s.calls + OnFulfilled(s, v))
  }

  /** What can happen to an `If` after construction. */
  datatype Event =
    | ElseCall(c: Option<Continuation>)
    | NextTick
    | PredicateCallback(completion: Completion)

  function Step(s: IfState, e: Event): IfState {
    match e
    case ElseCall(c) => Else(s, c)
    case NextTick => Tick(s)
    case PredicateCallback(c) => Callback(s, c)
  }

  function Run(s: IfState, events: seq<Event>): IfState
    decreases |events|
  {
    if |events| == 0 then s else Run(Step(s, events[0]), events[1..])
  }

  /** Whatever the events and their order (extra callbacks, `Else` before
      or after settlement), an `If` keeps its invariant: the predicate is
      invoked at most once, the promise settles at most once, the consequent
      fires at most once and only on a truthy value, and on failure only the
      else-consequent fires, always with exactly the error. */
  lemma {:induction false} RunKeepsValid(s: IfState, events: seq<Event>)
    requires Valid(s)
    ensures Valid(Run(s, events))
    ensures s.invocations <= Run(s, events).invocations
    ensures !s.promise.Pending? ==> Run(s, events).promise == s.promise
    ensures s.calls <= Run(s, events).calls
    decreases |events|
  {
    if |events| > 0 {
      var t := Step(s, events[0]);
      assert s.calls <= t.calls;
      RunKeepsValid(t, events[1..]);
    }
  }

  /** An `Else` attached after the promise was fulfilled fires nothing: it
      registers only a rejection handler, and the fulfilment handler has
      already run. */
  lemma {:induction false} LateElseAfterFulfilment(s: IfState, elses: seq<Option<Continuation>>)
    requires s.promise.Fulfilled?
    ensures Run(s, ElseCalls(elses)).calls == s.calls
    ensures Run(s, ElseCalls(elses)).promise == s.promise
    decreases |elses|
  {
    if |elses| > 0 {
      assert ElseCalls(elses)[1..] == ElseCalls(elses[1..]);
      LateElseAfterFulfilment(Else(s, elses[0]), elses[1..]);
    }
  }

  lemma {:induction false} RunAppend(s: IfState, a: seq<Event>, b: seq<Event>)
    ensures Run(s, a + b) == Run(Run(s, a), b)
    decreases |a|
  {
    if |a| == 0 {
      assert a + b == b;
    } else {
      assert (a + b)[0] == a[0];
      assert (a + b)[1..] == a[1..] + b;
      RunAppend(Step(s, a[0]), a[1..], b);
    }
  }

  function ElseCalls(elses: seq<Option<Continuation>>): (events: seq<Event>)
    ensures |events| == |elses|
    ensures forall i :: 0 <= i < |elses| ==> events[i] == ElseCall(elses[i])
  {
    seq(|elses|, i requires 0 <= i < |elses| => ElseCall(elses[i]))
  }

  /** The else-consequent left by a chain of `Else` calls: the last one. */
  function LastElse(elses: seq<Option<Continuation>>, current: Option<Continuation>): Option<Continuation> {
    if |elses| == 0 then current else elses[|elses| - 1]
  }

  /** A chain of `Else` calls before settlement only records the last
      else-consequent and one rejection handler per call. */
  lemma {:induction false} ElseChain(s: IfState, elses: seq<Option<Continuation>>)
    requires s.promise.Pending?
    ensures Run(s, ElseCalls(elses))
         == s.(elseConsequent := LastElse(elses, s.elseConsequent),
               rejectHandlers := s.rejectHandlers + |elses|)
    decreases |elses|
  {
    if |elses| > 0 {
      var t := Else(s, elses[0]);
      assert ElseCalls(elses)[1..] == ElseCalls(elses[1..]);
      ElseChain(t, elses[1..]);
    }
  }

  /** `If(predicate, consequent).Else(e1)...Else(ek)` whose predicate calls
      back with `c` on the next tick. */
  function IfElse(consequent: Option<Continuation>, elses: seq<Option<Continuation>>, c: Completion): IfState {
    Run(New(consequent), ElseCalls(elses) + [NextTick, PredicateCallback(c)])
  }

  /** The state of such a chain just before the tick: the last
      else-consequent and one rejection handler per `Else` call. */
  lemma Chained(consequent: Option<Continuation>, elses: seq<Option<Continuation>>, c: Completion)
    ensures IfElse(consequent, elses, c)
         == Callback(Tick(IfState(consequent, LastElse(elses, None), |elses|, true, 0, Pending, [])), c)
  {
    var s0 := New(consequent);
    RunAppend(s0, ElseCalls(elses), [NextTick, PredicateCallback(c)]);
    ElseChain(s0, elses);
    var s1 := Run(s0, ElseCalls(elses));
    assert Run(s1, [NextTick, PredicateCallback(c)]) == Run(Tick(s1), [PredicateCallback(c)]);
  }

  /** In a fluent chain the predicate is invoked exactly once, whatever it
      calls back with. */
  lemma DispatchInvokesOnce(consequent: Option<Continuation>, elses: seq<Option<Continuation>>, c: Completion)
    ensures IfElse(consequent, elses, c).invocations == 1
  {
    Chained(consequent, elses, c);
  }

  /** A truthy value with a consequent fires the consequent alone. */
  lemma DispatchTruthy(consequent: Option<Continuation>, elses: seq<Option<Continuation>>, c: Completion)
    requires !Truthy(c.err) && Truthy(c.val) && consequent.Some?
    ensures IfElse(consequent, elses, c).calls == [Consequent(consequent.value)]
  {
    Chained(consequent, elses, c);
  }

  /** Any other value fires the last else-consequent, if set, with no
      argument, and nothing else: in particular a truthy value with no
      consequent falls through to the else-consequent. */
  lemma DispatchOtherwise(consequent: Option<Continuation>, elses: seq<Option<Continuation>>, c: Completion)
    requires !Truthy(c.err) && !(Truthy(c.val) && consequent.Some?)
    ensures LastElse(elses, None).Some? ==>
              IfElse(consequent, elses, c).calls == [Alternative(LastElse(elses, None).value, NoArgument)]
    ensures LastElse(elses, None).None? ==> IfElse(consequent, elses, c).calls == []
  {
    Chained(consequent, elses, c);
  }

  /** A failure never fires the consequent; it fires the last
      else-consequent, if set, with exactly the error, once per `Else` call. */
  lemma DispatchFailure(consequent: Option<Continuation>, elses: seq<Option<Continuation>>, c: Completion)
    requires Truthy(c.err)
    ensures LastElse(elses, None).Some? ==>
              |IfElse(consequent, elses, c).calls| == |elses|
    ensures forall i :: LastElse(elses, None).Some? && 0 <= i < |IfElse(consequent, elses, c).calls| ==>
              IfElse(consequent, elses, c).calls[i]
                == Alternative(LastElse(elses, None).value, ErrorArgument(c.err))
    ensures LastElse(elses, None).None? ==> IfElse(consequent, elses, c).calls == []
  {
    Chained(consequent, elses, c);
    var alt := LastElse(elses, None);
    if alt.Some? {
      var once := [Alternative(alt.value, ErrorArgument(c.err))];
      assert IfElse(consequent, elses, c).calls == Repeat(once, |elses|);
    }
  }
}
