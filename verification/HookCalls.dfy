/** Calls of hooked functions, nested to any depth, over chains that do not change meanwhile. */
module HookCalls {
  import opened Basics
  import opened HookList
  import opened HookChain

  datatype Hook = Hook(items: seq<Item>, origFunc: Code)

  type Stack = seq<Frame<seq<Item>>>

  /** What one invocation of a function does, in order: it calls the previous function of its own
      chain, or calls through the slot of some chain, with the given return address; `body` is what
      the called function does. */
  datatype Acts =
    | Done
    | CallPrev(returnAddress: nat, body: Acts, rest: Acts)
    | CallSlot(slot: nat, returnAddress: nat, body: Acts, rest: Acts)

  /** The stack afterwards, every stack on the way, and the functions of the caller's own chain that
      ran. Aborted: get_prev_func was called without a frame. */
  datatype Trace = Aborted | Trace(stack: Stack, seen: seq<Stack>, calls: seq<Code>)

  /** One thing after the other. */
  function Then(t: Trace, u: Trace): Trace {
    if t.Aborted? || u.Aborted? then Aborted else Trace(u.stack, t.seen + u.seen, t.calls + u.calls)
  }

  /** Calls of other chains leave no trace in the caller's own. */
  function Aside(t: Trace): Trace {
    if t.Aborted? then Aborted else t.(calls := [])
  }

  /** A proxy `func` runs, or the original function; a proxy pops the stack when it returns. */
  function RunFunc(hooks: seq<Hook>, stack: Stack, func: Option<Code>, origFunc: Code, returnAddress: nat, body: Acts): Trace
    decreases body, 1
  {
    var t := RunActs(hooks, stack, func, body);
    if t.Aborted? then Aborted
    else if func == None then Trace(t.stack, t.seen, [origFunc] + t.calls)
    else
      var after := Popped(t.stack, returnAddress);
      Trace(after, t.seen + [after], [func.value] + t.calls)
  }

  function RunActs(hooks: seq<Hook>, stack: Stack, func: Option<Code>, acts: Acts): Trace
    decreases acts, 0
  {
    match acts
    case Done => Trace(stack, [stack], [])
    case CallPrev(ra, body, rest) =>
      if func == None then RunActs(hooks, stack, func, rest)
      else if stack == [] then Aborted
      else
        var frame := stack[|stack| - 1];
        var t := RunFunc(hooks, stack, PrevFunc(frame.proxies, func.value), frame.origFunc, ra, body);
        if t.Aborted? then Aborted else Then(t, RunActs(hooks, t.stack, func, rest))
    case CallSlot(slot, ra, body, rest) =>
      var t := if slot < |hooks| then Enter(hooks, stack, slot, ra, body) else Trace(stack, [stack], []);
      if t.Aborted? then Aborted else Then(Aside(t), RunActs(hooks, t.stack, func, rest))
  }

  /** A call through a hooked slot: the trampoline decides which function runs first. */
  function Enter(hooks: seq<Hook>, stack: Stack, slot: nat, returnAddress: nat, body: Acts): Trace
    requires slot < |hooks|
    decreases body, 2
  {
    var hook := hooks[slot];
    var (entered, func) := Pushed(stack, hook.items, hook.items, hook.origFunc, returnAddress);
    var t := RunFunc(hooks, entered, func, hook.origFunc, returnAddress, body);
    if t.Aborted? then Aborted else Trace(t.stack, [entered] + t.seen, t.calls)
  }

  /** No frames of one original function twice, and never more than there is room for. */
  ghost predicate Safe(stack: Stack) {
    |stack| <= FRAME_MAX && forall i, j :: 0 <= i < j < |stack| ==> stack[i].origFunc != stack[j].origFunc
  }

  /** The functions called on to return to other places than the first one of the chain does. */
  predicate ReturnsElsewhere(acts: Acts, returnAddress: nat) {
    match acts
    case Done => true
    case CallPrev(ra, body, rest) => ra != returnAddress && ReturnsElsewhere(body, returnAddress) && ReturnsElsewhere(rest, returnAddress)
    case CallSlot(_, ra, body, rest) => ReturnsElsewhere(body, ra) && ReturnsElsewhere(rest, returnAddress)
  }

  /** The stack is back where it was, and was safe all the way. */
  ghost predicate Balanced(stack: Stack, t: Trace) {
    t.Trace? && t.stack == stack && forall s :: s in t.seen ==> Safe(s)
  }

  lemma BalancedThen(stack: Stack, t: Trace, u: Trace)
    requires Balanced(stack, t) && Balanced(stack, u)
    ensures Balanced(stack, Then(t, u)) && Balanced(stack, Aside(t))
  {
  }

  lemma PushSafe(stack: Stack, hook: Hook, returnAddress: nat)
    requires Safe(stack)
    ensures var (entered, func) := Pushed(stack, hook.items, hook.items, hook.origFunc, returnAddress);
      Safe(entered) && (func == None ==> entered == stack) &&
      (func.Some? ==> entered == stack + [Frame(hook.items, hook.origFunc, returnAddress)] && Popped(entered, returnAddress) == stack)
  {
  }

  lemma {:induction false} ActsBalanced(hooks: seq<Hook>, stack: Stack, func: Option<Code>, acts: Acts, returnAddress: nat)
    requires Safe(stack) && ReturnsElsewhere(acts, returnAddress)
    requires func.Some? ==> stack != [] && stack[|stack| - 1].returnAddress == returnAddress
    ensures Balanced(stack, RunActs(hooks, stack, func, acts))
    decreases acts, 0
  {
    match acts
    case Done =>
    case CallPrev(ra, body, rest) =>
      ActsBalanced(hooks, stack, func, rest, returnAddress);
      if func.Some? {
        var frame := stack[|stack| - 1];
        var prev := PrevFunc(frame.proxies, func.value);
        ActsBalanced(hooks, stack, prev, body, returnAddress);
        assert Balanced(stack, RunFunc(hooks, stack, prev, frame.origFunc, ra, body));
        BalancedThen(stack, RunFunc(hooks, stack, prev, frame.origFunc, ra, body), RunActs(hooks, stack, func, rest));
      }
    case CallSlot(slot, ra, body, rest) =>
      ActsBalanced(hooks, stack, func, rest, returnAddress);
      if slot < |hooks| {
        EnterStep(hooks, stack, slot, ra, body);
        BalancedThen(stack, Enter(hooks, stack, slot, ra, body), RunActs(hooks, stack, func, rest));
        BalancedThen(stack, Aside(Enter(hooks, stack, slot, ra, body)), RunActs(hooks, stack, func, rest));
      }
  }

  lemma {:induction false} EnterStep(hooks: seq<Hook>, stack: Stack, slot: nat, returnAddress: nat, body: Acts)
    requires slot < |hooks| && Safe(stack) && ReturnsElsewhere(body, returnAddress)
    ensures Balanced(stack, Enter(hooks, stack, slot, returnAddress, body))
    decreases body, 1
  {
    var hook := hooks[slot];
    var (entered, func) := Pushed(stack, hook.items, hook.items, hook.origFunc, returnAddress);
    PushSafe(stack, hook, returnAddress);
    ActsBalanced(hooks, entered, func, body, returnAddress);
  }

  /** Every call through a hooked slot, however the functions call each other, leaves the stack of
      frames as it found it; no two frames ever have one original function, and there are never more
      than the stack has room for. */
  lemma StackDiscipline(hooks: seq<Hook>, stack: Stack, slot: nat, returnAddress: nat, body: Acts)
    requires slot < |hooks| && Safe(stack) && ReturnsElsewhere(body, returnAddress)
    ensures var t := Enter(hooks, stack, slot, returnAddress, body);
      && t.Trace? && t.stack == stack
      && forall s: Stack :: s in t.seen ==> |s| <= 16 && forall i, j :: 0 <= i < j < |s| ==> s[i].origFunc != s[j].origFunc
  {
    EnterStep(hooks, stack, slot, returnAddress, body);
  }

  // ----- which functions run -----

  function Count(acts: Acts): nat {
    match acts
    case Done => 0
    case CallPrev(_, _, rest) => 1 + Count(rest)
    case CallSlot(_, _, _, rest) => Count(rest)
  }

  /** The first call of the previous function. */
  function FirstCall(acts: Acts): (r: Acts)
    requires Count(acts) > 0
    ensures r.CallPrev? && r.body < acts
  {
    if acts.CallPrev? then acts else FirstCall(acts.rest)
  }

  /** Every proxy that runs, from `func` on, calls the previous function once. */
  predicate CallsOnce(items: seq<Item>, func: Option<Code>, acts: Acts)
    decreases acts
  {
    func == None || (Count(acts) == 1 && CallsOnce(items, PrevFunc(items, func.value), FirstCall(acts).body))
  }

  lemma {:induction false} ActsCalls(hooks: seq<Hook>, stack: Stack, func: Option<Code>, acts: Acts, returnAddress: nat)
    requires Safe(stack) && ReturnsElsewhere(acts, returnAddress)
    requires func.Some? ==> stack != [] && stack[|stack| - 1].returnAddress == returnAddress
    ensures RunActs(hooks, stack, func, acts).Trace?
    ensures func == None || Count(acts) == 0 ==> RunActs(hooks, stack, func, acts).calls == []
    ensures func.Some? && Count(acts) == 1 ==>
      var frame, call := stack[|stack| - 1], FirstCall(acts);
      var t := RunFunc(hooks, stack, PrevFunc(frame.proxies, func.value), frame.origFunc, call.returnAddress, call.body);
      t.Trace? && RunActs(hooks, stack, func, acts).calls == t.calls && ReturnsElsewhere(call.body, returnAddress) && call.returnAddress != returnAddress
    decreases acts
  {
    ActsBalanced(hooks, stack, func, acts, returnAddress);
    match acts
    case Done =>
    case CallPrev(ra, body, rest) =>
      ActsCalls(hooks, stack, func, rest, returnAddress);
      if func.Some? {
        var frame := stack[|stack| - 1];
        ActsBalanced(hooks, stack, PrevFunc(frame.proxies, func.value), body, returnAddress);
      }
    case CallSlot(slot, ra, body, rest) =>
      ActsCalls(hooks, stack, func, rest, returnAddress);
      if slot < |hooks| {
        EnterStep(hooks, stack, slot, ra, body);
      }
  }

  lemma {:induction false} ChainCalls(hooks: seq<Hook>, stack: Stack, k: nat, returnAddress: nat, ra: nat, body: Acts)
    requires Safe(stack) && stack != [] && stack[|stack| - 1].returnAddress == returnAddress
    requires ReturnsElsewhere(body, returnAddress)
    requires var items := stack[|stack| - 1].proxies; InOrder(items) && CallsOnce(items, At(EnabledFuncs(items), k), body)
    ensures var frame := stack[|stack| - 1]; var e := EnabledFuncs(frame.proxies);
      var t := RunFunc(hooks, stack, At(e, k), frame.origFunc, ra, body);
      t.Trace? && t.calls == (if k <= |e| then e[k..] else []) + [frame.origFunc]
    decreases body
  {
    var frame := stack[|stack| - 1];
    var e := EnabledFuncs(frame.proxies);
    ActsCalls(hooks, stack, At(e, k), body, returnAddress);
    if k < |e| {
      assert PrevFunc(frame.proxies, e[k]) == At(e, k + 1);
      ChainCalls(hooks, stack, k + 1, returnAddress, FirstCall(body).returnAddress, FirstCall(body).body);
      assert [e[k]] + e[k + 1..] == e[k..];
    }
  }

  /** A call that gets a frame and whose proxies call through once runs exactly the enabled
      functions of the chain, newest first, each once, and then the original function; a call that
      gets none runs the original function only. */
  lemma CallRunsChain(hooks: seq<Hook>, stack: Stack, slot: nat, returnAddress: nat, body: Acts)
    requires slot < |hooks| && Safe(stack) && ReturnsElsewhere(body, returnAddress)
    requires InOrder(hooks[slot].items) && CallsOnce(hooks[slot].items, First(EnabledFuncs(hooks[slot].items)), body)
    ensures var hook, t := hooks[slot], Enter(hooks, stack, slot, returnAddress, body);
      t.Trace? && t.calls ==
        (if |stack| >= 16 || (exists i :: 0 <= i < |stack| && stack[i].origFunc == hook.origFunc) then [] else EnabledFuncs(hook.items))
        + [hook.origFunc]
  {
    var hook := hooks[slot];
    var (entered, func) := Pushed(stack, hook.items, hook.items, hook.origFunc, returnAddress);
    PushSafe(stack, hook, returnAddress);
    if func == None {
      ActsCalls(hooks, stack, None, body, returnAddress);
    } else {
      ChainCalls(hooks, entered, 0, returnAddress, returnAddress, body);
    }
  }

  /** For chains with histories in which every task is added at most once, in particular. */
  lemma HistoryRunsChain(hooks: seq<Hook>, stack: Stack, slot: nat, returnAddress: nat, body: Acts, ops: seq<Op>)
    requires slot < |hooks| && Safe(stack) && ReturnsElsewhere(body, returnAddress)
    requires UniqueTasks(ops) && hooks[slot].items == History(ops)
    requires CallsOnce(hooks[slot].items, First(Live(ops)), body)
    requires |stack| < 16 && forall i :: 0 <= i < |stack| ==> stack[i].origFunc != hooks[slot].origFunc
    ensures var t := Enter(hooks, stack, slot, returnAddress, body);
      t.Trace? && t.calls == Live(ops) + [hooks[slot].origFunc]
  {
    HistoryInOrder(ops);
    CallRunsChain(hooks, stack, slot, returnAddress, body);
  }
}
