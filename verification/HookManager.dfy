/** Hooking and unhooking of GOT slots in automatic mode. Memory accesses and allocations succeed;
    whether the value of a slot passes the check before it is replaced is a parameter. The two trees
    of chains are maps here, keyed as the trees are. */
module HookManager {
  import opened HookList
  import opened HookChain

  // ----- what the calls do -----

  datatype ChainState = ChainState(id: nat, origFunc: Code, items: seq<Item>)

  /** The live chains, the memory of the slots, and how many trampolines were created. */
  datatype State = State(chains: map<nat, ChainState>, got: map<nat, Code>, created: nat)

  datatype Step =
    | Hook(slot: nat, func: Code, taskId: nat, verified: bool)
    | Unhook(slot: nat, func: Code)

  function Do(s: State, step: Step): State
    requires step.slot in s.got
  {
    match step
    case Hook(a, f, t, verified) =>
      if a in s.chains then
        var c := s.chains[a];
        s.(chains := s.chains[a := c.(items := Added(c.items, f, t))])
      else if verified then
        State(s.chains[a := ChainState(s.created, s.got[a], [Item(f, true, t)])], s.got[a := Trampoline(s.created)], s.created + 1)
      else s.(created := s.created + 1)
    case Unhook(a, f) =>
      if a !in s.chains then s
      else
        var c := s.chains[a];
        var items := Disabled(c.items, f);
        if Useful(items) then s.(chains := s.chains[a := c.(items := items)])
        else State(s.chains - {a}, if c.origFunc == Null then s.got else s.got[a := c.origFunc], s.created)
  }

  /** A slot holds its live chain's trampoline, or its initial value if it has no live chain; a live
      chain has an enabled function and knows the initial value. */
  predicate Right(s: State, initial: map<nat, Code>, slot: nat)
    requires slot in s.got && slot in initial
  {
    if slot in s.chains then
      var c := s.chains[slot];
      c.origFunc == initial[slot] && Useful(c.items) && s.got[slot] == Trampoline(c.id)
    else s.got[slot] == initial[slot]
  }

  /** The call takes the last function from the chain of a slot that was NULL at first. */
  predicate EmptiesNull(s: State, initial: map<nat, Code>, step: Step)
    requires step.slot in initial
  {
    step.Unhook? && step.slot in s.chains && initial[step.slot] == Null && !Useful(Disabled(s.chains[step.slot].items, step.func))
  }

  lemma AddedUseful(items: seq<Item>, func: Code, taskId: nat)
    ensures Useful(Added(items, func, taskId))
  {
    var r := Added(items, func, taskId);
    if HasEnabled(items, func) {
      var i :| 0 <= i < |items| && items[i].enabled && items[i].func == func;
      assert r[i].enabled;
    } else {
      var i := Owned(items, func, taskId);
      assert r[if i < |items| then i else 0].enabled;
    }
  }

  /** A call keeps its slot right, unless it empties the chain of a slot that was NULL at first:
      then restore_func is taken for "nothing to restore" and the slot keeps the trampoline. */
  lemma StepRight(s: State, initial: map<nat, Code>, step: Step)
    requires step.slot in s.got && step.slot in initial && Right(s, initial, step.slot)
    ensures Right(Do(s, step), initial, step.slot) <==> !EmptiesNull(s, initial, step)
  {
    if step.Hook? {
      if step.slot in s.chains {
        AddedUseful(s.chains[step.slot].items, step.func, step.taskId);
      } else {
        assert [Item(step.func, true, step.taskId)][0].enabled;
      }
    }
  }

  lemma OtherSlot(s: State, initial: map<nat, Code>, step: Step, slot: nat)
    requires step.slot in s.got && slot in s.got && slot in initial && slot != step.slot
    ensures slot in Do(s, step).got && (Right(Do(s, step), initial, slot) <==> Right(s, initial, slot))
  {
  }

  // ----- histories -----

  /** A history from an initial memory, with every state it goes through. */
  ghost predicate Run(states: seq<State>, steps: seq<Step>, initial: map<nat, Code>) {
    && |states| == |steps| + 1 && states[0] == State(map[], initial, 0)
    && (forall i :: 0 <= i < |steps| ==> steps[i].slot in initial)
    && forall i :: 0 <= i < |steps| ==> states[i].got.Keys == initial.Keys && states[i + 1] == Do(states[i], steps[i])
  }

  /** The history does not empty the chain of this slot if it was NULL at first. */
  ghost predicate NeverEmpties(states: seq<State>, steps: seq<Step>, initial: map<nat, Code>, slot: nat, n: nat)
    requires Run(states, steps, initial) && n <= |steps|
  {
    forall i :: 0 <= i < n && steps[i].slot == slot ==> !EmptiesNull(states[i], initial, steps[i])
  }

  /** At every moment of every history the slot is right, if and only if no call so far has emptied
      its chain while its initial value is NULL; so always, for slots that were not NULL. */
  lemma {:induction false} AlwaysRight(states: seq<State>, steps: seq<Step>, initial: map<nat, Code>, slot: nat, n: nat)
    requires Run(states, steps, initial) && n <= |steps| && slot in initial
    ensures states[n].got.Keys == initial.Keys
    ensures (forall i :: 0 <= i <= n ==> states[i].got.Keys == initial.Keys && Right(states[i], initial, slot)) <==>
      NeverEmpties(states, steps, initial, slot, n)
    ensures initial[slot] != Null ==> Right(states[n], initial, slot)
  {
    if n > 0 {
      AlwaysRight(states, steps, initial, slot, n - 1);
      var s, step := states[n - 1], steps[n - 1];
      if step.slot != slot {
        OtherSlot(s, initial, step, slot);
      } else if Right(s, initial, slot) {
        StepRight(s, initial, step);
      }
    }
  }

  /** A slot that was NULL and passes the check keeps the trampoline of the abandoned chain. */
  lemma NullKeepsTrampoline(f: Code, t: nat)
    ensures var s0 := State(map[], map[7 := Null], 0);
      var s2 := Do(Do(s0, Hook(7, f, t, true)), Unhook(7, f));
      7 !in s2.chains && s2.got[7] == Trampoline(0)
  {
  }

  predicate Hooked(steps: seq<Step>, n: nat, slot: nat, taskId: nat)
    requires n <= |steps|
  {
    exists i :: 0 <= i < n && steps[i].Hook? && steps[i].slot == slot && steps[i].taskId == taskId
  }

  /** Every task is added to the chain of a slot at most once. */
  predicate UniqueHooks(steps: seq<Step>) {
    forall i :: 0 <= i < |steps| && steps[i].Hook? ==> !Hooked(steps, i, steps[i].slot, steps[i].taskId)
  }

  /** What a chain's items are like after `n` calls. */
  ghost predicate Orderly(items: seq<Item>, steps: seq<Step>, n: nat, slot: nat)
    requires n <= |steps|
  {
    OneEnabled(items) && FirstCarriers(items) && forall i :: 0 <= i < |items| ==> Hooked(steps, n, slot, items[i].taskId)
  }

  lemma OrderlyLater(items: seq<Item>, steps: seq<Step>, n: nat, slot: nat)
    requires n < |steps| && Orderly(items, steps, n, slot)
    ensures Orderly(items, steps, n + 1, slot)
  {
  }

  lemma OrderlyAdded(items: seq<Item>, steps: seq<Step>, n: nat, slot: nat, f: Code, t: nat)
    requires n < |steps| && UniqueHooks(steps) && steps[n].Hook? && steps[n].slot == slot && steps[n].func == f && steps[n].taskId == t
    requires Orderly(items, steps, n, slot)
    ensures Orderly(Added(items, f, t), steps, n + 1, slot)
  {
    OrderlyLater(items, steps, n, slot);
    assert Owned(items, f, t) == |items|;
    AddedCarriers(items, f, t);
    assert Hooked(steps, n + 1, slot, t);
  }

  /** No live chain ever has two enabled items for one function; and if every task hooks a slot at
      most once, calling on runs through the enabled functions of every live chain in order. */
  lemma {:induction false} ChainsOrderly(states: seq<State>, steps: seq<Step>, initial: map<nat, Code>, n: nat)
    requires Run(states, steps, initial) && n <= |steps| && UniqueHooks(steps)
    ensures forall a :: a in states[n].chains ==> Orderly(states[n].chains[a].items, steps, n, a) && InOrder(states[n].chains[a].items)
  {
    if n > 0 {
      ChainsOrderly(states, steps, initial, n - 1);
      var s, step, s' := states[n - 1], steps[n - 1], states[n];
      forall a | a in s'.chains
        ensures Orderly(s'.chains[a].items, steps, n, a)
      {
        if a in s.chains {
          OrderlyLater(s.chains[a].items, steps, n - 1, a);
          if step.Hook? && a == step.slot {
            OrderlyAdded(s.chains[a].items, steps, n - 1, a, step.func, step.taskId);
          }
        } else {
          assert Hooked(steps, n, a, step.taskId);
        }
      }
      forall a | a in s'.chains
        ensures InOrder(s'.chains[a].items)
      {
        OrderExactly(s'.chains[a].items);
      }
    }
  }

  lemma {:induction false} ChainsOneEnabled(states: seq<State>, steps: seq<Step>, initial: map<nat, Code>, n: nat)
    requires Run(states, steps, initial) && n <= |steps|
    ensures forall a :: a in states[n].chains ==> OneEnabled(states[n].chains[a].items)
  {
    if n > 0 {
      ChainsOneEnabled(states, steps, initial, n - 1);
      var s, s' := states[n - 1], states[n];
      assert s' == Do(s, steps[n - 1]);
    }
  }

  // ----- the manager object -----

  datatype Status = Ok | RepeatedFunc | GotVerify | NoChain

  class Manager {
    var hooks: map<nat, Chain>
    var abandonedHooks: map<nat, Chain>
    var got: map<nat, Code>
    var created: nat
    /** What all this amounts to, and the items of all live chains. */
    ghost var state: State
    ghost var calls: set<HookCall>

    constructor (got: map<nat, Code>)
      ensures Valid() && state == State(map[], got, 0)
      ensures hooks == map[] && abandonedHooks == map[] && calls == {}
    {
      this.got := got;
      hooks, abandonedHooks, created := map[], map[], 0;
      state, calls := State(map[], got, 0), {};
    }

    /** The chain is in the map under its address, and is as `c` says. */
    ghost predicate Filed(hook: Chain, gotAddr: nat, c: ChainState)
      reads this`calls, hook`runningList, calls`enabled
    {
      && hook.gotAddr == gotAddr && hook.Linked() && (forall x :: x in hook.runningList ==> x in calls)
      && c.id == hook.id && c.origFunc == hook.origFunc && Shown(c.items, hook.runningList)
    }

    /** The items, object by object. */
    ghost predicate Shown(items: seq<Item>, list: seq<HookCall>)
      reads list`enabled
    {
      |items| == |list| && forall i :: 0 <= i < |list| ==> items[i] == Item(list[i].func, list[i].enabled, list[i].taskId)
    }

    lemma ShownItems(items: seq<Item>, list: seq<HookCall>)
      requires Shown(items, list)
      ensures items == ItemsOf(list)
    {
    }

    /** The chains are in the map under their addresses, share no items, and are as `state` says. */
    ghost predicate Valid()
      reads this, hooks.Values`runningList, calls`enabled
    {
      && state.got == got && state.created == created && state.chains.Keys == hooks.Keys
      && forall a :: a in hooks ==> Filed(hooks[a], a, state.chains[a])
    }

    /** add_func on a chain that is there. */
    method AddToChain(gotAddr: nat, func: Code, taskId: nat) returns (r: Status)
      requires Valid() && gotAddr in hooks
      modifies this`state, this`calls, hooks.Values`runningList, calls`enabled
      ensures Valid() && calls >= old(calls) && fresh(calls - old(calls))
      ensures var s := old(state); var c := s.chains[gotAddr];
        state == s.(chains := s.chains[gotAddr := c.(items := Added(c.items, func, taskId))])
        && r == if HasEnabled(c.items, func) then RepeatedFunc else Ok
    {
      hide Filed, Added, HasEnabled;
      var ok := ListFunc(gotAddr, func, taskId);
      state := state.(chains := state.chains[gotAddr := state.chains[gotAddr].(items := Added(state.chains[gotAddr].items, func, taskId))]);
      r := if ok then Ok else RepeatedFunc;
    }

    method ListFunc(gotAddr: nat, func: Code, taskId: nat) returns (ok: bool)
      requires Valid() && gotAddr in hooks
      modifies this`calls, hooks.Values`runningList, calls`enabled
      ensures calls >= old(calls) && fresh(calls - old(calls))
      ensures forall b :: b in hooks && b != gotAddr ==> Filed(hooks[b], b, state.chains[b])
      ensures var c := state.chains[gotAddr];
        Filed(hooks[gotAddr], gotAddr, c.(items := Added(c.items, func, taskId))) && ok == !HasEnabled(c.items, func)
    {
      hide ItemsOf, Added, HasEnabled;
      var hook := hooks[gotAddr];
      ShownItems(state.chains[gotAddr].items, hook.runningList);
      ok := hook.AddFunc(func, taskId);
      calls := calls + set x | x in hook.runningList;
      forall b | b in hooks && b != gotAddr
        ensures Filed(hooks[b], b, state.chains[b])
      {
        assert Shown(state.chains[b].items, hooks[b].runningList);
      }
    }

    /** create_hook: a chain with a new trampoline, and no functions yet. */
    method CreateHook(gotAddr: nat, origFunc: Code) returns (trampo: Code)
      requires Valid() && gotAddr !in hooks
      modifies this`hooks, this`created, this`state
      ensures Valid() && hooks.Keys == old(hooks.Keys) + {gotAddr} && trampo == Trampoline(old(created))
      ensures fresh(hooks.Values - old(hooks.Values))
      ensures var s := old(state);
        state == State(s.chains[gotAddr := ChainState(s.created, origFunc, [])], s.got, s.created + 1)
    {
      hide ItemsOf;
      var hook := new Chain(created, gotAddr, origFunc);
      trampo := Trampoline(created);
      created := created + 1;
      hooks := hooks[gotAddr := hook];
      state := State(state.chains[gotAddr := ChainState(hook.id, origFunc, [])], state.got, created);
    }

    /** The chains that are kept after their last function has gone. The tree takes one for an address and
        refuses the others. */
    static function Abandoned(abandoned: map<nat, Chain>, hooks: map<nat, Chain>, gotAddr: nat): map<nat, Chain> {
      if gotAddr in hooks && gotAddr !in abandoned then abandoned[gotAddr := hooks[gotAddr]] else abandoned
    }

    /** del_func: the function to restore if the chain is of no more use, else NULL. */
    method DelFunc(gotAddr: nat, func: Code) returns (r: Status, restoreFunc: Code)
      requires Valid()
      modifies this`hooks, this`abandonedHooks, this`state, calls`enabled
      ensures Valid() && hooks.Values <= old(hooks.Values)
      ensures abandonedHooks == if gotAddr in hooks then old(abandonedHooks) else Abandoned(old(abandonedHooks), old(hooks), gotAddr)
      ensures gotAddr !in old(state).chains ==> r == NoChain && restoreFunc == Null && state == old(state)
      ensures gotAddr in old(state).chains ==> var s := old(state); var c := s.chains[gotAddr];
        var items := Disabled(c.items, func);
        && r == Ok && restoreFunc == (if Useful(items) then Null else c.origFunc)
        && state == s.(chains := if Useful(items) then s.chains[gotAddr := c.(items := items)] else s.chains - {gotAddr})
    {
      hide Filed, Disabled, Useful;
      FrameFacts();
      if gotAddr !in hooks {
        return NoChain, Null;
      }
      var hook := hooks[gotAddr];
      var useful := UnlistFunc(gotAddr, func);
      restoreFunc := Null;
      if !useful {
        restoreFunc := hook.origFunc;
        hooks := hooks - {gotAddr};
        if gotAddr !in abandonedHooks {
          abandonedHooks := abandonedHooks[gotAddr := hook];
        }
        state := state.(chains := state.chains - {gotAddr});
      } else {
        state := state.(chains := state.chains[gotAddr := state.chains[gotAddr].(items := Disabled(state.chains[gotAddr].items, func))]);
      }
      r := Ok;
    }

    method UnlistFunc(gotAddr: nat, func: Code) returns (useful: bool)
      requires Valid() && gotAddr in hooks
      modifies calls`enabled
      ensures forall b :: b in hooks && b != gotAddr ==> Filed(hooks[b], b, state.chains[b])
      ensures var c := state.chains[gotAddr];
        Filed(hooks[gotAddr], gotAddr, c.(items := Disabled(c.items, func))) && useful == Useful(Disabled(c.items, func))
    {
      hide ItemsOf, Disabled, Useful;
      var hook := hooks[gotAddr];
      ShownItems(state.chains[gotAddr].items, hook.runningList);
      useful := hook.DelFunc(func);
      forall b | b in hooks && b != gotAddr
        ensures Filed(hooks[b], b, state.chains[b])
      {
        assert Shown(state.chains[b].items, hooks[b].runningList);
      }
    }

    method ReplaceGotValue(gotAddr: nat, newFunc: Code, verified: bool) returns (r: Status)
      requires Valid() && gotAddr in got
      modifies this`got, this`state
      ensures Valid() && r == (if verified then Ok else GotVerify)
      ensures state == if verified then old(state).(got := old(state).got[gotAddr := newFunc]) else old(state)
    {
      hide ItemsOf;
      if !verified {
        return GotVerify;
      }
      got := got[gotAddr := newFunc];
      state := state.(got := got);
      r := Ok;
    }

    /** add_func: into the chain of the slot, which may be a new one with a new trampoline. */
    method AddFunc(gotAddr: nat, origFunc: Code, func: Code, taskId: nat) returns (r: Status, trampo: Code, origFuncRet: Code)
      requires Valid()
      modifies this`hooks, this`created, this`state, this`calls, hooks.Values`runningList, calls`enabled
      ensures Valid() && gotAddr in hooks && fresh(calls - old(calls)) && fresh(hooks.Values - old(hooks.Values))
      ensures state == AddedTo(old(state), gotAddr, origFunc, func, taskId)
      ensures trampo == if gotAddr in old(state).chains then Null else Trampoline(old(state).created)
      ensures origFuncRet == state.chains[gotAddr].origFunc && HasEnabled(state.chains[gotAddr].items, func)
      ensures r == if gotAddr in old(state).chains && HasEnabled(old(state).chains[gotAddr].items, func) then RepeatedFunc else Ok
    {
      hide Valid, ItemsOf, Added, HasEnabled;
      FrameFacts();
      trampo := Null;
      origFuncRet := if gotAddr in hooks then hooks[gotAddr].origFunc else origFunc;
      if gotAddr !in hooks {
        trampo := CreateHook(gotAddr, origFunc);
        NothingEnabled(func);
      }
      AddedEnabled(state.chains[gotAddr].items, func, taskId);
      FrameFacts();
      r := AddToChain(gotAddr, func, taskId);
      FrameFacts();
    }

    /** hook_single_got. */
    method HookSingleGot(gotAddr: nat, func: Code, taskId: nat, verified: bool) returns (r: Status, origFuncRet: Code)
      requires Valid() && gotAddr in got
      modifies this, hooks.Values`runningList, calls`enabled
      ensures Valid() && state == Do(old(state), Hook(gotAddr, func, taskId, verified))
      ensures fresh(calls - old(calls)) && fresh(hooks.Values - old(hooks.Values))
      ensures gotAddr in hooks || gotAddr in old(abandonedHooks) ==> abandonedHooks == old(abandonedHooks)
      ensures r == Ok ==> gotAddr in state.chains && origFuncRet == state.chains[gotAddr].origFunc && HasEnabled(state.chains[gotAddr].items, func)
      ensures r == RepeatedFunc <==> gotAddr in old(state).chains && HasEnabled(old(state).chains[gotAddr].items, func)
      ensures r == GotVerify <==> gotAddr !in old(state).chains && !verified
    {
      hide Valid, Added, AddedTo, Disabled, HasEnabled, Useful, Abandoned;
      ghost var s := state;
      FrameFacts();
      var trampo;
      r, trampo, origFuncRet := AddFunc(gotAddr, got[gotAddr], func, taskId);
      HookAgain(s, gotAddr, func, taskId, verified);
      if r != Ok {
        return r, Null;
      }
      if trampo != Null {
        r := PatchNew(gotAddr, trampo, func, taskId, verified, s);
      }
      FrameFacts();
    }

    /** The slot gets the new trampoline, or the chain goes again. */
    method PatchNew(gotAddr: nat, trampo: Code, func: Code, taskId: nat, verified: bool, ghost s: State) returns (r: Status)
      requires Valid() && gotAddr in s.got && gotAddr !in s.chains && trampo == Trampoline(s.created)
      requires state == AddedTo(s, gotAddr, s.got[gotAddr], func, taskId)
      modifies this`hooks, this`abandonedHooks, this`state, this`got, calls`enabled
      ensures Valid() && state == Do(s, Hook(gotAddr, func, taskId, verified)) && hooks.Values <= old(hooks.Values)
      ensures gotAddr in hooks || gotAddr in old(abandonedHooks) ==> abandonedHooks == old(abandonedHooks)
      ensures r == (if verified then Ok else GotVerify) && (verified ==> state.chains == old(state.chains))
    {
      hide Valid, Added, Disabled, HasEnabled, Useful;
      FrameFacts();
      HookNew(s, gotAddr, func, taskId);
      r := ReplaceGotValue(gotAddr, trampo, verified);
      if r != Ok {
        var deleted, restoreFunc := DelFunc(gotAddr, func);
      }
    }

    lemma FrameFacts()
      requires Valid()
      ensures state.got == got && state.created == created && state.chains.Keys == hooks.Keys
      ensures forall a :: a in hooks ==> state.chains[a].origFunc == hooks[a].origFunc
    {
    }

    /** unhook_single_got. The slot's value is not checked again. */
    method UnhookSingleGot(gotAddr: nat, func: Code) returns (r: Status)
      requires Valid() && gotAddr in got
      modifies this`hooks, this`abandonedHooks, this`got, this`state, calls`enabled
      ensures Valid() && state == Do(old(state), Unhook(gotAddr, func)) && hooks.Values <= old(hooks.Values)
      ensures abandonedHooks == if gotAddr in hooks then old(abandonedHooks) else Abandoned(old(abandonedHooks), old(hooks), gotAddr)
      ensures r == if gotAddr in old(state).chains then Ok else NoChain
    {
      hide Valid, ItemsOf, Added, Disabled;
      FrameFacts();
      var restoreFunc;
      r, restoreFunc := DelFunc(gotAddr, func);
      if r == Ok && restoreFunc != Null {
        FrameFacts();
        r := ReplaceGotValue(gotAddr, restoreFunc, true);
      }
    }
  }

  /** The state after a function has been added to the chain of a slot. */
  function AddedTo(s: State, a: nat, origFunc: Code, f: Code, t: nat): (s': State)
    ensures a in s'.chains
  {
    var s1 := if a in s.chains then s else State(s.chains[a := ChainState(s.created, origFunc, [])], s.got, s.created + 1);
    s1.(chains := s1.chains[a := s1.chains[a].(items := Added(s1.chains[a].items, f, t))])
  }

  lemma HookAgain(s: State, a: nat, f: Code, t: nat, verified: bool)
    requires a in s.got
    ensures a in s.chains ==> AddedTo(s, a, s.got[a], f, t) == Do(s, Hook(a, f, t, verified))
  {
  }

  lemma NothingEnabled(func: Code)
    ensures !HasEnabled([], func)
  {
  }

  /** The steps of hooking a slot that has no chain. */
  lemma HookNew(s: State, a: nat, f: Code, t: nat)
    requires a !in s.chains && a in s.got
    ensures var s2 := AddedTo(s, a, s.got[a], f, t);
      && s2.(got := s2.got[a := Trampoline(s.created)]) == Do(s, Hook(a, f, t, true))
      && !Useful(Disabled(s2.chains[a].items, f))
      && s2.(chains := s2.chains - {a}) == Do(s, Hook(a, f, t, false))
  {
    AddedNew(f, t);
  }

  lemma AddedNew(func: Code, taskId: nat)
    ensures Added([], func, taskId) == [Item(func, true, taskId)]
    ensures !Useful(Disabled([Item(func, true, taskId)], func))
  {
  }

  lemma AddedEnabled(items: seq<Item>, func: Code, taskId: nat)
    ensures HasEnabled(Added(items, func, taskId), func)
  {
    var r := Added(items, func, taskId);
    if !HasEnabled(items, func) {
      var i := Owned(items, func, taskId);
      assert r[if i < |items| then i else 0].enabled && r[if i < |items| then i else 0].func == func;
    }
  }

  // ----- a client -----

  lemma TwoHooks(got: map<nat, Code>, slot: nat, f: Code, g: Code)
    requires slot in got && got[slot] != Null && f != g
    ensures var s1 := Do(State(map[], got, 0), Hook(slot, f, 1, true)); var s2 := Do(s1, Hook(slot, g, 2, true));
      && s1.got == s2.got == got[slot := Trampoline(0)] && slot in s2.chains && s2.chains[slot].items == [Item(g, true, 2), Item(f, true, 1)]
      && var s3 := Do(s2, Unhook(slot, f)); && s3.got == s2.got && Do(s3, Unhook(slot, g)) == State(map[], got, 1)
  {
    var one, two := [Item(f, true, 1)], [Item(g, true, 2), Item(f, true, 1)];
    assert Owned(one, g, 2) == 1;
    assert Added(one, g, 2) == two;
    assert Disabled(two, f) == [Item(g, true, 2), Item(f, false, 1)];
    assert Disabled(two, f)[0].enabled;
    assert !Useful(Disabled(Disabled(two, f), g));
    assert got[slot := Trampoline(0)][slot := got[slot]] == got;
    assert map[slot := ChainState(0, got[slot], two)] - {slot} == map[];
  }

  /** Two functions are hooked into one slot. */
  method HookTwo(got: map<nat, Code>, slot: nat, f: Code, g: Code) returns (manager: Manager)
    requires slot in got && got[slot] != Null && f != g
    ensures fresh(manager) && fresh(manager.calls) && fresh(manager.hooks.Values) && manager.Valid()
    ensures manager.state == Do(Do(State(map[], got, 0), Hook(slot, f, 1, true)), Hook(slot, g, 2, true))
  {
    hide Do, HasEnabled, Manager.Valid, Manager.Abandoned;
    TwoHooks(got, slot, f, g);
    manager := new Manager(got);
    manager.FrameFacts();
    var r, origFunc := manager.HookSingleGot(slot, f, 1, true);
    manager.FrameFacts();
    r, origFunc := manager.HookSingleGot(slot, g, 2, true);
  }

  /** And unhooked in the same order: the memory is as before. */
  method HookAndUnhook(got: map<nat, Code>, slot: nat, f: Code, g: Code) returns (manager: Manager)
    requires slot in got && got[slot] != Null && f != g
    ensures fresh(manager) && manager.Valid() && manager.got == got && manager.hooks == map[]
  {
    hide Do, Manager.Valid, Manager.Abandoned;
    TwoHooks(got, slot, f, g);
    manager := HookTwo(got, slot, f, g);
    manager.FrameFacts();
    var r := manager.UnhookSingleGot(slot, f);
    manager.FrameFacts();
    r := manager.UnhookSingleGot(slot, g);
    manager.FrameFacts();
  }
}
