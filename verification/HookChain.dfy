/** The hook chain objects, the per-thread stack of frames, and what happens when hooked functions
    are called. The SLIST of a chain only ever grows at its head, so the head that a frame keeps
    stands for a fixed list; it is modelled as a sequence of the list's items. */
module HookChain {
  import opened Basics
  import opened HookList

  class HookCall {
    const func: Code
    const taskId: nat
    var enabled: bool
    /** The slot whose chain the item belongs to. */
    ghost const slot: nat

    constructor (func: Code, taskId: nat, ghost slot: nat)
      ensures this.func == func && this.taskId == taskId && enabled && this.slot == slot
    {
      this.func, this.taskId, enabled, this.slot := func, taskId, true, slot;
    }
  }

  ghost function ItemsOf(calls: seq<HookCall>): (r: seq<Item>)
    reads calls`enabled
    ensures |r| == |calls|
    ensures forall i :: 0 <= i < |calls| ==> r[i] == Item(calls[i].func, calls[i].enabled, calls[i].taskId)
  {
    if calls == [] then [] else [Item(calls[0].func, calls[0].enabled, calls[0].taskId)] + ItemsOf(calls[1..])
  }

  class Chain {
    const id: nat
    const gotAddr: nat
    const origFunc: Code
    var runningList: seq<HookCall>

    constructor (id: nat, gotAddr: nat, origFunc: Code)
      ensures this.id == id && this.gotAddr == gotAddr && this.origFunc == origFunc && runningList == []
    {
      this.id, this.gotAddr, this.origFunc, runningList := id, gotAddr, origFunc, [];
    }

    /** No item is on the list twice, or on the list of another chain. */
    ghost predicate Linked()
      reads this`runningList
    {
      && (forall i :: 0 <= i < |runningList| ==> runningList[i].slot == gotAddr)
      && forall i, j :: 0 <= i < j < |runningList| ==> runningList[i] != runningList[j]
    }

    ghost function Items(): seq<Item>
      reads this`runningList, runningList`enabled
    {
      ItemsOf(runningList)
    }

    /** bh_hook_add_func: false for a function that is already enabled. */
    method AddFunc(func: Code, taskId: nat) returns (ok: bool)
      requires Linked()
      modifies this`runningList, runningList`enabled
      ensures Linked() && Items() == Added(old(Items()), func, taskId)
      ensures ok <==> !HasEnabled(old(Items()), func)
      ensures forall call :: call in runningList ==> call in old(runningList) || fresh(call)
    {
      hide ItemsOf;
      ghost var items := Items();
      for i := 0 to |runningList|
        invariant forall j :: 0 <= j < i ==> !(items[j].enabled && items[j].func == func)
      {
        if runningList[i].enabled && runningList[i].func == func {
          assert items[i].enabled && items[i].func == func;
          return false;
        }
      }
      for i := 0 to |runningList|
        invariant forall j :: 0 <= j < i ==> !(items[j].func == func && items[j].taskId == taskId)
        invariant Items() == items
      {
        if runningList[i].func == func && runningList[i].taskId == taskId {
          runningList[i].enabled := true;
          assert Owned(items, func, taskId) == i;
          assert Items() == items[i := items[i].(enabled := true)];
          return true;
        }
      }
      var running := new HookCall(func, taskId, gotAddr);
      runningList := [running] + runningList;
      assert runningList[1..] == old(runningList);
      assert Owned(items, func, taskId) == |items|;
      return true;
    }

    /** bh_hook_del_func: true if the chain is still useful. */
    method DelFunc(func: Code) returns (useful: bool)
      requires Linked()
      modifies runningList`enabled
      ensures Items() == Disabled(old(Items()), func)
      ensures useful <==> Useful(Items())
    {
      hide ItemsOf;
      useful := false;
      ghost var items := Items();
      for i := 0 to |runningList|
        invariant forall j :: 0 <= j < |items| ==>
          runningList[j].enabled == (items[j].enabled && !(j < i && items[j].func == func))
        invariant useful <==> exists j :: 0 <= j < i && items[j].enabled && items[j].func != func
      {
        if runningList[i].func == func {
          if runningList[i].enabled {
            runningList[i].enabled := false;
          }
        }
        if runningList[i].enabled && !useful {
          useful := true;
        }
      }
      StillUseful(items, func);
      assert Items() == Disabled(items, func);
    }
  }

  lemma StillUseful(items: seq<Item>, func: Code)
    ensures Useful(Disabled(items, func)) <==> exists j :: 0 <= j < |items| && items[j].enabled && items[j].func != func
  {
    var r := Disabled(items, func);
    if j :| 0 <= j < |items| && items[j].enabled && items[j].func != func {
      assert r[j].enabled;
    }
  }

  // ----- the frames of one thread -----

  const FRAME_MAX := 16

  datatype Frame<P> = Frame(proxies: P, origFunc: Code, returnAddress: nat)

  predicate Recursive<P>(frames: seq<Frame<P>>, origFunc: Code) {
    exists i :: 0 <= i < |frames| && frames[i].origFunc == origFunc
  }

  /** What the trampoline does: the hook function to run, with a new frame; or none, which means
      the original function. */
  function Pushed<P>(frames: seq<Frame<P>>, proxies: P, items: seq<Item>, origFunc: Code, returnAddress: nat): (seq<Frame<P>>, Option<Code>) {
    if Recursive(frames, origFunc) || EnabledFuncs(items) == [] || |frames| >= FRAME_MAX then (frames, None)
    else (frames + [Frame(proxies, origFunc, returnAddress)], Some(EnabledFuncs(items)[0]))
  }

  function Popped<P>(frames: seq<Frame<P>>, returnAddress: nat): seq<Frame<P>> {
    if frames != [] && frames[|frames| - 1].returnAddress == returnAddress then frames[..|frames| - 1] else frames
  }

  lemma {:induction false} FirstEnabled(items: seq<Item>, i: nat)
    requires i <= |items| && forall j :: 0 <= j < i ==> !items[j].enabled
    ensures i == |items| ==> EnabledFuncs(items) == []
    ensures i < |items| && items[i].enabled ==> EnabledFuncs(items) != [] && EnabledFuncs(items)[0] == items[i].func
  {
    if i > 0 {
      FirstEnabled(items[1..], i - 1);
    }
  }

  lemma {:induction false} FoundAt(items: seq<Item>, func: Code, i: nat)
    requires i <= |items| && forall j :: 0 <= j < i ==> items[j].func != func
    ensures i == |items| ==> PrevFunc(items, func) == None
    ensures i < |items| && items[i].func == func ==> PrevFunc(items, func) == First(EnabledFuncs(items[i + 1..]))
  {
    if i > 0 {
      FoundAt(items[1..], func, i - 1);
      assert i < |items| ==> items[1..][i..] == items[i + 1..];
    }
  }

  class TrampoStack {
    const frames: array<Frame<seq<HookCall>>>
    var framesCnt: nat

    constructor ()
      ensures Valid() && Frames() == [] && fresh(frames) && frames.Length == 16
    {
      frames := new Frame<seq<HookCall>>[FRAME_MAX];
      framesCnt := 0;
    }

    predicate Valid()
      reads this
    {
      frames.Length == FRAME_MAX && framesCnt <= FRAME_MAX
    }

    function Frames(): seq<Frame<seq<HookCall>>>
      requires Valid()
      reads this, frames
    {
      frames[..framesCnt]
    }

    /** bh_trampo_push_stack. */
    method Push(hook: Chain, returnAddress: nat) returns (func: Code)
      requires Valid()
      modifies this`framesCnt, frames
      ensures Valid()
      ensures var (after, proxy) := Pushed(old(Frames()), hook.runningList, hook.Items(), hook.origFunc, returnAddress);
        Frames() == after && func == if proxy.Some? then proxy.value else hook.origFunc
    {
      ghost var frames0, items := Frames(), hook.Items();
      var i := framesCnt;
      while i > 0
        invariant 0 <= i <= framesCnt == |frames0| && Frames() == frames0 && forall j :: i <= j < framesCnt ==> frames0[j].origFunc != hook.origFunc
      {
        if frames[i - 1].origFunc == hook.origFunc {
          assert frames0[i - 1].origFunc == hook.origFunc;
          return hook.origFunc;
        }
        i := i - 1;
      }
      assert !Recursive(frames0, hook.origFunc);
      for k := 0 to |hook.runningList|
        invariant Frames() == frames0 && forall j :: 0 <= j < k ==> !items[j].enabled
      {
        if hook.runningList[k].enabled {
          FirstEnabled(items, k);
          if framesCnt >= FRAME_MAX {
            return hook.origFunc;
          }
          framesCnt := framesCnt + 1;
          frames[framesCnt - 1] := Frame(hook.runningList, hook.origFunc, returnAddress);
          assert Frames() == frames0 + [Frame(hook.runningList, hook.origFunc, returnAddress)];
          return hook.runningList[k].func;
        }
      }
      FirstEnabled(items, |items|);
      return hook.origFunc;
    }

    /** bh_trampo_get_prev_func, which aborts if there is no frame. */
    method GetPrevFunc(func: Code) returns (prev: Code)
      requires Valid() && framesCnt > 0
      ensures var frame := Frames()[framesCnt - 1]; var next := PrevFunc(ItemsOf(frame.proxies), func);
        prev == if next.Some? then next.value else frame.origFunc
    {
      hide ItemsOf, EnabledFuncs, PrevFunc;
      var frame := frames[framesCnt - 1];
      ghost var items := ItemsOf(frame.proxies);
      var found := false;
      ghost var at := 0;
      for k := 0 to |frame.proxies|
        invariant !found ==> forall j :: 0 <= j < k ==> items[j].func != func
        invariant found ==> at < k && items[at].func == func && (forall j :: 0 <= j < at ==> items[j].func != func)
        invariant found ==> forall j :: at < j < k ==> !items[j].enabled
      {
        if !found {
          if frame.proxies[k].func == func {
            found, at := true, k;
          }
        } else if frame.proxies[k].enabled {
          FoundAt(items, func, at);
          FirstEnabled(items[at + 1..], k - at - 1);
          return frame.proxies[k].func;
        }
      }
      if found {
        FoundAt(items, func, at);
        FirstEnabled(items[at + 1..], |items| - at - 1);
      } else {
        FoundAt(items, func, |items|);
      }
      return frame.origFunc;
    }

    /** bh_trampo_pop_stack. */
    method Pop(returnAddress: nat)
      requires Valid()
      modifies this`framesCnt
      ensures Valid() && Frames() == Popped(old(Frames()), returnAddress)
    {
      if framesCnt == 0 {
        return;
      }
      var frame := frames[framesCnt - 1];
      if returnAddress == frame.returnAddress {
        framesCnt := framesCnt - 1;
      }
    }
  }
}
