/** The list of hook functions of one chain, newest first: adding, deleting, and the way from one
    enabled function to the next. */
module HookList {
  import opened Basics

  /** A function pointer. Trampolines are told apart by the chain they were created for. */
  datatype Code = Null | Address(a: nat) | Trampoline(id: nat)

  datatype Item = Item(func: Code, enabled: bool, taskId: nat)

  // ----- looking a function up -----

  function EnabledFuncs(items: seq<Item>): seq<Code> {
    if items == [] then []
    else if items[0].enabled then [items[0].func] + EnabledFuncs(items[1..])
    else EnabledFuncs(items[1..])
  }

  function First(funcs: seq<Code>): Option<Code> {
    At(funcs, 0)
  }

  function At(funcs: seq<Code>, k: nat): Option<Code> {
    if k < |funcs| then Some(funcs[k]) else None
  }

  /** What get_prev_func finds: the first enabled function behind the first item that carries
      `func`, enabled or not. */
  function PrevFunc(items: seq<Item>, func: Code): Option<Code> {
    if items == [] then None
    else if items[0].func == func then First(EnabledFuncs(items[1..]))
    else PrevFunc(items[1..], func)
  }

  /** Calling on from each enabled function leads to the next one, and from the last to none. */
  ghost predicate InOrder(items: seq<Item>) {
    var e := EnabledFuncs(items);
    forall k: nat :: k < |e| ==> PrevFunc(items, e[k]) == At(e, k + 1)
  }

  predicate OneEnabled(items: seq<Item>) {
    forall i, j :: 0 <= i < j < |items| && items[i].enabled && items[j].enabled ==> items[i].func != items[j].func
  }

  /** Every enabled item is the first one that carries its function. */
  predicate FirstCarriers(items: seq<Item>) {
    forall i, j :: 0 <= i < j < |items| && items[j].enabled ==> items[i].func != items[j].func
  }

  lemma {:induction false} EnabledMember(items: seq<Item>, k: nat) returns (i: nat)
    requires k < |EnabledFuncs(items)|
    ensures i < |items| && items[i].enabled && items[i].func == EnabledFuncs(items)[k]
  {
    if items[0].enabled && k == 0 {
      i := 0;
    } else {
      i := EnabledMember(items[1..], if items[0].enabled then k - 1 else k);
      i := i + 1;
    }
  }

  lemma {:induction false} EnabledIndex(items: seq<Item>, i: nat) returns (k: nat)
    requires i < |items| && items[i].enabled
    ensures k < |EnabledFuncs(items)| && EnabledFuncs(items)[k] == items[i].func
  {
    if i == 0 {
      k := 0;
    } else {
      k := EnabledIndex(items[1..], i - 1);
      k := if items[0].enabled then k + 1 else k;
    }
  }

  lemma DistinctCons(f: Code, e: seq<Code>)
    requires f !in e && Distinct(e)
    ensures Distinct([f] + e)
  {
  }

  lemma {:induction false} EnabledDistinct(items: seq<Item>)
    requires OneEnabled(items)
    ensures Distinct(EnabledFuncs(items))
  {
    if items != [] {
      EnabledDistinct(items[1..]);
      if items[0].enabled {
        var e := EnabledFuncs(items[1..]);
        forall k | 0 <= k < |e|
          ensures e[k] != items[0].func
        {
          var i := EnabledMember(items[1..], k);
        }
        DistinctCons(items[0].func, e);
      }
    }
  }

  lemma {:induction false} CarriersInOrder(items: seq<Item>, k: nat)
    requires FirstCarriers(items) && k < |EnabledFuncs(items)|
    ensures PrevFunc(items, EnabledFuncs(items)[k]) == At(EnabledFuncs(items), k + 1)
  {
    var rest := items[1..];
    if !(items[0].enabled && k == 0) {
      var k' := if items[0].enabled then k - 1 else k;
      var i := EnabledMember(rest, k');
      CarriersInOrder(rest, k');
    }
  }

  /** Behind the first item the order is the same, and its function does not come again. */
  lemma InOrderRest(items: seq<Item>, k: nat)
    requires items != [] && InOrder(items) && Distinct(EnabledFuncs(items)) && k < |EnabledFuncs(items[1..])|
    ensures var e := EnabledFuncs(items[1..]); e[k] != items[0].func && PrevFunc(items[1..], e[k]) == At(e, k + 1)
  {
    var e, all := EnabledFuncs(items[1..]), EnabledFuncs(items);
    var at := if items[0].enabled then k + 1 else k;
    assert all[at] == e[k] && At(all, at + 1) == At(e, k + 1);
    assert PrevFunc(items, all[at]) == At(all, at + 1);
    assert PrevFunc(items, items[0].func) == At(e, 0);
    assert At(e, 0) != At(e, k + 1);
  }

  lemma {:induction false} InOrderCarriers(items: seq<Item>)
    requires OneEnabled(items) && InOrder(items)
    ensures FirstCarriers(items)
  {
    if items != [] {
      var rest, f, e := items[1..], items[0].func, EnabledFuncs(items[1..]);
      EnabledDistinct(items);
      forall k: nat | k < |e|
        ensures e[k] != f && PrevFunc(rest, e[k]) == At(e, k + 1)
      {
        InOrderRest(items, k);
      }
      InOrderCarriers(rest);
      forall j | 0 < j < |items| && items[j].enabled
        ensures items[j].func != f
      {
        var k := EnabledIndex(rest, j - 1);
      }
    }
  }

  /** Calling on runs through the enabled functions in order if and only if every enabled item is
      the first carrier of its function. */
  lemma OrderExactly(items: seq<Item>)
    requires OneEnabled(items)
    ensures InOrder(items) <==> FirstCarriers(items)
  {
    if FirstCarriers(items) {
      forall k: nat | k < |EnabledFuncs(items)|
        ensures PrevFunc(items, EnabledFuncs(items)[k]) == At(EnabledFuncs(items), k + 1)
      {
        CarriersInOrder(items, k);
      }
    }
    if InOrder(items) {
      InOrderCarriers(items);
    }
  }

  // ----- adding and deleting -----

  predicate HasEnabled(items: seq<Item>, func: Code) {
    exists i :: 0 <= i < |items| && items[i].enabled && items[i].func == func
  }

  /** The first item of this function and task. */
  function Owned(items: seq<Item>, func: Code, taskId: nat): (i: nat)
    ensures i <= |items| && forall j :: 0 <= j < i ==> !(items[j].func == func && items[j].taskId == taskId)
    ensures i < |items| ==> items[i].func == func && items[i].taskId == taskId
  {
    if items == [] then 0
    else if items[0].func == func && items[0].taskId == taskId then 0
    else 1 + Owned(items[1..], func, taskId)
  }

  /** The list after bh_hook_add_func, which refuses a function that is already enabled. */
  function Added(items: seq<Item>, func: Code, taskId: nat): seq<Item> {
    if HasEnabled(items, func) then items
    else
      var i := Owned(items, func, taskId);
      if i < |items| then items[i := items[i].(enabled := true)] else [Item(func, true, taskId)] + items
  }

  function Disabled(items: seq<Item>, func: Code): (r: seq<Item>)
    ensures |r| == |items|
  {
    seq(|items|, i requires 0 <= i < |items| => if items[i].func == func then items[i].(enabled := false) else items[i])
  }

  predicate Useful(items: seq<Item>) {
    exists i :: 0 <= i < |items| && items[i].enabled
  }

  /** Re-enabling an old item keeps the order exactly when no newer item carries its function. */
  lemma AddedCarriers(items: seq<Item>, func: Code, taskId: nat)
    requires FirstCarriers(items)
    ensures var i := Owned(items, func, taskId);
      FirstCarriers(Added(items, func, taskId)) <==>
        HasEnabled(items, func) || i == |items| || forall j :: 0 <= j < i ==> items[j].func != func
  {
    var i, r := Owned(items, func, taskId), Added(items, func, taskId);
    if !HasEnabled(items, func) && i < |items| {
      assert r[i].enabled && r[i].func == func;
      assert forall j :: 0 <= j < i ==> r[j] == items[j];
    }
  }

  datatype Op = Add(func: Code, taskId: nat) | Delete(func: Code)

  function Apply(items: seq<Item>, op: Op): seq<Item> {
    match op
    case Add(f, id) => Added(items, f, id)
    case Delete(f) => Disabled(items, f)
  }

  /** The chain after a history, oldest operation first. */
  function History(ops: seq<Op>): seq<Item> {
    if ops == [] then [] else Apply(History(ops[..|ops| - 1]), ops[|ops| - 1])
  }

  /** Every task is added to the chain at most once. */
  predicate UniqueTasks(ops: seq<Op>) {
    forall i, j :: 0 <= i < j < |ops| && ops[i].Add? && ops[j].Add? ==> ops[i].taskId != ops[j].taskId
  }

  /** No chain has two enabled items for one function. */
  lemma {:induction false} OneEnabledAlways(ops: seq<Op>)
    ensures OneEnabled(History(ops))
  {
    if ops != [] {
      OneEnabledAlways(ops[..|ops| - 1]);
    }
  }

  ghost predicate Known(ops: seq<Op>, taskId: nat) {
    exists j :: 0 <= j < |ops| && ops[j].Add? && ops[j].taskId == taskId
  }

  lemma KnownLater(ops: seq<Op>, op: Op, taskId: nat)
    requires Known(ops, taskId)
    ensures Known(ops + [op], taskId)
  {
    var j :| 0 <= j < |ops| && ops[j].Add? && ops[j].taskId == taskId;
    assert (ops + [op])[j] == ops[j];
  }

  lemma {:induction false} TasksKnown(ops: seq<Op>)
    ensures forall i :: 0 <= i < |History(ops)| ==> Known(ops, History(ops)[i].taskId)
  {
    if ops != [] {
      var n := |ops| - 1;
      var before, after := History(ops[..n]), History(ops);
      TasksKnown(ops[..n]);
      assert ops[..n] + [ops[n]] == ops;
      forall i | 0 <= i < |after|
        ensures Known(ops, after[i].taskId)
      {
        if |after| != |before| && i == 0 {
          assert ops[n].Add? && ops[n].taskId == after[0].taskId;
        } else {
          KnownLater(ops[..n], ops[n], before[if |after| == |before| then i else i - 1].taskId);
        }
      }
    }
  }

  /** A task that is new to the chain owns no item. */
  lemma NewTask(ops: seq<Op>)
    requires ops != [] && ops[|ops| - 1].Add? && UniqueTasks(ops)
    ensures var op, items := ops[|ops| - 1], History(ops[..|ops| - 1]); Owned(items, op.func, op.taskId) == |items|
  {
    var n := |ops| - 1;
    TasksKnown(ops[..n]);
    assert !Known(ops[..n], ops[n].taskId);
  }

  lemma {:induction false} CarriersAlways(ops: seq<Op>)
    requires UniqueTasks(ops)
    ensures FirstCarriers(History(ops))
  {
    if ops != [] {
      var n := |ops| - 1;
      CarriersAlways(ops[..n]);
      if ops[n].Add? {
        NewTask(ops);
        AddedCarriers(History(ops[..n]), ops[n].func, ops[n].taskId);
      }
    }
  }

  /** The functions in force after a history: added and not deleted since, newest first. */
  function Live(ops: seq<Op>): seq<Code> {
    if ops == [] then []
    else
      var before, op := Live(ops[..|ops| - 1]), ops[|ops| - 1];
      if op.Delete? then Others(before, op.func)
      else if op.func in before then before
      else [op.func] + before
  }

  function Others(funcs: seq<Code>, func: Code): seq<Code> {
    if funcs == [] then []
    else if funcs[0] == func then Others(funcs[1..], func)
    else [funcs[0]] + Others(funcs[1..], func)
  }

  lemma {:induction false} DisabledEnabled(items: seq<Item>, func: Code)
    ensures EnabledFuncs(Disabled(items, func)) == Others(EnabledFuncs(items), func)
  {
    if items != [] {
      DisabledEnabled(items[1..], func);
      assert Disabled(items, func)[1..] == Disabled(items[1..], func);
    }
  }

  lemma HasEnabledIn(items: seq<Item>, func: Code)
    ensures HasEnabled(items, func) <==> func in EnabledFuncs(items)
  {
    if HasEnabled(items, func) {
      var i :| 0 <= i < |items| && items[i].enabled && items[i].func == func;
      var k := EnabledIndex(items, i);
    }
    if func in EnabledFuncs(items) {
      var k :| 0 <= k < |EnabledFuncs(items)| && EnabledFuncs(items)[k] == func;
      var i := EnabledMember(items, k);
    }
  }

  /** For histories in which every task is added at most once: the enabled functions are those in
      force, newest first, and calling on runs through all of them in this order. */
  lemma {:induction false} HistoryInOrder(ops: seq<Op>)
    requires UniqueTasks(ops)
    ensures EnabledFuncs(History(ops)) == Live(ops) && InOrder(History(ops))
  {
    OneEnabledAlways(ops);
    CarriersAlways(ops);
    OrderExactly(History(ops));
    if ops != [] {
      var n := |ops| - 1;
      var items := History(ops[..n]);
      HistoryInOrder(ops[..n]);
      HasEnabledIn(items, ops[n].func);
      if ops[n].Delete? {
        DisabledEnabled(items, ops[n].func);
      } else {
        NewTask(ops);
        assert ([Item(ops[n].func, true, ops[n].taskId)] + items)[1..] == items;
      }
    }
  }

  /** Without unique tasks the order breaks: A calls on to B and B calls on to A, for ever. */
  lemma ReenabledLoops()
    ensures var a, b := Address(1), Address(2);
      var items := Apply(Apply(Apply(Apply(Apply(Apply([], Add(a, 1)), Add(b, 2)), Delete(a)), Add(a, 3)), Delete(a)), Add(a, 1));
      PrevFunc(items, a) == Some(b) && PrevFunc(items, b) == Some(a)
  {
    ReenabledHistory();
    var a, b := Address(1), Address(2);
    var i1 := [Item(a, true, 1)];
    var i2 := [Item(b, true, 2)] + i1;
    var i3 := [Item(a, false, 3)] + i2;
    assert i3[1..] == i2 && i2[1..] == i1 && i1[1..] == [];
    assert EnabledFuncs([]) == [];
    assert EnabledFuncs(i1) == [a] + EnabledFuncs(i1[1..]);
    assert EnabledFuncs(i2) == [b] + EnabledFuncs(i2[1..]);
    assert PrevFunc(i2, b) == Some(a);
    assert i3 == [Item(a, false, 3), Item(b, true, 2), Item(a, true, 1)];
  }

  lemma ReenabledHistory()
    ensures var a, b := Address(1), Address(2);
      Apply(Apply(Apply(Apply(Apply(Apply([], Add(a, 1)), Add(b, 2)), Delete(a)), Add(a, 3)), Delete(a)), Add(a, 1)) ==
        [Item(a, false, 3), Item(b, true, 2), Item(a, true, 1)]
  {
    var a, b := Address(1), Address(2);
    var l1, l2, l3 := [Item(a, true, 1)], [Item(b, true, 2), Item(a, true, 1)], [Item(b, true, 2), Item(a, false, 1)];
    var l4 := [Item(a, true, 3), Item(b, true, 2), Item(a, false, 1)];
    var l5 := [Item(a, false, 3), Item(b, true, 2), Item(a, false, 1)];
    AddsNew(l1, b, 2);
    AddsNew(l3, a, 3);
    assert Apply([], Add(a, 1)) == l1 && Apply(l1, Add(b, 2)) == l2 && Apply(l2, Delete(a)) == l3;
    assert Apply(l3, Add(a, 3)) == l4 && Apply(l4, Delete(a)) == l5;
    assert l5[1..][1..] == [Item(a, false, 1)];
    assert Apply(l5, Add(a, 1)) == l5[2 := Item(a, true, 1)];
  }

  lemma {:induction false} AddsNew(items: seq<Item>, func: Code, taskId: nat)
    requires !HasEnabled(items, func) && forall i :: 0 <= i < |items| ==> items[i].taskId != taskId
    ensures Added(items, func, taskId) == [Item(func, true, taskId)] + items
  {
    assert Owned(items, func, taskId) == |items|;
  }
}
