/** The slots in which threads leave their jump buffers for one signal: claimed by compare-and-swap
    and cleared again, with the steps of all threads interleaved in any order. Memory accesses are
    sequentially consistent. */
module SignalSlots {
  import opened Basics

  const SLOTS := 256

  /** Thread id 0 marks a free slot; a jump buffer is its address, 0 for NULL. */
  datatype Slot = Slot(tid: nat, jbuf: nat)

  /** Where a thread is in bytesig_protect or bytesig_unprotect. */
  datatype Pc =
    | Rest
    | Checking(j: nat)
    | Looking(j: nat)
    | Swapping(j: nat)
    | Storing(j: nat)
    | Seeking(j: nat)
    | Clearing(j: nat)
    | Releasing(j: nat)

  /** `jbuf` is the argument of the protect call in progress; `owned` is the slot the thread holds,
      and `kept` the buffer of the call that got it. */
  datatype Thread = Thread(pc: Pc, jbuf: nat, owned: Option<nat>, kept: nat)

  datatype State = State(slots: seq<Slot>, threads: map<nat, Thread>)

  /** What a thread does next: start a call, or take the next step of the one in progress. */
  datatype Action = Protect(jbuf: nat) | Unprotect | Go

  predicate Shaped(s: State) {
    && |s.slots| == SLOTS && 0 !in s.threads
    && forall t :: t in s.threads ==> InRange(s.threads[t].pc)
  }

  predicate InRange(pc: Pc) {
    match pc
    case Rest => true
    case Checking(j) => j <= SLOTS
    case Seeking(j) => j <= SLOTS
    case _ => pc.j < SLOTS
  }

  /** One step of thread `t`. */
  function Step(s: State, t: nat, action: Action): (s': State)
    requires Shaped(s) && t in s.threads
    ensures Shaped(s') && s'.threads.Keys == s.threads.Keys
  {
    var th := s.threads[t];
    match th.pc
    case Rest => (
      match action
      case Protect(jbuf) => At(s, t, th.(pc := Checking(0), jbuf := jbuf))
      case Unprotect => At(s, t, th.(pc := Seeking(0)))
      case Go => s)
    case Checking(j) =>
      if j == SLOTS then At(s, t, th.(pc := Looking(0)))
      else if s.slots[j].tid == t then At(s, t, th.(pc := Rest))
      else At(s, t, th.(pc := Checking(j + 1)))
    case Looking(j) =>
      if s.slots[j].tid == 0 then At(s, t, th.(pc := Swapping(j))) else At(s, t, th.(pc := Looking((j + 1) % SLOTS)))
    case Swapping(j) =>
      if s.slots[j].tid == 0 then
        State(s.slots[j := s.slots[j].(tid := t)], s.threads[t := th.(pc := Storing(j), owned := Some(j))])
      else At(s, t, th.(pc := Looking((j + 1) % SLOTS)))
    case Storing(j) =>
      State(s.slots[j := s.slots[j].(jbuf := th.jbuf)], s.threads[t := th.(pc := Rest, kept := th.jbuf)])
    case Seeking(j) =>
      if j == SLOTS then At(s, t, th.(pc := Rest))
      else if s.slots[j].tid == t then At(s, t, th.(pc := Clearing(j)))
      else At(s, t, th.(pc := Seeking(j + 1)))
    case Clearing(j) =>
      State(s.slots[j := s.slots[j].(jbuf := 0)], s.threads[t := th.(pc := Releasing(j))])
    case Releasing(j) =>
      State(s.slots[j := s.slots[j].(tid := 0)], s.threads[t := th.(pc := Rest, owned := None)])
  }

  function At(s: State, t: nat, th: Thread): State {
    s.(threads := s.threads[t := th])
  }

  // ----- what every step keeps -----

  /** The thread's program counter agrees with what it owns: a scan that has passed its slot is
      impossible, and it tries to claim a slot only if it owns none. */
  predicate Consistent(th: Thread) {
    match th.pc
    case Rest => true
    case Checking(j) => th.owned.Some? ==> j <= th.owned.value
    case Looking(_) => th.owned == None
    case Swapping(_) => th.owned == None
    case Storing(j) => th.owned == Some(j)
    case Seeking(j) => th.owned.Some? ==> j <= th.owned.value
    case Clearing(j) => th.owned == Some(j)
    case Releasing(j) => th.owned == Some(j)
  }

  /** The thread id is in the slot that the thread owns, with the buffer it left there, and in no
      other. */
  ghost predicate Holds(slots: seq<Slot>, t: nat, th: Thread)
    requires |slots| == SLOTS
  {
    && (forall j :: 0 <= j < SLOTS ==> (slots[j].tid == t <==> th.owned == Some(j)))
    && (th.owned.Some? ==> th.owned.value < SLOTS)
    && (th.owned.Some? && !th.pc.Storing? && !th.pc.Releasing? ==> slots[th.owned.value].jbuf == th.kept)
    && (th.pc.Releasing? && th.owned.Some? ==> slots[th.owned.value].jbuf == 0)
  }

  ghost predicate Inv(s: State) {
    && Shaped(s)
    && (forall t :: t in s.threads ==> Consistent(s.threads[t]) && Holds(s.slots, t, s.threads[t]))
    && (forall j :: 0 <= j < SLOTS && s.slots[j].tid != 0 ==> s.slots[j].tid in s.threads)
    && (forall j :: 0 <= j < SLOTS && s.slots[j].tid == 0 ==> s.slots[j].jbuf == 0)
  }

  lemma StepOwn(s: State, t: nat, action: Action)
    requires Inv(s) && t in s.threads
    ensures var s' := Step(s, t, action); t in s'.threads && Consistent(s'.threads[t]) && Holds(s'.slots, t, s'.threads[t])
  {
    assert Consistent(s.threads[t]) && Holds(s.slots, t, s.threads[t]);
  }

  /** A step of one thread changes no slot that another one owns, nor the other thread. */
  lemma StepOther(s: State, t: nat, action: Action, u: nat)
    requires Inv(s) && t in s.threads && u in s.threads && u != t
    ensures var s' := Step(s, t, action);
      && u in s'.threads && s'.threads[u] == s.threads[u] && Holds(s'.slots, u, s.threads[u])
      && (s.threads[u].owned.Some? ==> s'.slots[s.threads[u].owned.value] == s.slots[s.threads[u].owned.value])
  {
    assert Consistent(s.threads[t]) && Holds(s.slots, t, s.threads[t]) && Holds(s.slots, u, s.threads[u]);
  }

  lemma StepInv(s: State, t: nat, action: Action)
    requires Inv(s) && t in s.threads
    ensures Inv(Step(s, t, action))
  {
    hide Step, Holds, Consistent;
    var s' := Step(s, t, action);
    StepOwn(s, t, action);
    StepThreads(s, t, action);
    StepFree(s, t, action);
    forall u | u in s'.threads
      ensures Consistent(s'.threads[u]) && Holds(s'.slots, u, s'.threads[u])
    {
      if u != t {
        StepOther(s, t, action, u);
      }
    }
  }

  lemma StepThreads(s: State, t: nat, action: Action)
    requires Inv(s) && t in s.threads
    ensures Step(s, t, action).threads.Keys == s.threads.Keys
    ensures forall j :: 0 <= j < SLOTS && Step(s, t, action).slots[j].tid != 0 ==> Step(s, t, action).slots[j].tid in s.threads
  {
    hide Consistent, Holds;
  }

  /** A slot that becomes free has lost its buffer. */
  lemma StepFree(s: State, t: nat, action: Action)
    requires Inv(s) && t in s.threads
    ensures var slots := Step(s, t, action).slots; forall j :: 0 <= j < SLOTS && slots[j].tid == 0 ==> slots[j].jbuf == 0
  {
    assert Consistent(s.threads[t]) && Holds(s.slots, t, s.threads[t]);
  }

  // ----- runs -----

  /** Any number of threads, all slots free. */
  ghost predicate Initial(s: State) {
    && |s.slots| == SLOTS && (forall j :: 0 <= j < SLOTS ==> s.slots[j] == Slot(0, 0))
    && 0 !in s.threads && forall t :: t in s.threads ==> s.threads[t] == Thread(Rest, 0, None, 0)
  }

  /** The state after the first `n` steps. */
  function After(s: State, steps: seq<(nat, Action)>, n: nat): (r: State)
    requires Shaped(s) && n <= |steps| && forall i :: 0 <= i < |steps| ==> steps[i].0 in s.threads
    ensures Shaped(r) && r.threads.Keys == s.threads.Keys
  {
    hide Step, Shaped;
    if n == 0 then s else
      var before := After(s, steps, n - 1);
      assert steps[n - 1].0 in before.threads.Keys;
      Step(before, steps[n - 1].0, steps[n - 1].1)
  }

  ghost predicate Run(s: State, steps: seq<(nat, Action)>) {
    Initial(s) && forall i :: 0 <= i < |steps| ==> steps[i].0 in s.threads
  }

  lemma {:induction false} RunInv(s: State, steps: seq<(nat, Action)>, n: nat)
    requires Run(s, steps) && n <= |steps|
    ensures Inv(After(s, steps, n))
  {
    hide Inv, After;
    if n == 0 {
      AfterNothing(s, steps);
    } else {
      RunInv(s, steps, n - 1);
      AfterStep(s, steps, n);
    }
  }

  lemma AfterNothing(s: State, steps: seq<(nat, Action)>)
    requires Run(s, steps)
    ensures Inv(After(s, steps, 0))
  {
    assert After(s, steps, 0) == s;
  }

  lemma AfterStep(s: State, steps: seq<(nat, Action)>, n: nat)
    requires Run(s, steps) && 0 < n <= |steps| && Inv(After(s, steps, n - 1))
    ensures Inv(After(s, steps, n))
  {
    hide Inv, Step;
    var before, step := After(s, steps, n - 1), steps[n - 1];
    assert step.0 in before.threads.Keys;
    StepInv(before, step.0, step.1);
  }

  /** At no moment of any interleaving do two slots hold the same thread. */
  lemma OneSlotPerThread(s: State, steps: seq<(nat, Action)>, n: nat)
    requires Run(s, steps) && n <= |steps|
    ensures var slots := After(s, steps, n).slots;
      |slots| == 256 && forall i, j :: 0 <= i < j < |slots| && slots[i].tid != 0 ==> slots[i].tid != slots[j].tid
  {
    RunInv(s, steps, n);
    var st := After(s, steps, n);
    forall i, j | 0 <= i < j < |st.slots| && st.slots[i].tid != 0
      ensures st.slots[i].tid != st.slots[j].tid
    {
      assert Holds(st.slots, st.slots[i].tid, st.threads[st.slots[i].tid]);
    }
  }

  /** A slot that a thread owns is not changed by the steps of others. */
  lemma OnlyOwnerWrites(s: State, steps: seq<(nat, Action)>, n: nat, j: nat)
    requires Run(s, steps) && n < |steps| && j < SLOTS
    requires var slot := After(s, steps, n).slots[j]; slot.tid != 0 && slot.tid != steps[n].0
    ensures After(s, steps, n + 1).slots[j] == After(s, steps, n).slots[j]
  {
    RunInv(s, steps, n);
    var st := After(s, steps, n);
    var u := st.slots[j].tid;
    assert Holds(st.slots, u, st.threads[u]);
    StepOther(st, steps[n].0, steps[n].1, u);
  }

  // ----- the handler -----

  /** The search of bytesig_handler: the buffer to jump to. */
  function Search(slots: seq<Slot>, tid: nat, from: nat): Option<nat>
    requires from <= |slots|
    decreases |slots| - from
  {
    if from == |slots| then None else if slots[from].tid == tid then Some(slots[from].jbuf) else Search(slots, tid, from + 1)
  }

  method HandlerSearch(slots: array<Slot>, tid: nat) returns (jbuf: Option<nat>)
    ensures jbuf == Search(slots[..], tid, 0)
  {
    for i := 0 to slots.Length
      invariant Search(slots[..], tid, 0) == Search(slots[..], tid, i)
    {
      if tid == slots[i].tid {
        return Some(slots[i].jbuf);
      }
    }
    return None;
  }

  lemma {:induction false} SearchAt(slots: seq<Slot>, tid: nat, from: nat, j: nat)
    requires from <= j < |slots| && slots[j].tid == tid && forall i :: 0 <= i < |slots| && i != j ==> slots[i].tid != tid
    ensures Search(slots, tid, from) == Some(slots[j].jbuf)
    decreases j - from
  {
    if from < j {
      SearchAt(slots, tid, from + 1, j);
    }
  }

  lemma {:induction false} SearchNone(slots: seq<Slot>, tid: nat, from: nat)
    requires from <= |slots| && forall i :: 0 <= i < |slots| ==> slots[i].tid != tid
    ensures Search(slots, tid, from) == None
    decreases |slots| - from
  {
    if from < |slots| {
      SearchNone(slots, tid, from + 1);
    }
  }

  /** Between its calls, a thread finds in the slots of one moment exactly the buffer of the protect call
      that got its slot, and none if it has none. */
  lemma HandlerFindsOwn(s: State, steps: seq<(nat, Action)>, n: nat, t: nat)
    requires Run(s, steps) && n <= |steps| && t in s.threads && After(s, steps, n).threads[t].pc == Rest
    ensures var st := After(s, steps, n); var th := st.threads[t];
      Search(st.slots, t, 0) == if th.owned.Some? then Some(th.kept) else None
  {
    RunInv(s, steps, n);
    var st := After(s, steps, n);
    assert Holds(st.slots, t, st.threads[t]);
    if st.threads[t].owned.Some? {
      SearchAt(st.slots, t, 0, st.threads[t].owned.value);
    } else {
      SearchNone(st.slots, t, 0);
    }
  }

  /** A thread that takes no step, because its handler runs, stays as it is. */
  lemma {:induction false} Frozen(s: State, steps: seq<(nat, Action)>, t: nat, a: nat, b: nat)
    requires Run(s, steps) && a <= b <= |steps| && t in s.threads && forall i :: a <= i < b ==> steps[i].0 != t
    ensures After(s, steps, b).threads[t] == After(s, steps, a).threads[t]
  {
    hide Inv, After, Step;
    if a < b {
      Frozen(s, steps, t, a, b - 1);
      OthersStep(s, steps, t, b - 1);
    }
  }

  lemma OthersStep(s: State, steps: seq<(nat, Action)>, t: nat, n: nat)
    requires Run(s, steps) && n < |steps| && t in s.threads && steps[n].0 != t
    ensures After(s, steps, n + 1).threads[t] == After(s, steps, n).threads[t]
  {
    RunInv(s, steps, n);
    hide Inv, Step;
    var before := After(s, steps, n);
    assert steps[n].0 in before.threads.Keys && t in before.threads.Keys;
    StepOther(before, steps[n].0, steps[n].1, t);
  }

  /** What the handler reads from one slot: the thread's id exactly if it is the thread's slot. */
  lemma SlotRead(s: State, steps: seq<(nat, Action)>, t: nat, a: nat, b: nat, k: nat)
    requires Run(s, steps) && a <= b <= |steps| && t in s.threads && k < SLOTS && forall i :: a <= i < b ==> steps[i].0 != t
    requires After(s, steps, a).threads[t].pc == Rest
    ensures var th, slot := After(s, steps, a).threads[t], After(s, steps, b).slots[k];
      (slot.tid == t <==> th.owned == Some(k)) && (slot.tid == t ==> slot.jbuf == th.kept)
  {
    Frozen(s, steps, t, a, b);
    RunInv(s, steps, b);
    var st := After(s, steps, b);
    assert Holds(st.slots, t, st.threads[t]);
  }

  lemma OwnedInRange(s: State, steps: seq<(nat, Action)>, t: nat, a: nat)
    requires Run(s, steps) && a <= |steps| && t in s.threads
    ensures var th := After(s, steps, a).threads[t]; th.owned.Some? ==> th.owned.value < SLOTS
  {
    RunInv(s, steps, a);
    var st := After(s, steps, a);
    assert Holds(st.slots, t, st.threads[t]);
  }

  /** The same for a search that takes time: slot `k` is read after `at[k]` steps, and all other threads
      go on in between. */
  lemma HandlerFindsOwnMeanwhile(s: State, steps: seq<(nat, Action)>, t: nat, at: seq<nat>, seen: seq<Slot>)
    requires Run(s, steps) && t in s.threads && |at| == |seen| == SLOTS
    requires forall k :: 0 <= k < SLOTS ==> at[0] <= at[k] <= |steps| && forall i :: at[0] <= i < at[k] ==> steps[i].0 != t
    requires forall k :: 0 <= k < SLOTS ==> seen[k] == After(s, steps, at[k]).slots[k]
    requires After(s, steps, at[0]).threads[t].pc == Rest
    ensures var th := After(s, steps, at[0]).threads[t];
      Search(seen, t, 0) == if th.owned.Some? then Some(th.kept) else None
  {
    var th := After(s, steps, at[0]).threads[t];
    OwnedInRange(s, steps, t, at[0]);
    forall k | 0 <= k < SLOTS
      ensures (seen[k].tid == t <==> th.owned == Some(k)) && (seen[k].tid == t ==> seen[k].jbuf == th.kept)
    {
      SlotRead(s, steps, t, at[0], at[k], k);
    }
    hide After, Step, Inv, Search;
    if th.owned.Some? {
      SearchAt(seen, t, 0, th.owned.value);
    } else {
      SearchNone(seen, t, 0);
    }
  }

  /** The step that finishes a protect call: an unnested one leaves the thread with its own buffer, a
      nested one with the buffer it had. */
  lemma ProtectFinishes(s: State, steps: seq<(nat, Action)>, n: nat)
    requires Run(s, steps) && n < |steps|
    requires var pc := After(s, steps, n).threads[steps[n].0].pc; pc.Checking? || pc.Storing?
    requires After(s, steps, n + 1).threads[steps[n].0].pc == Rest
    ensures var t, before, after := steps[n].0, After(s, steps, n), After(s, steps, n + 1);
      var th := before.threads[t];
      Search(after.slots, t, 0) == Some(if th.pc.Storing? then th.jbuf else th.kept)
  {
    hide Inv, Step, Search, Holds, Consistent;
    RunInv(s, steps, n);
    Finishes(After(s, steps, n), steps[n].0, steps[n].1);
    HandlerFindsOwn(s, steps, n + 1, steps[n].0);
  }

  lemma Finishes(s: State, t: nat, action: Action)
    requires Inv(s) && t in s.threads && (s.threads[t].pc.Checking? || s.threads[t].pc.Storing?)
    requires t in Step(s, t, action).threads && Step(s, t, action).threads[t].pc == Rest
    ensures var th, th' := s.threads[t], Step(s, t, action).threads[t];
      th'.owned.Some? && th'.kept == if th.pc.Storing? then th.jbuf else th.kept
  {
    assert Consistent(s.threads[t]) && Holds(s.slots, t, s.threads[t]);
  }

  // ----- the end of an unprotect call -----

  predicate Unprotecting(pc: Pc) {
    pc.Seeking? || pc.Clearing? || pc.Releasing?
  }

  /** The step that finishes an unprotect call: no slot has the thread's id any more, the one that had it
      is as free as at first, and all others are as before. */
  lemma UnprotectFinishes(s: State, steps: seq<(nat, Action)>, n: nat)
    requires Run(s, steps) && n < |steps|
    requires Unprotecting(After(s, steps, n).threads[steps[n].0].pc) && After(s, steps, n + 1).threads[steps[n].0].pc == Rest
    ensures var t, before, after := steps[n].0, After(s, steps, n).slots, After(s, steps, n + 1).slots;
      && Search(after, t, 0) == None && forall j :: 0 <= j < SLOTS ==>
        after[j].tid != t && after[j] == if before[j].tid == t then Slot(0, 0) else before[j]
  {
    hide Inv, Step, Search, Holds, Consistent;
    RunInv(s, steps, n);
    Frees(After(s, steps, n), steps[n].0, steps[n].1);
    SearchNone(After(s, steps, n + 1).slots, steps[n].0, 0);
  }

  lemma Frees(s: State, t: nat, action: Action)
    requires Inv(s) && t in s.threads && Unprotecting(s.threads[t].pc)
    requires t in Step(s, t, action).threads && Step(s, t, action).threads[t].pc == Rest
    ensures var slots := Step(s, t, action).slots; forall j :: 0 <= j < SLOTS ==>
      slots[j].tid != t && slots[j] == if s.slots[j].tid == t then Slot(0, 0) else s.slots[j]
  {
    assert Consistent(s.threads[t]) && Holds(s.slots, t, s.threads[t]);
  }

  // ----- what a history of calls leaves -----

  /** The buffer that a thread's calls up to now ask for: the one of its first protect call since the
      last unprotect, if there is any. It looks at the calls alone, never at a slot. */
  ghost function Wanted(s: State, steps: seq<(nat, Action)>, t: nat, n: nat): Option<nat>
    requires Run(s, steps) && n <= |steps| && t in s.threads
  {
    if n == 0 then None else
      var wanted, starts := Wanted(s, steps, t, n - 1), steps[n - 1].0 == t && After(s, steps, n - 1).threads[t].pc == Rest;
      if starts && steps[n - 1].1.Unprotect? then None
      else if starts && steps[n - 1].1.Protect? && wanted == None then Some(steps[n - 1].1.jbuf)
      else wanted
  }

  /** How far a thread is with what is wanted of it. */
  predicate OnItsWay(th: Thread, wanted: Option<nat>) {
    if th.pc == Rest then wanted == if th.owned.Some? then Some(th.kept) else None
    else if Unprotecting(th.pc) then wanted == None
    else wanted == if th.owned.Some? && !th.pc.Storing? then Some(th.kept) else Some(th.jbuf)
  }

  lemma {:induction false} KeepsGoing(s: State, steps: seq<(nat, Action)>, t: nat, n: nat)
    requires Run(s, steps) && n <= |steps| && t in s.threads
    ensures OnItsWay(After(s, steps, n).threads[t], Wanted(s, steps, t, n))
  {
    hide Inv, Step, Consistent, Holds, OnItsWay, After;
    if n == 0 {
      AtFirst(s, steps, t);
    } else {
      KeepsGoing(s, steps, t, n - 1);
      if steps[n - 1].0 == t {
        OwnStep(s, steps, t, n);
      } else {
        OthersStep(s, steps, t, n - 1);
      }
    }
  }

  lemma OwnStep(s: State, steps: seq<(nat, Action)>, t: nat, n: nat)
    requires Run(s, steps) && 0 < n <= |steps| && t in s.threads && steps[n - 1].0 == t
    requires OnItsWay(After(s, steps, n - 1).threads[t], Wanted(s, steps, t, n - 1))
    ensures OnItsWay(After(s, steps, n).threads[t], Wanted(s, steps, t, n))
  {
    hide Inv, Step, Consistent, Holds, OnItsWay, After, Wanted;
    RunInv(s, steps, n - 1);
    AfterNext(s, steps, n);
    WantedNext(s, steps, t, n);
    GoesOn(After(s, steps, n - 1), t, steps[n - 1].1, Wanted(s, steps, t, n - 1));
  }

  lemma AfterNext(s: State, steps: seq<(nat, Action)>, n: nat)
    requires Run(s, steps) && 0 < n <= |steps|
    ensures var before := After(s, steps, n - 1);
      steps[n - 1].0 in before.threads && After(s, steps, n) == Step(before, steps[n - 1].0, steps[n - 1].1)
  {
    hide Step;
    assert steps[n - 1].0 in After(s, steps, n - 1).threads.Keys;
  }

  lemma WantedNext(s: State, steps: seq<(nat, Action)>, t: nat, n: nat)
    requires Run(s, steps) && 0 < n <= |steps| && t in s.threads && steps[n - 1].0 == t
    ensures t in After(s, steps, n - 1).threads
    ensures var wanted, rests, action := Wanted(s, steps, t, n - 1), After(s, steps, n - 1).threads[t].pc == Rest, steps[n - 1].1;
      Wanted(s, steps, t, n) == if rests && action.Unprotect? then None
        else if rests && action.Protect? && wanted == None then Some(action.jbuf) else wanted
  {
    hide After, Step;
    assert t in After(s, steps, n - 1).threads.Keys;
  }

  lemma AtFirst(s: State, steps: seq<(nat, Action)>, t: nat)
    requires Run(s, steps) && t in s.threads
    ensures OnItsWay(After(s, steps, 0).threads[t], None)
  {
    assert After(s, steps, 0) == s;
  }

  lemma GoesOn(s: State, t: nat, action: Action, wanted: Option<nat>)
    requires Inv(s) && t in s.threads && OnItsWay(s.threads[t], wanted)
    ensures var th := Step(s, t, action).threads[t];
      OnItsWay(th,
        if s.threads[t].pc == Rest && action.Unprotect? then None
        else if s.threads[t].pc == Rest && action.Protect? && wanted == None then Some(action.jbuf)
        else wanted)
  {
    assert Consistent(s.threads[t]) && Holds(s.slots, t, s.threads[t]);
  }

  /** Between its calls, whatever the other threads do, a thread's search finds exactly what its calls
      ask for. */
  lemma CallsDecide(s: State, steps: seq<(nat, Action)>, n: nat, t: nat)
    requires Run(s, steps) && n <= |steps| && t in s.threads && After(s, steps, n).threads[t].pc == Rest
    ensures Search(After(s, steps, n).slots, t, 0) == Wanted(s, steps, t, n)
  {
    hide Search, After, Wanted;
    KeepsGoing(s, steps, t, n);
    HandlerFindsOwn(s, steps, n, t);
  }

  /** When every thread has come to the end of its unprotect calls, all slots are as at first. */
  lemma AllFreeAgain(s: State, steps: seq<(nat, Action)>, n: nat)
    requires Run(s, steps) && n <= |steps|
    requires forall t :: t in s.threads ==> After(s, steps, n).threads[t].pc == Rest && Wanted(s, steps, t, n) == None
    ensures After(s, steps, n).slots == s.slots
  {
    hide Step, Consistent, Search, Wanted;
    RunInv(s, steps, n);
    var st := After(s, steps, n);
    forall t | t in s.threads
      ensures forall j :: 0 <= j < SLOTS ==> st.slots[j].tid != t
    {
      KeepsGoing(s, steps, t, n);
      assert Holds(st.slots, t, st.threads[t]);
    }
    assert forall j :: 0 <= j < SLOTS ==> st.slots[j] == s.slots[j];
  }

  // ----- calls that end -----

  /** The next `k` steps, if no other thread takes one. */
  function Alone(s: State, t: nat, k: nat): (r: State)
    requires Shaped(s) && t in s.threads
    ensures Shaped(r) && r.threads.Keys == s.threads.Keys
    decreases k
  {
    hide Shaped;
    if k == 0 then s else
      var s' := Step(s, t, Go);
      assert t in s'.threads.Keys;
      Alone(s', t, k - 1)
  }

  predicate Free(slots: seq<Slot>) {
    exists j :: 0 <= j < |slots| && slots[j].tid == 0
  }

  predicate Seeks(th: Thread) {
    (th.pc.Checking? || th.pc.Looking? || th.pc.Swapping?) && th.owned == None
  }

  /** The thread needs a slot and there is none. */
  predicate Starved(s: State, t: nat)
    requires t in s.threads
  {
    Seeks(s.threads[t]) && !Free(s.slots)
  }

  /** An upper bound of the steps to the end of the call, with slot `f` free. */
  function ToGo(s: State, t: nat, f: nat): nat
    requires Shaped(s) && t in s.threads && f < SLOTS
  {
    match s.threads[t].pc
    case Rest => 0
    case Checking(j) => 2 * SLOTS - j + 4
    case Looking(j) => (if j <= f then f - j else SLOTS + f - j) + 3
    case Swapping(j) => if s.slots[j].tid == 0 then 2 else (if j <= f then f - j else SLOTS + f - j) + 3
    case Storing(j) => 1
    case Seeking(j) => SLOTS - j + 3
    case Clearing(j) => 2
    case Releasing(j) => 1
  }

  lemma ToGoBound(s: State, t: nat, f: nat)
    requires Shaped(s) && t in s.threads && f < SLOTS
    ensures ToGo(s, t, f) <= 516
  {
    assert InRange(s.threads[t].pc);
  }

  lemma Nearer(s: State, t: nat, f: nat)
    requires Inv(s) && t in s.threads && s.threads[t].pc != Rest && f < SLOTS
    requires Seeks(s.threads[t]) ==> s.slots[f].tid == 0
    ensures var s' := Step(s, t, Go);
      t in s'.threads && ToGo(s', t, f) < ToGo(s, t, f) && (Seeks(s'.threads[t]) ==> s'.slots[f].tid == 0)
  {
    assert Consistent(s.threads[t]) && Holds(s.slots, t, s.threads[t]);
  }

  lemma InvShaped(s: State, t: nat)
    requires Inv(s)
    ensures Shaped(s) && (t in s.threads ==> t in Step(s, t, Go).threads)
  {
  }

  lemma {:induction false} ArrivesAlone(s: State, t: nat, f: nat) returns (k: nat)
    requires Inv(s) && t in s.threads && f < SLOTS
    requires Seeks(s.threads[t]) ==> s.slots[f].tid == 0
    ensures k <= ToGo(s, t, f) && Alone(s, t, k).threads[t].pc == Rest
    decreases ToGo(s, t, f)
  {
    InvShaped(s, t);
    hide Inv, Step, ToGo, Seeks, Shaped, Alone;
    if s.threads[t].pc == Rest {
      k := 0;
      AloneSteps(s, t, k);
    } else {
      Nearer(s, t, f);
      StepInv(s, t, Go);
      k := ArrivesAlone(Step(s, t, Go), t, f);
      AloneSteps(s, t, k);
      k := k + 1;
    }
  }

  lemma AloneSteps(s: State, t: nat, k: nat)
    requires Shaped(s) && t in s.threads && t in Step(s, t, Go).threads
    ensures Alone(s, t, 0) == s && Alone(s, t, k + 1) == Alone(Step(s, t, Go), t, k)
  {
    hide Step, Shaped;
  }

  lemma {:induction false} StarvesAlone(s: State, t: nat, k: nat)
    requires Inv(s) && t in s.threads && Starved(s, t)
    ensures Alone(s, t, k).threads[t].pc != Rest
    decreases k
  {
    if k > 0 {
      StaysStarved(s, t);
      StepInv(s, t, Go);
      hide Step, Inv, Starved;
      StarvesAlone(Step(s, t, Go), t, k - 1);
    }
  }

  lemma StaysStarved(s: State, t: nat)
    requires Inv(s) && t in s.threads && Starved(s, t)
    ensures t in Step(s, t, Go).threads && Starved(Step(s, t, Go), t)
  {
    assert Holds(s.slots, t, s.threads[t]);
    forall j | 0 <= j < SLOTS
      ensures s.slots[j].tid != 0
    {
    }
  }

  /** At every moment of every run, a thread that is left alone comes to the end of its call, after at most
      516 steps, if and only if it does not look for a slot while all 256 belong to other threads. */
  lemma CallEnds(s: State, steps: seq<(nat, Action)>, n: nat, t: nat)
    requires Run(s, steps) && n <= |steps| && t in s.threads
    ensures var st := After(s, steps, n);
      && ((exists k :: Alone(st, t, k).threads[t].pc == Rest) <==> !Starved(st, t))
      && (!Starved(st, t) ==> exists k :: k <= 516 && Alone(st, t, k).threads[t].pc == Rest)
  {
    RunInv(s, steps, n);
    var st := After(s, steps, n);
    hide Inv, Step, Alone, After;
    if Starved(st, t) {
      forall k | Alone(st, t, k).threads[t].pc == Rest
        ensures false
      {
        StarvesAlone(st, t, k);
      }
    } else {
      var f := 0;
      if Free(st.slots) {
        f :| 0 <= f < |st.slots| && st.slots[f].tid == 0;
      }
      assert f < SLOTS && ToGo(st, t, f) <= 516 by {
        ToGoBound(st, t, f);
      }
      var k := ArrivesAlone(st, t, f);
    }
  }
}
