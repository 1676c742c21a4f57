/**
 The state of the firmware over whole runs: who changes it and from what, and
 what a load makes of the state that it finds.
 */
module FirmwareStates {
  import opened Common
  import opened MemloaderCore
  import opened Firmware
  import opened FirmwareProof
  import opened FirmwareSafety

  /** Where a task stands. */
  function PcOf(s: State, t: nat): Pc {
    if t in s.tasks then s.tasks[t] else Idle
  }

  function OwnerPc(s: State): Pc {
    if s.holder.Some? then PcOf(s, s.holder.value) else Idle
  }

  /** The state is FW_LOADING only while a load is under way, and what it may be when a load is
      about to enter FW_LOADING or to commit. */
  predicate StateOk(s: State) {
    var pc := OwnerPc(s);
    && (s.fw == LOADING ==> InWindow(pc) || pc.Commit?)
    && (pc == Enter ==> s.fw in {EMPTY, FAILED, DELETED})
    && (pc.Commit? ==> s.fw in {LOADING, EMPTY, DELETED})
  }

  /** What one action makes of the state. */
  predicate Changes(s: State, a: Action, s': State) {
    match a
    case Cancel => s'.fw == EMPTY
    case Delete => s'.fw == DELETED
    case Run(t, _, _) =>
      (match PcOf(s, t)
       case Enter => s.fw in {EMPTY, FAILED, DELETED} && s'.fw == LOADING
       case Refused(_) => s.fw in {LOADING, EMPTY, DELETED} && s'.fw == FAILED
       case Judge(_, ret) => if ret < 0 then s.fw in {LOADING, EMPTY, DELETED} && s'.fw == FAILED else s'.fw == s.fw
       case Spoil(_, _) => s.fw != LOADED && s'.fw == FAILED
       case Commit(_) => s.fw in {LOADING, EMPTY, DELETED} && s'.fw == LOADED
       case _ => s'.fw == s.fw)
    case _ => s'.fw == s.fw
  }

  lemma OwnerChanges(s: State, t: nat, reply: Reply, granted: bool, s': State)
    requires t in s.tasks && Held(s.tasks[t]) && OwnerOk(s, s.tasks[t]) && Step(s, t, reply, granted) == Some(s')
    requires s.holder == Some(t) && StateOk(s)
    ensures Changes(s, Run(t, reply, granted), s')
  {
    var pc := s.tasks[t];
    if pc.Write? || pc.Size? || pc.Copy? || pc.Page? {
      CallbackKeepsState(s, t, granted, s');
    }
  }

  lemma CallbackKeepsState(s: State, t: nat, granted: bool, s': State)
    requires t in s.tasks && StepCallback(s, t, granted) == Some(s')
    ensures s'.fw == s.fw && t in s'.tasks
    ensures Early(s'.tasks[t]) && !s'.tasks[t].Request?
  {
  }

  lemma CallbackStateOk(s: State, t: nat, granted: bool, s': State)
    requires t in s.tasks && StepCallback(s, t, granted) == Some(s') && s.holder == Some(t) && StateOk(s)
    ensures StateOk(s')
  {
    CallbackFramed(s, t, granted);
    CallbackKeepsState(s, t, granted, s');
  }

  lemma ClosingStateOk(s: State, t: nat, reply: Reply, granted: bool, s': State)
    requires t in s.tasks && OwnerOk(s, s.tasks[t]) && Step(s, t, reply, granted) == Some(s')
    requires s.holder == Some(t) && StateOk(s)
    requires var pc := s.tasks[t]; pc.Finish? || pc.Spoil? || pc.Switch? || pc.Commit? || pc.Fallback? || pc.Unlock?
    ensures StateOk(s')
  {
  }

  lemma OpeningStateOk(s: State, t: nat, reply: Reply, granted: bool, s': State)
    requires t in s.tasks && Held(s.tasks[t]) && OwnerOk(s, s.tasks[t]) && Step(s, t, reply, granted) == Some(s')
    requires s.holder == Some(t) && StateOk(s)
    requires var pc := s.tasks[t]; pc in {Check, Enter, Request} || pc.Refused? || pc.Begin?
    ensures StateOk(s')
  {
  }

  lemma LoopStateOk(s: State, t: nat, reply: Reply, granted: bool, s': State)
    requires t in s.tasks && OwnerOk(s, s.tasks[t]) && Step(s, t, reply, granted) == Some(s')
    requires s.holder == Some(t) && StateOk(s)
    requires var pc := s.tasks[t]; pc.Head? || pc.Nap? || pc.NapTest? || pc.Judge?
    ensures StateOk(s')
  {
  }

  lemma OwnerStateOk(s: State, t: nat, reply: Reply, granted: bool, s': State)
    requires t in s.tasks && Held(s.tasks[t]) && OwnerOk(s, s.tasks[t]) && Step(s, t, reply, granted) == Some(s')
    requires s.holder == Some(t) && StateOk(s)
    ensures StateOk(s')
  {
    var pc := s.tasks[t];
    if pc.Write? || pc.Size? || pc.Copy? || pc.Page? {
      CallbackStateOk(s, t, granted, s');
    } else if pc.Finish? || pc.Spoil? || pc.Switch? || pc.Commit? || pc.Fallback? || pc.Unlock? {
      ClosingStateOk(s, t, reply, granted, s');
    } else if pc.Head? || pc.Nap? || pc.NapTest? || pc.Judge? {
      LoopStateOk(s, t, reply, granted, s');
    } else {
      OpeningStateOk(s, t, reply, granted, s');
    }
  }

  lemma OtherTaskChanges(s: State, a: Action, s': State)
    requires MutexOk(s) && StateOk(s) && a.Run? && Next(s, a) == Some(s') && s.holder != Some(a.task)
    ensures StateOk(s') && Changes(s, a, s')
  {
    assert Held(s.tasks[a.task]) <==> s.holder == Some(a.task);
    StepFramed(s, a.task, a.reply, a.granted);
    MutexKept(s, a.task, s');
    if s'.holder != s.holder {
      assert s.tasks[a.task] == Lock && s'.tasks[a.task] == Check && s'.fw == s.fw;
    }
  }

  lemma UnlockedChanges(s: State, a: Action, s': State)
    requires StateOk(s) && !a.Run? && Next(s, a) == Some(s') && (s.holder.Some? ==> Held(OwnerPc(s)))
    ensures StateOk(s') && Changes(s, a, s')
  {
    assert OwnerPc(s') == OwnerPc(s);
  }

  lemma StateStep(s: State, a: Action, s': State)
    requires Inv(s) && StateOk(s) && Next(s, a) == Some(s')
    ensures StateOk(s') && Changes(s, a, s')
  {
    if !a.Run? {
      UnlockedChanges(s, a, s');
    } else if s.holder == Some(a.task) {
      OwnerChanges(s, a.task, a.reply, a.granted, s');
      OwnerStateOk(s, a.task, a.reply, a.granted, s');
    } else {
      OtherTaskChanges(s, a, s');
    }
  }

  lemma {:induction false} StateHolds(states: seq<State>, actions: seq<Action>, i: nat)
    requires IsRun(states, actions) && i <= |actions|
    ensures StateOk(states[i])
  {
    if i > 0 {
      StateHolds(states, actions, i - 1);
      InvHolds(states, actions, i - 1);
      StateStep(states[i - 1], actions[i - 1], states[i]);
    }
  }

  /** In every run: a cancel leaves FW_EMPTY and a delete FW_DELETED; otherwise only the lock owner
      changes the state, to FW_LOADING from one of EMPTY, FAILED and DELETED, to FW_LOADED at its
      commit, to FW_FAILED at its three failures. */
  lemma StateHistory(states: seq<State>, actions: seq<Action>, i: nat)
    requires IsRun(states, actions) && i < |actions|
    ensures Changes(states[i], actions[i], states[i + 1])
  {
    StateHolds(states, actions, i);
    InvHolds(states, actions, i);
    StateStep(states[i], actions[i], states[i + 1]);
  }

  /** What is loaded stays loaded until somebody cancels or deletes. */
  lemma OnlyStopsLeaveLoaded(states: seq<State>, actions: seq<Action>, i: nat)
    requires IsRun(states, actions) && i < |actions| && states[i].fw == LOADED && states[i + 1].fw != LOADED
    ensures Stop(actions[i])
  {
    StateHistory(states, actions, i);
    InvHolds(states, actions, i);
    if actions[i].Run? {
      NoFailureWhenLoaded(states[i], actions[i].task);
    }
  }

  lemma NoFailureWhenLoaded(s: State, t: nat)
    requires Inv(s) && s.fw == LOADED
    ensures !PcOf(s, t).Spoil? && !PcOf(s, t).Judge? && !PcOf(s, t).Refused?
  {
    if t in s.tasks {
      assert Held(s.tasks[t]) <==> s.holder == Some(t);
    }
  }

  /** No load ever finds FW_LOADING: that state does not outlive the lock. */
  lemma LoadingMeansUnderWay(states: seq<State>, actions: seq<Action>, i: nat)
    requires IsRun(states, actions) && i <= |actions| && states[i].fw == LOADING
    ensures states[i].holder.Some? && UnderWay(states[i], states[i].holder.value)
  {
    StateHolds(states, actions, i);
  }

  // From one step of a task to its next.

  predicate OwnStep(a: Action, t: nat) {
    a.Run? && a.task == t
  }

  /** Actions i and j are consecutive steps of t. */
  predicate NextOwn(actions: seq<Action>, i: nat, j: nat, t: nat) {
    && i < j < |actions| && OwnStep(actions[i], t) && OwnStep(actions[j], t)
    && forall k :: i < k < j ==> !OwnStep(actions[k], t)
  }

  predicate SameData(s: State, s': State) {
    s'.mem == s.mem && s'.current == s.current && s'.total == s.total && s'.info == s.info
  }

  predicate Rests(s: State, s': State, t: nat) {
    s.holder == Some(t) && t in s.tasks ==>
      s'.holder == Some(t) && t in s'.tasks && s'.tasks[t] == s.tasks[t] && SameData(s, s')
  }

  /** Under the lock nobody else moves the owner or touches counts and memory. */
  lemma OthersLetRest(s: State, a: Action, s': State, t: nat)
    requires MutexOk(s) && Next(s, a) == Some(s') && !OwnStep(a, t)
    ensures Rests(s, s', t)
  {
    if a.Run? && s.holder == Some(t) {
      assert Held(s.tasks[a.task]) <==> s.holder == Some(a.task);
      StepFramed(s, a.task, a.reply, a.granted);
    }
  }

  lemma {:induction false} RestsUntil(states: seq<State>, i: nat, j: nat, t: nat)
    requires i <= j < |states| && states[i].holder == Some(t) && t in states[i].tasks
    requires forall k :: i <= k < j ==> Rests(states[k], states[k + 1], t)
    ensures states[j].holder == Some(t) && t in states[j].tasks && states[j].tasks[t] == states[i].tasks[t]
    ensures SameData(states[i], states[j])
    decreases j
  {
    if j > i {
      RestsUntil(states, i, j - 1, t);
      assert Rests(states[j - 1], states[j - 1 + 1], t);
    }
  }

  /** The owner's next step starts from where its last one left it. */
  lemma NextFromHere(states: seq<State>, actions: seq<Action>, i: nat, j: nat, t: nat)
    requires IsRun(states, actions) && NextOwn(actions, i, j, t)
    requires states[i + 1].holder == Some(t) && t in states[i + 1].tasks
    ensures states[j].holder == Some(t) && t in states[j].tasks && states[j].tasks[t] == states[i + 1].tasks[t]
    ensures SameData(states[i + 1], states[j]) && Next(states[j], actions[j]) == Some(states[j + 1])
  {
    forall k | i + 1 <= k < j ensures Rests(states[k], states[k + 1], t) {
      InvHolds(states, actions, k);
      OthersLetRest(states[k], actions[k], states[k + 1], t);
    }
    RestsUntil(states, i + 1, j, t);
  }

  // What a load makes of the state that it finds.

  predicate Refusing(fw: FwState) {
    fw in {LOADING, LOADED, DELETED}
  }

  lemma CheckStep(s: State, t: nat, reply: Reply, granted: bool, s': State)
    requires MutexOk(s) && t in s.tasks && s.tasks[t] == Check && Next(s, Run(t, reply, granted)) == Some(s')
    ensures s'.holder == Some(t) && t in s'.tasks && SameData(s, s') && s'.fw == s.fw
    ensures s'.tasks[t] == if Refusing(s.fw) then Unlock(-EINVAL) else Enter
  {
    assert Held(s.tasks[t]) <==> s.holder == Some(t);
  }

  lemma UnlockStep(s: State, t: nat, reply: Reply, granted: bool, s': State)
    requires t in s.tasks && s.tasks[t].Unlock? && Next(s, Run(t, reply, granted)) == Some(s')
    ensures t in s'.tasks && s'.tasks[t] == Done(s.tasks[t].ret) && s'.holder == None
    ensures SameData(s, s') && s'.fw == s.fw
  {
  }

  lemma EnterStep(s: State, t: nat, reply: Reply, granted: bool, s': State)
    requires t in s.tasks && s.tasks[t] == Enter && Next(s, Run(t, reply, granted)) == Some(s')
    ensures t in s'.tasks && s'.tasks[t] == Request && s'.fw == LOADING && s'.holder == s.holder
    ensures s'.current == s'.total == 0 && s'.mem == s.mem && s'.info == s.info
  {
  }

  /** In every run, a load whose check finds FW_LOADED or FW_DELETED gives the lock back and returns
      -EINVAL with counts and memory untouched; any other enters FW_LOADING with counts of zero. */
  lemma EntryExact(states: seq<State>, actions: seq<Action>, i: nat, j: nat, t: nat)
    requires IsRun(states, actions) && NextOwn(actions, i, j, t) && t in states[i].tasks && states[i].tasks[t] == Check
    ensures states[i].fw != LOADING && t in states[j + 1].tasks
    ensures var s, s' := states[i], states[j + 1];
      if s.fw in {LOADED, DELETED}
      then s'.tasks[t] == Done(-EINVAL) && s'.holder == None && SameData(s, s') && s'.fw == states[j].fw
      else s'.tasks[t] == Request && s'.holder == Some(t) && s'.fw == LOADING && s'.current == s'.total == 0
           && s'.mem == s.mem
  {
    InvHolds(states, actions, i);
    StateHolds(states, actions, i);
    assert Held(states[i].tasks[t]) <==> states[i].holder == Some(t);
    CheckStep(states[i], t, actions[i].reply, actions[i].granted, states[i + 1]);
    NextFromHere(states, actions, i, j, t);
    if Refusing(states[i].fw) {
      UnlockStep(states[j], t, actions[j].reply, actions[j].granted, states[j + 1]);
    } else {
      EnterStep(states[j], t, actions[j].reply, actions[j].granted, states[j + 1]);
    }
  }

  /** What was decided is what is returned: the owner's next step gives the lock back and returns it. */
  lemma DecidedReturns(states: seq<State>, actions: seq<Action>, i: nat, j: nat, t: nat)
    requires IsRun(states, actions) && NextOwn(actions, i, j, t)
    requires t in states[i + 1].tasks && states[i + 1].tasks[t].Unlock?
    ensures t in states[j + 1].tasks && states[j + 1].tasks[t] == Done(states[i + 1].tasks[t].ret)
    ensures states[j + 1].holder == None && SameData(states[i + 1], states[j + 1])
  {
    InvHolds(states, actions, i + 1);
    assert Held(states[i + 1].tasks[t]) <==> states[i + 1].holder == Some(t);
    NextFromHere(states, actions, i, j, t);
    UnlockStep(states[j], t, actions[j].reply, actions[j].granted, states[j + 1]);
  }

  /** Then the call is over. */
  lemma CallIsOver(states: seq<State>, actions: seq<Action>, i: nat, t: nat)
    requires IsRun(states, actions) && i < |actions| && OwnStep(actions[i], t)
    requires t in states[i].tasks && states[i].tasks[t].Done?
    ensures states[i + 1] == At(states[i], t, Idle)
  {
    assert Next(states[i], actions[i]) == Some(states[i + 1]);
  }

  lemma RequestStep(s: State, t: nat, reply: Reply, granted: bool, s': State)
    requires t in s.tasks && s.tasks[t] == Request && reply.Missing? && Next(s, Run(t, reply, granted)) == Some(s')
    ensures t in s'.tasks && s'.tasks[t] == Refused(reply.err) && s'.holder == s.holder && SameData(s, s')
  {
  }

  lemma RefusedStep(s: State, t: nat, reply: Reply, granted: bool, s': State)
    requires t in s.tasks && s.tasks[t].Refused? && Next(s, Run(t, reply, granted)) == Some(s')
    ensures t in s'.tasks && s'.tasks[t] == Unlock(s.tasks[t].err) && s'.fw == FAILED && SameData(s, s')
  {
  }

  /** In every run, a load whose firmware is not found leaves FW_FAILED and returns the error of the
      request, with memory untouched. */
  lemma FailedRequestReturns(states: seq<State>, actions: seq<Action>, i: nat, j: nat, k: nat, t: nat)
    requires IsRun(states, actions) && NextOwn(actions, i, j, t) && NextOwn(actions, j, k, t)
    requires t in states[i].tasks && states[i].tasks[t] == Request && actions[i].reply.Missing?
    ensures t in states[k + 1].tasks && states[k + 1].tasks[t] == Done(actions[i].reply.err)
    ensures states[j + 1].fw == FAILED && states[k + 1].holder == None && SameData(states[i], states[k + 1])
  {
    InvHolds(states, actions, i);
    assert Held(states[i].tasks[t]) <==> states[i].holder == Some(t);
    RequestStep(states[i], t, actions[i].reply, actions[i].granted, states[i + 1]);
    NextFromHere(states, actions, i, j, t);
    RefusedStep(states[j], t, actions[j].reply, actions[j].granted, states[j + 1]);
    DecidedReturns(states, actions, j, k, t);
  }

  // The next load after a cancel or a delete.

  /** Nobody is in the middle of a load: the lock is free, or its owner has not looked at the state. */
  predicate Calm(s: State) {
    s.holder == None || OwnerPc(s) == Check
  }

  lemma CalmKeepsState(s: State, a: Action, s': State)
    requires MutexOk(s) && Calm(s) && Changes(s, a, s') && !Stop(a)
    ensures s'.fw == s.fw
  {
    if a.Run? && a.task in s.tasks {
      assert Held(s.tasks[a.task]) <==> s.holder == Some(a.task);
    }
  }

  lemma {:induction false} StateKept(states: seq<State>, i: nat, j: nat)
    requires i <= j < |states| && forall k :: i <= k < j ==> states[k + 1].fw == states[k].fw
    ensures states[j].fw == states[i].fw
    decreases j
  {
    if j > i {
      StateKept(states, i, j - 1);
      assert states[j - 1 + 1].fw == states[j - 1].fw;
    }
  }

  lemma StopIsFound(states: seq<State>, actions: seq<Action>, i: nat, j: nat)
    requires IsRun(states, actions) && i < j <= |actions| && Stop(actions[i])
    requires forall k :: i < k < j ==> !Stop(actions[k]) && Calm(states[k])
    ensures states[j].fw == if actions[i] == Cancel then EMPTY else DELETED
  {
    StateHistory(states, actions, i);
    forall k | i + 1 <= k < j ensures states[k + 1].fw == states[k].fw {
      StateHistory(states, actions, k);
      InvHolds(states, actions, k);
      CalmKeepsState(states[k], actions[k], states[k + 1]);
    }
    StateKept(states, i + 1, j);
  }

  /** In every run, the next load after a cancel enters FW_LOADING, and the next load after a delete
      is refused with -EINVAL. */
  lemma NextLoadAfterStop(states: seq<State>, actions: seq<Action>, i: nat, j: nat, k: nat, t: nat)
    requires IsRun(states, actions) && i < j && NextOwn(actions, j, k, t) && Stop(actions[i])
    requires forall m :: i < m < j ==> !Stop(actions[m]) && Calm(states[m])
    requires t in states[j].tasks && states[j].tasks[t] == Check
    ensures t in states[k + 1].tasks
    ensures actions[i] == Cancel ==> states[k + 1].tasks[t] == Request && states[k + 1].fw == LOADING
    ensures actions[i] == Delete ==> states[k + 1].tasks[t] == Done(-EINVAL) && SameData(states[j], states[k + 1])
  {
    StopIsFound(states, actions, i, j);
    EntryExact(states, actions, j, k, t);
  }
}
