/**
 What a call on the device comes to, in every interleaving: why calls fail, how
 much they move, and that they end.
 */
module GfifoOutcomes {
  import opened Common
  import opened GfifoQueue
  import opened GfifoProtocol
  import opened GfifoProof

  lemma FailureStep(cap: nat, s: State, a: Action, s': State, e: Event)
    requires Next(cap, s, a) == Some((s', e)) && e.Act? && e.res.Failed?
    ensures a.Run? && a.task == e.task && e.task in s.tasks
    ensures match e.res.errno
            case EFAULT => a.fault
            case ERESTARTSYS => s.tasks[e.task].pending
            case EAGAIN => RequestNonblock(e.req) && MustWait(cap, s, e.req)
  {
  }

  /** In every run a call fails for its own reason only: -EFAULT when its own user copy faults,
      -ERESTARTSYS when it has a signal, -EAGAIN when it may not wait and would have to. */
  lemma FailuresHaveCauses(cap: nat, states: seq<State>, actions: seq<Action>, events: seq<Event>, i: nat)
    requires IsRun(cap, states, actions, events) && i < |actions| && events[i].Act? && events[i].res.Failed?
    ensures var t, req := events[i].task, events[i].req;
      match events[i].res.errno
      case EFAULT => actions[i] == Run(t, true)
      case ERESTARTSYS => actions[i].Run? && actions[i].task == t && t in states[i].tasks && states[i].tasks[t].pending
      case EAGAIN => RequestNonblock(req) && MustWait(cap, states[i], req)
  {
    assert Next(cap, states[i], actions[i]) == Some((states[i + 1], events[i]));
    FailureStep(cap, states[i], actions[i], states[i + 1], events[i]);
  }

  /** And it does fail then: a user copy that faults with a byte to copy ends the call with -EFAULT. */
  lemma FaultsFail(cap: nat, states: seq<State>, actions: seq<Action>, events: seq<Event>, i: nat, t: nat)
    requires IsRun(cap, states, actions, events) && i < |actions| && actions[i] == Run(t, true) && t in states[i].tasks
    requires var pc := states[i].tasks[t].pc;
      || (pc.Copy? && pc.req.Read? && pc.req.size % 0x1_0000_0000 > 0)
      || (pc.Fill? && pc.i < pc.n)
    ensures events[i] == Act(t, states[i].tasks[t].pc.req, Failed(EFAULT))
  {
    InvHolds(cap, states, actions, events, i);
    assert TaskOk(cap, states[i], t);
    assert Next(cap, states[i], actions[i]) == Some((states[i + 1], events[i]));
  }

  /** n is all that is asked for in 32 bits, or all that there is. */
  predicate AsMuchAsPossible(n: nat, asked: nat, most: nat) {
    n <= asked % 0x1_0000_0000 && n <= most && (n == asked % 0x1_0000_0000 || n == most)
  }

  /** In every run a call that moves bytes moves as many as it can: a read what is asked for or all
      that is pending, from the front; a write what is offered or all the room, to the end. */
  lemma TransfersAreMaximal(cap: nat, states: seq<State>, actions: seq<Action>, events: seq<Event>, i: nat)
    requires IsRun(cap, states, actions, events) && i < |actions| && events[i].Act?
    ensures var q, q', req, res := Pending(states[i]), Pending(states[i + 1]), events[i].req, events[i].res;
      && (req.Read? && res.Bytes? ==> AsMuchAsPossible(|res.got|, req.size, |q|) && q != [] && q == res.got + q')
      && (req.Write? && res.Count? ==>
            && |q| < cap && AsMuchAsPossible(res.n, |req.data|, cap - |q|)
            && res.n <= |req.data| && q' == q + req.data[..res.n])
  {
    InvHolds(cap, states, actions, events, i);
    assert Next(cap, states[i], actions[i]) == Some((states[i + 1], events[i]));
    EveryStepIsGood(cap, states[i], actions[i]);
  }

  // A call past the wait loop, as long as its user copy does not fault.

  predicate Success(req: Request, res: Result) {
    (req.Read? && res.Bytes?) || (req.Write? && res.Count?)
  }

  predicate OnCourse(pc: Pc, req: Request) {
    match pc
    case Copy(r) => r == req
    case Fill(r, _, _) => r == req
    case Shift(r, _, _) => r == req
    case Wake(r, res) => r == req && Success(req, res)
    case Out(r, res) => r == req && Success(req, res)
    case Leave(r, res) => r == req && Success(req, res)
    case _ => false
  }

  /** A bound on the steps to the return, or to going to sleep and being woken. */
  function StepsLeft(cap: nat, pc: Pc): nat {
    match pc
    case Lock(_) => cap + 9
    case Join(_) => cap + 8
    case Relock(_) => cap + 7
    case Test(_) => cap + 6
    case Park(_) => 3
    case Sched(_) => 2
    case Zero(_, i) => if i <= cap then cap - i + 4 else 0
    case Copy(_) => cap + 5
    case Fill(_, n, i) => if i <= n then n - i + 4 else 0
    case Shift(_, _, i) => if i <= cap then cap - i + 4 else 0
    case Wake(_, _) => 3
    case Out(_, _) => 2
    case Leave(_, _) => 1
    case Idle => 0
  }

  lemma WaitAdvances(cap: nat, s: State, t: nat, fault: bool, s': State, e: Event)
    requires Sized(cap, s) && t in s.tasks && TaskOk(cap, s, t) && RunTask(cap, s, t, fault) == Some((s', e))
    requires var pc := s.tasks[t].pc; pc.Lock? || pc.Join? || pc.Test? || pc.Park? || pc.Sched? || pc.Relock?
    ensures t in s'.tasks
    ensures (s.tasks[t].pc.Sched? && s'.tasks[t].pc == Relock(s.tasks[t].pc.req))
            || StepsLeft(cap, s'.tasks[t].pc) < StepsLeft(cap, s.tasks[t].pc)
  {
  }

  lemma CopyAdvances(cap: nat, s: State, t: nat, fault: bool, s': State, e: Event)
    requires Sized(cap, s) && t in s.tasks && TaskOk(cap, s, t) && RunTask(cap, s, t, fault) == Some((s', e))
    requires var pc := s.tasks[t].pc; pc.Copy? || pc.Fill? || pc.Shift? || pc.Zero?
    ensures t in s'.tasks && StepsLeft(cap, s'.tasks[t].pc) < StepsLeft(cap, s.tasks[t].pc)
  {
  }

  /** Every step of a call takes it closer to its return, except that a sleeper that was woken goes
      back to look at the condition. */
  lemma OwnStepAdvances(cap: nat, s: State, t: nat, fault: bool, s': State, e: Event)
    requires Sized(cap, s) && t in s.tasks && TaskOk(cap, s, t) && RunTask(cap, s, t, fault) == Some((s', e))
    ensures t in s'.tasks
    ensures || (s.tasks[t].pc.Leave? && e == Return(t, s.tasks[t].pc.res))
            || (s.tasks[t].pc.Sched? && s'.tasks[t].pc == Relock(s.tasks[t].pc.req))
            || StepsLeft(cap, s'.tasks[t].pc) < StepsLeft(cap, s.tasks[t].pc)
  {
    var pc := s.tasks[t].pc;
    if pc.Copy? || pc.Fill? || pc.Shift? || pc.Zero? {
      CopyAdvances(cap, s, t, fault, s', e);
    } else if !pc.Wake? && !pc.Out? && !pc.Leave? {
      WaitAdvances(cap, s, t, fault, s', e);
    }
  }

  predicate Advances(cap: nat, s: State, a: Action, s': State, t: nat) {
    t in s.tasks && s.tasks[t].pc != Idle ==>
      && t in s'.tasks && s'.tasks[t].pc != Idle
      && StepsLeft(cap, s'.tasks[t].pc) + (if a.Run? && a.task == t then 1 else 0) <= StepsLeft(cap, s.tasks[t].pc)
  }

  lemma {:induction false} AdvancesOn(cap: nat, states: seq<State>, actions: seq<Action>, i: nat, j: nat, t: nat)
    requires i <= j <= |actions| < |states| && t in states[i].tasks && states[i].tasks[t].pc != Idle
    requires forall k :: i <= k < j ==> Advances(cap, states[k], actions[k], states[k + 1], t)
    ensures t in states[j].tasks && states[j].tasks[t].pc != Idle
    ensures OwnSteps(actions, t, i, j) + StepsLeft(cap, states[j].tasks[t].pc) <= StepsLeft(cap, states[i].tasks[t].pc)
    decreases j
  {
    if j > i {
      AdvancesOn(cap, states, actions, i, j - 1, t);
      assert Advances(cap, states[j - 1], actions[j - 1], states[j - 1 + 1], t);
    }
  }

  /** In every run a call returns or is asleep after at most cap + 9 steps of its own, counted from
      its invocation or from a wake-up, whatever the others do. */
  lemma CallsAreBounded(cap: nat, states: seq<State>, actions: seq<Action>, events: seq<Event>, i: nat, j: nat, t: nat)
    requires IsRun(cap, states, actions, events) && i <= j <= |actions|
    requires t in states[i].tasks && states[i].tasks[t].pc != Idle
    requires forall k :: i <= k < j ==>
      && !(events[k].Return? && events[k].task == t)
      && !(actions[k].Run? && actions[k].task == t && t in states[k].tasks && states[k].tasks[t].pc.Sched?)
    ensures OwnSteps(actions, t, i, j) <= StepsLeft(cap, states[i].tasks[t].pc) <= cap + 9
  {
    InvHolds(cap, states, actions, events, i);
    assert TaskOk(cap, states[i], t);
    forall k | i <= k < j ensures Advances(cap, states[k], actions[k], states[k + 1], t) {
      InvHolds(cap, states, actions, events, k);
      if t in states[k].tasks && states[k].tasks[t].pc != Idle {
        AdvanceStep(cap, states[k], actions[k], states[k + 1], events[k], t);
      }
    }
    AdvancesOn(cap, states, actions, i, j, t);
  }

  lemma AdvanceStep(cap: nat, s: State, a: Action, s': State, e: Event, t: nat)
    requires Inv(cap, s) && Next(cap, s, a) == Some((s', e)) && t in s.tasks && s.tasks[t].pc != Idle
    requires !(e.Return? && e.task == t) && !(a.Run? && a.task == t && s.tasks[t].pc.Sched?)
    ensures Advances(cap, s, a, s', t)
  {
    if a.Run? && a.task == t {
      assert TaskOk(cap, s, t);
      OwnStepAdvances(cap, s, t, a.fault, s', e);
    } else {
      OthersStep(cap, s, a, s', e, t);
    }
  }

  /** Its own steps bring it closer to a successful return. */
  lemma OwnStep(cap: nat, s: State, t: nat, s': State, e: Event, req: Request)
    requires Sized(cap, s) && t in s.tasks && TaskOk(cap, s, t) && OnCourse(s.tasks[t].pc, req) && Waits(req)
    requires RunTask(cap, s, t, false) == Some((s', e))
    ensures t in s'.tasks
    ensures if s.tasks[t].pc.Leave? then e == Return(t, s.tasks[t].pc.res)
            else OnCourse(s'.tasks[t].pc, req) && StepsLeft(cap, s'.tasks[t].pc) < StepsLeft(cap, s.tasks[t].pc)
  {
  }

  lemma WakeMovesNobody(cap: nat, s: State, u: nat, fault: bool, s': State, e: Event, t: nat)
    requires u in s.tasks && s.tasks[u].pc.Wake? && RunTask(cap, s, u, fault) == Some((s', e)) && t in s.tasks && t != u
    ensures t in s'.tasks && s'.tasks[t].pc == s.tasks[t].pc && s'.tasks[t].pending == s.tasks[t].pending && e == Silent
  {
  }

  lemma CopyMovesOne(cap: nat, s: State, u: nat, fault: bool, s': State, e: Event, t: nat)
    requires u in s.tasks && t in s.tasks && t != u && RunTask(cap, s, u, fault) == Some((s', e))
    requires var pc := s.tasks[u].pc; pc.Copy? || pc.Fill? || pc.Shift? || pc.Zero?
    ensures t in s'.tasks && s'.tasks[t] == s.tasks[t] && !e.Return?
  {
  }

  lemma RunMovesOne(cap: nat, s: State, u: nat, fault: bool, s': State, e: Event, t: nat)
    requires u in s.tasks && t in s.tasks && t != u && RunTask(cap, s, u, fault) == Some((s', e))
    requires !s.tasks[u].pc.Wake?
    ensures t in s'.tasks && s'.tasks[t] == s.tasks[t] && !(e.Return? && e.task == t)
  {
    var pc := s.tasks[u].pc;
    if pc.Copy? || pc.Fill? || pc.Shift? || pc.Zero? {
      CopyMovesOne(cap, s, u, fault, s', e, t);
    }
  }

  /** Nobody else moves it. */
  lemma OthersStep(cap: nat, s: State, a: Action, s': State, e: Event, t: nat)
    requires Next(cap, s, a) == Some((s', e)) && t in s.tasks && s.tasks[t].pc != Idle && !(a.Run? && a.task == t)
    ensures t in s'.tasks && s'.tasks[t].pc == s.tasks[t].pc && (s.tasks[t].pending ==> s'.tasks[t].pending)
    ensures !(e.Return? && e.task == t)
  {
    if a.Run? {
      if s.tasks[a.task].pc.Wake? {
        WakeMovesNobody(cap, s, a.task, a.fault, s', e, t);
      } else {
        RunMovesOne(cap, s, a.task, a.fault, s', e, t);
      }
    }
  }

  /** The steps that task t takes from action i up to action j. */
  function OwnSteps(actions: seq<Action>, t: nat, i: nat, j: nat): nat
    requires i <= j <= |actions|
  {
    if i == j then 0
    else OwnSteps(actions, t, i, j - 1) + if actions[j - 1].Run? && actions[j - 1].task == t then 1 else 0
  }

  predicate StaysOnCourse(cap: nat, s: State, a: Action, s': State, t: nat, req: Request) {
    t in s.tasks && OnCourse(s.tasks[t].pc, req) ==>
      && t in s'.tasks && OnCourse(s'.tasks[t].pc, req)
      && StepsLeft(cap, s'.tasks[t].pc) + (if a.Run? && a.task == t then 1 else 0) <= StepsLeft(cap, s.tasks[t].pc)
  }

  lemma {:induction false} CourseHeld(cap: nat, states: seq<State>, actions: seq<Action>, i: nat, j: nat, t: nat,
                                      req: Request)
    requires i <= j <= |actions| < |states| && t in states[i].tasks && states[i].tasks[t].pc == Copy(req)
    requires forall k :: i <= k < j ==> StaysOnCourse(cap, states[k], actions[k], states[k + 1], t, req)
    ensures t in states[j].tasks && OnCourse(states[j].tasks[t].pc, req)
    ensures OwnSteps(actions, t, i, j) + StepsLeft(cap, states[j].tasks[t].pc) <= cap + 5
    decreases j
  {
    if j > i {
      CourseHeld(cap, states, actions, i, j - 1, t, req);
      assert StaysOnCourse(cap, states[j - 1], actions[j - 1], states[j - 1 + 1], t, req);
    }
  }

  /** In every run a reader or writer that has left the wait loop, and whose own steps do not fault,
      stays on course; it takes at most cap + 5 steps of its own, whatever the others do, and
      returns bytes or a count. */
  lemma CallSucceeds(cap: nat, states: seq<State>, actions: seq<Action>, events: seq<Event>, i: nat, j: nat, t: nat)
    requires IsRun(cap, states, actions, events) && i <= j <= |actions|
    requires t in states[i].tasks && states[i].tasks[t].pc.Copy?
    requires forall k :: i <= k < j ==> actions[k] != Run(t, true) && !(events[k].Return? && events[k].task == t)
    ensures var req := states[i].tasks[t].pc.req;
      && Waits(req) && t in states[j].tasks && OnCourse(states[j].tasks[t].pc, req)
      && OwnSteps(actions, t, i, j) + StepsLeft(cap, states[j].tasks[t].pc) <= cap + 5
      && (j < |actions| && events[j].Return? && events[j].task == t ==> Success(req, events[j].res))
  {
    var req := states[i].tasks[t].pc.req;
    InvHolds(cap, states, actions, events, i);
    assert TaskOk(cap, states[i], t);
    forall k | i <= k < j ensures StaysOnCourse(cap, states[k], actions[k], states[k + 1], t, req) {
      InvHolds(cap, states, actions, events, k);
      if t in states[k].tasks && OnCourse(states[k].tasks[t].pc, req) {
        CourseStep(cap, states[k], actions[k], states[k + 1], events[k], t, req);
      }
    }
    CourseHeld(cap, states, actions, i, j, t, req);
    if j < |actions| && events[j].Return? && events[j].task == t {
      ReturnStep(cap, states[j], actions[j], states[j + 1], events[j], t);
    }
  }

  lemma CourseStep(cap: nat, s: State, a: Action, s': State, e: Event, t: nat, req: Request)
    requires Inv(cap, s) && Next(cap, s, a) == Some((s', e)) && a != Run(t, true) && !(e.Return? && e.task == t)
    requires t in s.tasks && OnCourse(s.tasks[t].pc, req) && Waits(req)
    ensures t in s'.tasks && OnCourse(s'.tasks[t].pc, req)
    ensures StepsLeft(cap, s'.tasks[t].pc) + (if a.Run? && a.task == t then 1 else 0) <= StepsLeft(cap, s.tasks[t].pc)
  {
    if a.Run? && a.task == t {
      assert TaskOk(cap, s, t) && a == Run(t, false);
      OwnStep(cap, s, t, s', e, req);
    } else {
      OthersStep(cap, s, a, s', e, t);
    }
  }

  /** A call returns what was decided. */
  lemma ReturnStep(cap: nat, s: State, a: Action, s': State, e: Event, t: nat)
    requires Next(cap, s, a) == Some((s', e)) && e.Return? && e.task == t
    ensures t in s.tasks && s.tasks[t].pc.Leave? && e.res == s.tasks[t].pc.res
  {
  }

  /** When a clear is done, every byte of the memory is zero, also those beyond what is pending. */
  lemma ClearClearsAll(cap: nat, states: seq<State>, actions: seq<Action>, events: seq<Event>, i: nat, t: nat)
    requires IsRun(cap, states, actions, events) && i < |actions|
    requires t in states[i].tasks && states[i].tasks[t].pc.Zero?
    requires t in states[i + 1].tasks && !states[i + 1].tasks[t].pc.Zero?
    ensures states[i + 1].mem == Zeros(cap)
  {
    InvHolds(cap, states, actions, events, i);
    assert TaskOk(cap, states[i], t);
    assert Next(cap, states[i], actions[i]) == Some((states[i + 1], events[i]));
    if !(actions[i].Run? && actions[i].task == t) {
      OthersStep(cap, states[i], actions[i], states[i + 1], events[i], t);
    }
  }

  // A sleeper that gets a signal.

  /** A signal or a wake-up from anywhere lets a sleeper go on. */
  lemma NudgeArrives(cap: nat, s: State, a: Action, s': State, e: Event, t: nat)
    requires Next(cap, s, a) == Some((s', e)) && (a == Signal(t) || a == Kick(t))
    ensures t in s'.tasks && s'.tasks[t].running && (a == Signal(t) ==> s'.tasks[t].pending)
    ensures s'.tasks[t].pc.Sched? ==> CanStep(cap, s', t)
  {
  }

  /** In every run a sleeper that has a signal can go on at any time, and its next step ends the call
      with -ERESTARTSYS. */
  lemma {:induction false} SignalEndsSleep(cap: nat, states: seq<State>, actions: seq<Action>, events: seq<Event>,
                                           i: nat, j: nat, t: nat)
    requires IsRun(cap, states, actions, events) && i <= j <= |actions|
    requires t in states[i].tasks && states[i].tasks[t].pc.Sched? && states[i].tasks[t].pending
    requires forall k :: i <= k < j ==> !(actions[k].Run? && actions[k].task == t)
    ensures var req := states[i].tasks[t].pc.req;
      && t in states[j].tasks && states[j].tasks[t].pc == Sched(req) && states[j].tasks[t].pending
      && CanStep(cap, states[j], t)
      && (j < |actions| && actions[j].Run? && actions[j].task == t ==> events[j] == Act(t, req, Failed(ERESTARTSYS)))
    decreases j
  {
    if j > i {
      SignalEndsSleep(cap, states, actions, events, i, j - 1, t);
      assert Next(cap, states[j - 1], actions[j - 1]) == Some((states[j], events[j - 1]));
      OthersStep(cap, states[j - 1], actions[j - 1], states[j], events[j - 1], t);
    }
    if j < |actions| {
      assert Next(cap, states[j], actions[j]) == Some((states[j + 1], events[j]));
    }
  }
}
