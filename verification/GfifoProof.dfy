/**
 What every interleaving of the gfifo step system keeps: the mutex discipline,
 the absence of lost wake-ups, and that the driver is a linearizable bounded
 queue.
 */
module GfifoProof {
  import opened Common
  import opened GfifoQueue
  import opened GfifoProtocol

  predicate Waits(req: Request) {
    req.Read? || req.Write?
  }

  predicate Enqueued(s: State, t: nat, req: Request) {
    (req.Read? && t in s.readWait) || (req.Write? && t in s.writeWait)
  }

  /** What holds where a task stands. */
  predicate PcOk(cap: nat, s: State, t: nat)
    requires t in s.tasks && |s.mem| == cap && s.len <= cap
  {
    match s.tasks[t].pc
    case Join(req) => Waits(req)
    case Test(req) => req.Poll? || Enqueued(s, t, req)
    case Park(req) => Enqueued(s, t, req) && !RequestNonblock(req) && MustWait(cap, s, req)
    case Sched(req) => Enqueued(s, t, req) && !RequestNonblock(req)
    case Relock(req) => Enqueued(s, t, req)
    case Copy(req) => Waits(req) && !MustWait(cap, s, req)
    case Fill(req, n, i) =>
      && req.Write? && s.len < cap && n == WriteCount(|req.data|, cap - s.len) && i <= n <= |req.data|
      && forall k :: 0 <= k < i ==> s.mem[s.len + k] == req.data[k]
    case Shift(req, got, i) =>
      req.Read? && 0 < s.len && |got| == ReadCount(req.size, s.len) && i + |got| <= s.len
    case Zero(req, i) => req.Clear? && i <= cap && forall k :: 0 <= k < i ==> s.mem[k] == 0
    case Wake(req, _) => Waits(req)
    case _ => true
  }

  /** From add_wait_queue to remove_wait_queue. */
  predicate OnQueue(pc: Pc) {
    !pc.Idle? && !pc.Lock? && !pc.Join? && Waits(pc.req)
  }

  /** A task is on a wait queue exactly while its call says so. */
  predicate QueueOk(s: State, t: nat)
    requires t in s.tasks
  {
    var pc := s.tasks[t].pc;
    && (t in s.readWait <==> OnQueue(pc) && pc.req.Read?)
    && (t in s.writeWait <==> OnQueue(pc) && pc.req.Write?)
  }

  predicate Asleep(s: State, t: nat)
    requires t in s.tasks
  {
    s.tasks[t].pc.Sched? && !s.tasks[t].running
  }

  /** The mutex owner has changed cur_len and is about to wake the other side. */
  predicate WakeDue(s: State, reader: bool) {
    && s.holder.Some? && s.holder.value in s.tasks
    && var pc := s.tasks[s.holder.value].pc; pc.Wake? && (reader ==> pc.req.Write?) && (!reader ==> pc.req.Read?)
  }

  /** A reader (or writer) may sleep: there is nothing for it to do, or its wake-up is due. */
  predicate Excused(cap: nat, s: State, reader: bool) {
    (if reader then s.len == 0 else s.len == cap) || WakeDue(s, reader)
  }

  predicate TaskOk(cap: nat, s: State, t: nat)
    requires t in s.tasks && |s.mem| == cap && s.len <= cap
  {
    && (Held(s.tasks[t].pc) <==> s.holder == Some(t))
    && PcOk(cap, s, t) && QueueOk(s, t)
    && (!s.tasks[t].running ==> s.tasks[t].pc.Park? || s.tasks[t].pc.Sched?)
    && (Asleep(s, t) ==> Excused(cap, s, s.tasks[t].pc.req.Read?))
  }

  ghost predicate Inv(cap: nat, s: State) {
    && |s.mem| == cap && s.len <= cap
    && (s.holder.Some? ==> s.holder.value in s.tasks)
    && forall t :: t in s.tasks ==> TaskOk(cap, s, t)
  }

  /** s' is a correct successor of s: the invariant holds and the event is one atomic transition. */
  ghost predicate Good(cap: nat, s: State, e: Event, s': State) {
    Inv(cap, s') && AtomicStep(cap, Abstract(s), e, Abstract(s'))
  }

  /** u is untouched by a step of t, except that a wake-up may have reached it. */
  predicate Undisturbed(s: State, s': State, u: nat)
    requires u in s.tasks && u in s'.tasks
  {
    && s'.tasks[u].pc == s.tasks[u].pc && (s.tasks[u].running ==> s'.tasks[u].running)
    && (u in s.readWait <==> u in s'.readWait) && (u in s.writeWait <==> u in s'.writeWait)
  }

  /** The step is one that t may take on the shared fields: t owns the mutex before and after,
      takes it, gives it up, or leaves mutex, memory and length alone. */
  predicate MutexRespected(s: State, s': State, t: nat) {
    || (s'.mem == s.mem && s'.len == s.len && s'.holder == s.holder)
    || (s.holder in {None, Some(t)} && s'.holder in {None, Some(t)})
  }

  lemma OtherTaskOk(cap: nat, s: State, s': State, t: nat, u: nat)
    requires |s.mem| == cap == |s'.mem| && s.len <= cap && s'.len <= cap
    requires u in s.tasks && u in s'.tasks && u != t && TaskOk(cap, s, u)
    requires Undisturbed(s, s', u) && MutexRespected(s, s', t)
    requires Asleep(s', u) ==> Excused(cap, s', s.tasks[u].pc.req.Read?)
    ensures TaskOk(cap, s', u)
  {
    if s.holder == Some(u) {
      assert s'.mem == s.mem && s'.len == s.len && s'.holder == s.holder;
    }
  }

  /** A step of t keeps the invariant when it leaves t well placed, disturbs nobody else and
      leaves no sleeper without an excuse. */
  lemma Framed(cap: nat, s: State, s': State, t: nat)
    requires Inv(cap, s) && t in s.tasks && s'.tasks.Keys == s.tasks.Keys
    requires |s'.mem| == cap && s'.len <= cap && TaskOk(cap, s', t)
    requires MutexRespected(s, s', t)
    requires forall u :: u in s.tasks && u != t ==> Undisturbed(s, s', u)
    requires forall u :: u in s.tasks && u != t && Asleep(s', u) ==> Excused(cap, s', s'.tasks[u].pc.req.Read?)
    ensures Inv(cap, s')
  {
    forall u | u in s.tasks && u != t ensures TaskOk(cap, s', u) {
      assert TaskOk(cap, s, u);
      OtherTaskOk(cap, s, s', t, u);
    }
  }

  /** Nobody but t moved. */
  predicate OnlyMoved(s: State, s': State, t: nat) {
    && t in s.tasks && s'.tasks.Keys == s.tasks.Keys
    && forall u :: u in s.tasks && u != t ==> s'.tasks[u].pc == s.tasks[u].pc
  }

  /** What the event says about t and about the queue. */
  predicate Shows(cap: nat, s: State, e: Event, s': State, t: nat)
    requires t in s.tasks && t in s'.tasks
  {
    var before, after := StatusOf(s.tasks[t].pc), StatusOf(s'.tasks[t].pc);
    match e
    case Silent => before == after && Pending(s') == Pending(s)
    case Call(u, req) => u == t && before == Free && after == Called(req) && Pending(s') == Pending(s)
    case Act(u, req, res) =>
      u == t && before == Called(req) && after == Decided(res) && Effect(cap, Pending(s), req, res, Pending(s'))
    case Return(u, res) => u == t && before == Decided(res) && after == Free && Pending(s') == Pending(s)
  }

  lemma ShowsAtomicStep(cap: nat, s: State, e: Event, s': State, t: nat)
    requires OnlyMoved(s, s', t) && Shows(cap, s, e, s', t)
    ensures AtomicStep(cap, Abstract(s), e, Abstract(s'))
  {
    assert Abstract(s').calls == Abstract(s).calls[t := StatusOf(s'.tasks[t].pc)];
    assert Abstract(s).calls[t] == StatusOf(s.tasks[t].pc);
  }

  predicate Sized(cap: nat, s: State) {
    |s.mem| == cap && s.len <= cap
  }

  /** A step of t, seen from t alone: t was and is well placed, only t's entries changed, no
      sleeper loses its excuse, and the event tells the truth. */
  ghost predicate LocalStep(cap: nat, s: State, e: Event, s': State, t: nat) {
    && t in s.tasks && t in s'.tasks && s'.tasks == s.tasks[t := s'.tasks[t]]
    && (forall u :: u != t ==> (u in s.readWait <==> u in s'.readWait) && (u in s.writeWait <==> u in s'.writeWait))
    && Sized(cap, s) && Sized(cap, s') && TaskOk(cap, s', t) && MutexRespected(s, s', t)
    && (Excused(cap, s, true) ==> Excused(cap, s', true))
    && (Excused(cap, s, false) ==> Excused(cap, s', false))
    && Shows(cap, s, e, s', t)
  }

  lemma LocalStepIsGood(cap: nat, s: State, e: Event, s': State, t: nat)
    requires Inv(cap, s) && LocalStep(cap, s, e, s', t)
    ensures Good(cap, s, e, s')
  {
    forall u | u in s.tasks && u != t && Asleep(s', u) ensures Excused(cap, s', s'.tasks[u].pc.req.Read?) {
      assert TaskOk(cap, s, u);
    }
    Framed(cap, s, s', t);
    ShowsAtomicStep(cap, s, e, s', t);
  }

  lemma LockStep(cap: nat, s: State, t: nat, req: Request)
    requires Sized(cap, s) && t in s.tasks && TaskOk(cap, s, t) && s.tasks[t].pc == Lock(req) && s.holder == None
    ensures StepLock(s, t, req).Some?
    ensures var r := StepLock(s, t, req).value; LocalStep(cap, s, r.1, r.0, t)
  {
  }

  lemma JoinStep(cap: nat, s: State, t: nat, fault: bool)
    requires Sized(cap, s) && t in s.tasks && TaskOk(cap, s, t) && s.tasks[t].pc.Join?
    ensures RunTask(cap, s, t, fault).Some?
    ensures var r := RunTask(cap, s, t, fault).value; LocalStep(cap, s, r.1, r.0, t)
  {
  }

  /** The condition decides the call at once: poll's answer, or no waiting for a nonblocking call. */
  lemma DecidedAtTest(cap: nat, s: State, t: nat, req: Request, res: Result)
    requires Sized(cap, s) && t in s.tasks && TaskOk(cap, s, t) && s.tasks[t].pc == Test(req)
    requires if req.Poll? then res == Mask(s.len != 0, s.len != cap)
             else MustWait(cap, s, req) && RequestNonblock(req) && res == Failed(EAGAIN)
    ensures LocalStep(cap, s, Act(t, req, res), At(s, t, Out(req, res)), t)
  {
    assert s.holder == Some(t);
  }

  /** The wait loop is over, or the task is about to sleep. */
  lemma PassedTest(cap: nat, s: State, t: nat, req: Request, pc: Pc, running: bool)
    requires Sized(cap, s) && t in s.tasks && TaskOk(cap, s, t) && s.tasks[t].pc == Test(req) && Waits(req)
    requires if MustWait(cap, s, req) then !RequestNonblock(req) && pc == Park(req) && !running
             else pc == Copy(req) && running == s.tasks[t].running
    ensures LocalStep(cap, s, Silent, s.(tasks := s.tasks[t := s.tasks[t].(pc := pc, running := running)]), t)
  {
    assert s.holder == Some(t);
  }

  lemma TestStep(cap: nat, s: State, t: nat, req: Request)
    requires Sized(cap, s) && t in s.tasks && TaskOk(cap, s, t) && s.tasks[t].pc == Test(req)
    ensures var r := StepTest(cap, s, t, req); LocalStep(cap, s, r.1, r.0, t)
  {
    if req.Poll? {
      DecidedAtTest(cap, s, t, req, Mask(s.len != 0, s.len != cap));
    } else if !MustWait(cap, s, req) {
      PassedTest(cap, s, t, req, Copy(req), s.tasks[t].running);
    } else if RequestNonblock(req) {
      DecidedAtTest(cap, s, t, req, Failed(EAGAIN));
    } else {
      PassedTest(cap, s, t, req, Park(req), false);
    }
  }

  lemma UnlockStep(cap: nat, s: State, t: nat, fault: bool)
    requires Sized(cap, s) && t in s.tasks && TaskOk(cap, s, t) && (s.tasks[t].pc.Park? || s.tasks[t].pc.Out?)
    ensures RunTask(cap, s, t, fault).Some?
    ensures var r := RunTask(cap, s, t, fault).value; LocalStep(cap, s, r.1, r.0, t)
  {
  }

  /** A signal ends the sleep and the call. */
  lemma SignalStep(cap: nat, s: State, t: nat, req: Request)
    requires Sized(cap, s) && t in s.tasks && TaskOk(cap, s, t) && s.tasks[t].pc == Sched(req)
    ensures var res := Failed(ERESTARTSYS);
      LocalStep(cap, s, Act(t, req, res),
                s.(tasks := s.tasks[t := s.tasks[t].(pc := Leave(req, res), running := true)]), t)
  {
    assert s.holder != Some(t);
  }

  /** A wake-up ends the sleep; the mutex is taken again next. */
  lemma WokenStep(cap: nat, s: State, t: nat, req: Request)
    requires Sized(cap, s) && t in s.tasks && TaskOk(cap, s, t) && s.tasks[t].pc == Sched(req) && s.tasks[t].running
    ensures LocalStep(cap, s, Silent, At(s, t, Relock(req)), t)
  {
    assert s.holder != Some(t);
  }

  lemma SchedStep(cap: nat, s: State, t: nat, req: Request)
    requires Sized(cap, s) && t in s.tasks && TaskOk(cap, s, t) && s.tasks[t].pc == Sched(req)
    requires s.tasks[t].running || s.tasks[t].pending
    ensures StepSched(s, t, req).Some?
    ensures var r := StepSched(s, t, req).value; LocalStep(cap, s, r.1, r.0, t)
  {
    if s.tasks[t].pending {
      SignalStep(cap, s, t, req);
    } else {
      WokenStep(cap, s, t, req);
    }
  }

  lemma RelockStep(cap: nat, s: State, t: nat, fault: bool)
    requires Sized(cap, s) && t in s.tasks && TaskOk(cap, s, t) && s.tasks[t].pc.Relock? && s.holder == None
    ensures RunTask(cap, s, t, fault).Some?
    ensures var r := RunTask(cap, s, t, fault).value; LocalStep(cap, s, r.1, r.0, t)
  {
  }

  lemma CopyStep(cap: nat, s: State, t: nat, req: Request, fault: bool)
    requires Sized(cap, s) && t in s.tasks && TaskOk(cap, s, t) && s.tasks[t].pc == Copy(req)
    ensures StepCopy(cap, s, t, req, fault).Some?
    ensures var r := StepCopy(cap, s, t, req, fault).value; LocalStep(cap, s, r.1, r.0, t)
  {
    if req.Read? {
      var n := ReadCount(req.size, s.len);
      assert s.mem[..n] + s.mem[..0] + s.mem[n..s.len] == s.mem[..s.len];
    }
  }

  /** A user copy that faults leaves what is pending as it was. */
  lemma FillFaults(cap: nat, s: State, t: nat, req: Request, n: nat, i: nat)
    requires Sized(cap, s) && t in s.tasks && TaskOk(cap, s, t) && s.tasks[t].pc == Fill(req, n, i) && i < n
    ensures var res := Failed(EFAULT);
      LocalStep(cap, s, Act(t, req, res), At(s, t, Out(req, res)), t)
  {
    assert s.holder == Some(t);
  }

  /** A byte of the user copy lands behind what is pending. */
  lemma FillByte(cap: nat, s: State, t: nat, req: Request, n: nat, i: nat)
    requires Sized(cap, s) && t in s.tasks && TaskOk(cap, s, t) && s.tasks[t].pc == Fill(req, n, i) && i < n
    ensures req.Write? && i < |req.data| && s.len + i < |s.mem|
    ensures LocalStep(cap, s, Silent, At(s.(mem := s.mem[s.len + i := req.data[i]]), t, Fill(req, n, i + 1)), t)
  {
    var mem := s.mem[s.len + i := req.data[i]];
    assert s.holder == Some(t);
    assert mem[..s.len] == s.mem[..s.len];
  }

  /** The finished user copy is appended to what is pending. */
  lemma FillDone(cap: nat, s: State, t: nat, req: Request, n: nat)
    requires Sized(cap, s) && t in s.tasks && TaskOk(cap, s, t) && s.tasks[t].pc == Fill(req, n, n)
    ensures LocalStep(cap, s, Act(t, req, Count(n)), At(s.(len := s.len + n), t, Wake(req, Count(n))), t)
  {
    assert s.holder == Some(t);
    assert s.mem[..s.len + n] == s.mem[..s.len] + req.data[..n];
  }

  /** A faulting or unfinished user copy only dirties bytes beyond cur_len. */
  lemma FillStep(cap: nat, s: State, t: nat, req: Request, n: nat, i: nat, fault: bool)
    requires Sized(cap, s) && t in s.tasks && TaskOk(cap, s, t) && s.tasks[t].pc == Fill(req, n, i)
    ensures StepFill(s, t, req, n, i, fault).Some?
    ensures var r := StepFill(s, t, req, n, i, fault).value; LocalStep(cap, s, r.1, r.0, t)
  {
    if i == n {
      FillDone(cap, s, t, req, n);
    } else if fault {
      FillFaults(cap, s, t, req, n, i);
    } else {
      FillByte(cap, s, t, req, n, i);
    }
  }

  /** Each byte moved down leaves the represented queue as it was: the forward copy never
      reads a byte it has already overwritten. */
  lemma ShiftKeepsPending(mem: seq<Byte>, len: nat, got: seq<Byte>, i: nat)
    requires len <= |mem| && i + |got| < len
    ensures var mem' := mem[i := mem[i + |got|]];
      got + mem[..i] + mem[i + |got|..len] == got + mem'[..i + 1] + mem'[i + 1 + |got|..len]
  {
    var mem' := mem[i := mem[i + |got|]];
    assert mem'[..i + 1] == mem[..i] + [mem[i + |got|]];
    assert mem[i + |got|..len] == [mem[i + |got|]] + mem[i + 1 + |got|..len];
    assert mem'[i + 1 + |got|..len] == mem[i + 1 + |got|..len];
  }

  lemma ShiftStep(cap: nat, s: State, t: nat, req: Request, got: seq<Byte>, i: nat)
    requires Sized(cap, s) && t in s.tasks && TaskOk(cap, s, t) && s.tasks[t].pc == Shift(req, got, i)
    ensures StepShift(s, t, req, got, i).Some?
    ensures var r := StepShift(s, t, req, got, i).value; LocalStep(cap, s, r.1, r.0, t)
  {
    if i + |got| < s.len {
      ShiftKeepsPending(s.mem, s.len, got, i);
    } else {
      var s' := StepShift(s, t, req, got, i).value.0;
      assert Pending(s) == got + s.mem[..i] + [] == got + Pending(s');
    }
  }

  lemma ZeroStep(cap: nat, s: State, t: nat, fault: bool)
    requires Sized(cap, s) && t in s.tasks && TaskOk(cap, s, t) && s.tasks[t].pc.Zero?
    ensures RunTask(cap, s, t, fault).Some?
    ensures var r := RunTask(cap, s, t, fault).value; LocalStep(cap, s, r.1, r.0, t)
  {
    if s.tasks[t].pc.i == cap {
      assert s.mem[..s.len] == Zeros(s.len);
    }
  }

  /** The wake-up reaches every sleeper of the other side, because each is still enqueued. */
  lemma WakeStep(cap: nat, s: State, t: nat, fault: bool)
    requires Inv(cap, s) && t in s.tasks && s.tasks[t].pc.Wake?
    ensures RunTask(cap, s, t, fault).Some?
    ensures var r := RunTask(cap, s, t, fault).value; Good(cap, s, r.1, r.0)
  {
    assert TaskOk(cap, s, t);
    var s' := RunTask(cap, s, t, fault).value.0;
    forall u | u in s.tasks && u != t && Asleep(s', u) ensures Excused(cap, s', s'.tasks[u].pc.req.Read?) {
      assert TaskOk(cap, s, u);
    }
    Framed(cap, s, s', t);
    ShowsAtomicStep(cap, s, Silent, s', t);
  }

  lemma LeaveStep(cap: nat, s: State, t: nat, fault: bool)
    requires Sized(cap, s) && t in s.tasks && TaskOk(cap, s, t) && s.tasks[t].pc.Leave?
    ensures RunTask(cap, s, t, fault).Some?
    ensures var r := RunTask(cap, s, t, fault).value; LocalStep(cap, s, r.1, r.0, t)
  {
  }

  lemma TaskStep(cap: nat, s: State, t: nat, fault: bool)
    requires Inv(cap, s) && t in s.tasks && !s.tasks[t].pc.Wake?
    requires RunTask(cap, s, t, fault).Some?
    ensures var r := RunTask(cap, s, t, fault).value; LocalStep(cap, s, r.1, r.0, t)
  {
    assert TaskOk(cap, s, t);
    match s.tasks[t].pc
    case Lock(req) => LockStep(cap, s, t, req);
    case Join(_) => JoinStep(cap, s, t, fault);
    case Test(req) => TestStep(cap, s, t, req);
    case Park(_) => UnlockStep(cap, s, t, fault);
    case Sched(req) => SchedStep(cap, s, t, req);
    case Relock(_) => RelockStep(cap, s, t, fault);
    case Copy(req) => CopyStep(cap, s, t, req, fault);
    case Fill(req, n, i) => FillStep(cap, s, t, req, n, i, fault);
    case Shift(req, got, i) => ShiftStep(cap, s, t, req, got, i);
    case Zero(_, _) => ZeroStep(cap, s, t, fault);
    case Out(_, _) => UnlockStep(cap, s, t, fault);
    case Leave(_, _) => LeaveStep(cap, s, t, fault);
  }

  lemma InvokeStep(cap: nat, s: State, t: nat, req: Request)
    requires Sized(cap, s) && t in s.tasks && TaskOk(cap, s, t) && s.tasks[t].pc == Idle
    ensures LocalStep(cap, s, Call(t, req), At(s, t, Lock(req)), t)
  {
    assert s.holder != Some(t);
  }

  /** Signals, stray wake-ups and signal handling change only the run state of one task. */
  lemma NudgeStep(cap: nat, s: State, t: nat, running: bool, pending: bool)
    requires Sized(cap, s) && t in s.tasks && TaskOk(cap, s, t) && (s.tasks[t].running ==> running)
    ensures LocalStep(cap, s, Silent, s.(tasks := s.tasks[t := Task(s.tasks[t].pc, running, pending)]), t)
  {
    var s' := s.(tasks := s.tasks[t := Task(s.tasks[t].pc, running, pending)]);
    SamePlaces(cap, s, s', t);
  }

  /** Position, memory and queues of all tasks stay. */
  predicate SamePositions(s: State, s': State) {
    && s' == s.(tasks := s'.tasks) && s'.tasks.Keys == s.tasks.Keys
    && forall u :: u in s.tasks ==> s'.tasks[u].pc == s.tasks[u].pc
  }

  lemma SamePending(s: State, s': State)
    requires SamePositions(s, s')
    ensures Pending(s') == Pending(s)
  {
  }

  lemma SamePc(cap: nat, s: State, s': State, t: nat)
    requires Sized(cap, s) && t in s.tasks && SamePositions(s, s') && PcOk(cap, s, t) && QueueOk(s, t)
    ensures PcOk(cap, s', t) && QueueOk(s', t)
  {
  }

  /** So does what is pending and what is due. */
  lemma SamePlaces(cap: nat, s: State, s': State, t: nat)
    requires Sized(cap, s) && t in s.tasks && t in s'.tasks && s'.tasks == s.tasks[t := s'.tasks[t]]
    requires s' == s.(tasks := s'.tasks) && s'.tasks[t].pc == s.tasks[t].pc && PcOk(cap, s, t) && QueueOk(s, t)
    ensures Pending(s') == Pending(s) && PcOk(cap, s', t) && QueueOk(s', t)
    ensures WakeDue(s', true) == WakeDue(s, true) && WakeDue(s', false) == WakeDue(s, false)
  {
    assert SamePositions(s, s');
    SamePending(s, s');
    SamePc(cap, s, s', t);
  }

  lemma EveryStepIsGood(cap: nat, s: State, a: Action)
    requires Inv(cap, s) && Next(cap, s, a).Some?
    ensures var r := Next(cap, s, a).value; Good(cap, s, r.1, r.0)
  {
    var r := Next(cap, s, a).value;
    if a.Run? && s.tasks[a.task].pc.Wake? {
      WakeStep(cap, s, a.task, a.fault);
    } else {
      if a.Run? {
        TaskStep(cap, s, a.task, a.fault);
      } else {
        var me := r.0.tasks[a.task];
        assert TaskOk(cap, s, a.task);
        if a.Invoke? {
          InvokeStep(cap, s, a.task, a.req);
        } else {
          NudgeStep(cap, s, a.task, me.running, me.pending);
        }
      }
      LocalStepIsGood(cap, s, r.1, r.0, a.task);
    }
  }

  lemma {:induction false} InvHolds(cap: nat, states: seq<State>, actions: seq<Action>, events: seq<Event>, i: nat)
    requires IsRun(cap, states, actions, events) && i <= |actions|
    ensures Inv(cap, states[i])
  {
    if i > 0 {
      InvHolds(cap, states, actions, events, i - 1);
      assert Next(cap, states[i - 1], actions[i - 1]) == Some((states[i], events[i - 1]));
      EveryStepIsGood(cap, states[i - 1], actions[i - 1]);
    }
  }

  function History(states: seq<State>): (r: seq<Atomic>) {
    seq(|states|, i requires 0 <= i < |states| => Abstract(states[i]))
  }

  /** Linearizability: the events of any interleaving are a run of the atomic queue. */
  lemma DriverIsLinearizable(cap: nat, states: seq<State>, actions: seq<Action>, events: seq<Event>)
    requires IsRun(cap, states, actions, events)
    ensures AtomicRun(cap, History(states), events)
  {
    var history := History(states);
    forall i | 0 <= i < |events| ensures AtomicStep(cap, history[i], events[i], history[i + 1]) {
      InvHolds(cap, states, actions, events, i);
      assert Next(cap, states[i], actions[i]) == Some((states[i + 1], events[i]));
      EveryStepIsGood(cap, states[i], actions[i]);
    }
  }

  /** In any run, the bytes accepted are the bytes delivered followed by the bytes in the
      device, and never more than `cap` bytes are in the device. */
  lemma DriverConservesBytes(cap: nat, states: seq<State>, actions: seq<Action>, events: seq<Event>)
    requires IsRun(cap, states, actions, events)
    ensures AcceptedBytes(events) == DeliveredBytes(events) + Pending(states[|actions|])
    ensures states[|actions|].len <= cap == |states[|actions|].mem|
    ensures states[|actions|].holder == None
            ==> AcceptedBytes(events) == DeliveredBytes(events) + states[|actions|].mem[..states[|actions|].len]
  {
    InvHolds(cap, states, actions, events, |actions|);
    DriverIsLinearizable(cap, states, actions, events);
    BytesAreConserved(cap, History(states), events);
  }

  /** No lost wake-up: with the mutex free, a sleeping reader means an empty device and a
      sleeping writer a full one; so never do both sides sleep. */
  lemma NoLostWakeup(cap: nat, states: seq<State>, actions: seq<Action>, events: seq<Event>)
    requires cap > 0 && IsRun(cap, states, actions, events)
    requires states[|actions|].holder == None
    ensures var s := states[|actions|];
      && (forall t :: t in s.tasks && Asleep(s, t) && s.tasks[t].pc.req.Read? ==> s.len == 0)
      && (forall t :: t in s.tasks && Asleep(s, t) && s.tasks[t].pc.req.Write? ==> s.len == cap)
      && (forall t, u :: t in s.tasks && u in s.tasks && Asleep(s, t) && Asleep(s, u)
                         ==> s.tasks[t].pc.req.Read? == s.tasks[u].pc.req.Read?)
  {
    InvHolds(cap, states, actions, events, |actions|);
    var s := states[|actions|];
    forall t | t in s.tasks && Asleep(s, t)
      ensures MustWait(cap, s, s.tasks[t].pc.req) && Waits(s.tasks[t].pc.req)
    {
      assert TaskOk(cap, s, t);
    }
  }

  predicate CanStep(cap: nat, s: State, t: nat)
    requires t in s.tasks
  {
    RunTask(cap, s, t, false).Some?
  }

  /** The owner of the mutex can always take its next step. */
  lemma OwnerProceeds(cap: nat, s: State, t: nat)
    requires Inv(cap, s) && s.holder == Some(t)
    ensures CanStep(cap, s, t)
  {
    assert TaskOk(cap, s, t);
    match s.tasks[t].pc
    case Copy(req) => CopyStep(cap, s, t, req, false);
    case Fill(req, n, i) => FillStep(cap, s, t, req, n, i, false);
    case Shift(req, got, i) => ShiftStep(cap, s, t, req, got, i);
    case _ =>
  }

  /** No deadlock: when no task can step, every call in progress is asleep on the same side
      of a device that is empty or full. */
  lemma StuckOnlyWhenBlocked(cap: nat, states: seq<State>, actions: seq<Action>, events: seq<Event>)
    requires cap > 0 && IsRun(cap, states, actions, events)
    requires forall t :: t in states[|actions|].tasks ==> !CanStep(cap, states[|actions|], t)
    ensures var s := states[|actions|];
      && s.holder == None
      && forall t :: t in s.tasks && s.tasks[t].pc != Idle ==>
           Asleep(s, t) && ((s.len == 0 && s.tasks[t].pc.req.Read?) || (s.len == cap && s.tasks[t].pc.req.Write?))
  {
    InvHolds(cap, states, actions, events, |actions|);
    var s := states[|actions|];
    if s.holder.Some? {
      OwnerProceeds(cap, s, s.holder.value);
      assert false;
    }
    forall t | t in s.tasks && s.tasks[t].pc != Idle
      ensures Asleep(s, t) && ((s.len == 0 && s.tasks[t].pc.req.Read?) || (s.len == cap && s.tasks[t].pc.req.Write?))
    {
      assert TaskOk(cap, s, t) && !CanStep(cap, s, t);
    }
  }
}
