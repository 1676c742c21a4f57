/**
 The gfifo driver as a step system. Any number of tasks run read, write, ioctl
 and poll on one device; every statement that touches the device, a wait queue,
 the mutex or the run state of a task is a step of its own, and the byte copies
 advance one byte per step. Steps of different tasks interleave freely.
 */
module GfifoProtocol {
  import opened Common
  import opened GfifoQueue

  /** Where a task is. `Held` positions own the mutex. */
  datatype Pc =
    | Idle
    | Lock(req: Request)                             // first mutex_lock
    | Join(req: Request)                             // held: add_wait_queue
    | Test(req: Request)                             // held: condition of the wait loop, or poll's tests
    | Park(req: Request)                             // held: TASK_INTERRUPTIBLE is set, mutex_unlock is next
    | Sched(req: Request)                            // in schedule()
    | Relock(req: Request)                           // mutex_lock at the end of the wait loop
    | Copy(req: Request)                             // held: the wait loop is over
    | Fill(req: Request, n: nat, i: nat)             // held: copy_from_user has stored i of n bytes
    | Shift(req: Request, got: seq<Byte>, i: nat)    // held: memcpy has moved i bytes down
    | Zero(req: Request, i: nat)                     // held: memset has cleared i bytes
    | Wake(req: Request, res: Result)                // held: wake_up_interruptible
    | Out(req: Request, res: Result)                 // held: mutex_unlock at `out`
    | Leave(req: Request, res: Result)               // `out2`: remove_wait_queue and return

  /** `running` is false from TASK_INTERRUPTIBLE until a wake-up; `pending` is signal_pending. */
  datatype Task = Task(pc: Pc, running: bool, pending: bool)

  datatype State = State(mem: seq<Byte>, len: nat, holder: Option<nat>,
                         readWait: set<nat>, writeWait: set<nat>, tasks: map<nat, Task>)

  datatype Action =
    | Invoke(task: nat, req: Request)
    | Run(task: nat, fault: bool)    // next step of a task; `fault` is the outcome of the user copy
    | Signal(task: nat)              // a signal arrives: it also ends an interruptible sleep
    | Settle(task: nat)              // an idle task handles its signals
    | Kick(task: nat)                // a wake-up from anywhere else

  predicate Held(pc: Pc) {
    match pc
    case Join(_) | Test(_) | Park(_) | Copy(_) => true
    case Fill(_, _, _) | Shift(_, _, _) | Zero(_, _) | Wake(_, _) | Out(_, _) => true
    case _ => false
  }

  predicate Init(cap: nat, s: State) {
    && s.mem == Zeros(cap) && s.len == 0 && s.holder == None
    && s.readWait == {} && s.writeWait == {}
    && forall t :: t in s.tasks ==> s.tasks[t].pc == Idle && s.tasks[t].running
  }

  /** The same state with task t moved to pc. */
  function At(s: State, t: nat, pc: Pc): State
    requires t in s.tasks
  {
    s.(tasks := s.tasks[t := s.tasks[t].(pc := pc)])
  }

  function Released(s: State, t: nat, pc: Pc): State
    requires t in s.tasks
  {
    At(s, t, pc).(holder := None)
  }

  predicate MustWait(cap: nat, s: State, req: Request) {
    match req
    case Read(_, _) => s.len == 0
    case Write(_, _) => s.len == cap
    case _ => false
  }

  function RequestNonblock(req: Request): bool {
    match req
    case Read(_, nonblock) => nonblock
    case Write(_, nonblock) => nonblock
    case _ => true
  }

  /** wake_up_interruptible: every sleeper on the queue becomes runnable. */
  function WakeAll(tasks: map<nat, Task>, waiters: set<nat>): (r: map<nat, Task>)
    ensures r.Keys == tasks.Keys
    ensures forall t :: t in tasks ==> r[t] == if t in waiters then tasks[t].(running := true) else tasks[t]
  {
    map t | t in tasks :: if t in waiters then tasks[t].(running := true) else tasks[t]
  }

  function Next(cap: nat, s: State, a: Action): Option<(State, Event)> {
    if a.task !in s.tasks then None else
      var t := a.task;
      var me := s.tasks[t];
      match a
      case Invoke(_, req) =>
        if me.pc == Idle then Some((At(s, t, Lock(req)), Call(t, req))) else None
      case Run(_, fault) => RunTask(cap, s, t, fault)
      case Signal(_) => Some((s.(tasks := s.tasks[t := me.(running := true, pending := true)]), Silent))
      case Settle(_) =>
        if me.pc == Idle then Some((s.(tasks := s.tasks[t := me.(pending := false)]), Silent)) else None
      case Kick(_) => Some((s.(tasks := s.tasks[t := me.(running := true)]), Silent))
  }

  function RunTask(cap: nat, s: State, t: nat, fault: bool): Option<(State, Event)>
    requires t in s.tasks
  {
    match s.tasks[t].pc
    case Idle => None
    case Lock(req) => StepLock(s, t, req)
    case Join(req) =>
      Some((At(if req.Read? then s.(readWait := s.readWait + {t}) else s.(writeWait := s.writeWait + {t}),
               t, Test(req)), Silent))
    case Test(req) => Some(StepTest(cap, s, t, req))
    case Park(req) => Some((Released(s, t, Sched(req)), Silent))
    case Sched(req) => StepSched(s, t, req)
    case Relock(req) => if s.holder == None then Some((At(s, t, Test(req)).(holder := Some(t)), Silent)) else None
    case Copy(req) => StepCopy(cap, s, t, req, fault)
    case Fill(req, n, i) => StepFill(s, t, req, n, i, fault)
    case Shift(req, got, i) => StepShift(s, t, req, got, i)
    case Zero(req, i) =>
      if i < |s.mem| then Some((At(s.(mem := s.mem[i := 0]), t, Zero(req, i + 1)), Silent))
      else Some((At(s, t, Out(req, Ack)), Silent))
    case Wake(req, res) =>
      var woken := WakeAll(s.tasks, if req.Read? then s.writeWait else s.readWait);
      Some((At(s.(tasks := woken), t, Out(req, res)), Silent))
    case Out(req, res) => Some((Released(s, t, Leave(req, res)), Silent))
    case Leave(req, res) =>
      var s1 := s.(readWait := s.readWait - {t}, writeWait := s.writeWait - {t});
      Some((s1.(tasks := s1.tasks[t := Task(Idle, true, s1.tasks[t].pending)]), Return(t, res)))
  }

  function StepLock(s: State, t: nat, req: Request): Option<(State, Event)>
    requires t in s.tasks
  {
    if s.holder != None then None else
      var s1 := s.(holder := Some(t));
      match req
      case Clear => Some((At(s1, t, Zero(req, 0)), Act(t, req, Ack)))
      case Poll => Some((At(s1, t, Test(req)), Silent))
      case _ => Some((At(s1, t, Join(req)), Silent))
  }

  function StepTest(cap: nat, s: State, t: nat, req: Request): (State, Event)
    requires t in s.tasks
  {
    if req.Poll? then
      var res := Mask(s.len != 0, s.len != cap);
      (At(s, t, Out(req, res)), Act(t, req, res))
    else if !MustWait(cap, s, req) then (At(s, t, Copy(req)), Silent)
    else if RequestNonblock(req) then (At(s, t, Out(req, Failed(EAGAIN))), Act(t, req, Failed(EAGAIN)))
    else (s.(tasks := s.tasks[t := s.tasks[t].(pc := Park(req), running := false)]), Silent)
  }

  /** schedule() comes back once the task was woken or has a signal; the signal ends the call. */
  function StepSched(s: State, t: nat, req: Request): Option<(State, Event)>
    requires t in s.tasks
  {
    var me := s.tasks[t];
    if !me.running && !me.pending then None
    else if me.pending then
      var res := Failed(ERESTARTSYS);
      Some((s.(tasks := s.tasks[t := me.(pc := Leave(req, res), running := true)]), Act(t, req, res)))
    else Some((At(s, t, Relock(req)), Silent))
  }

  function StepCopy(cap: nat, s: State, t: nat, req: Request, fault: bool): Option<(State, Event)>
    requires t in s.tasks
  {
    match req
    case Read(size, _) =>
      var n := ReadCount(size, s.len);
      if fault && n > 0 then Some((At(s, t, Out(req, Failed(EFAULT))), Act(t, req, Failed(EFAULT))))
      else if n <= |s.mem| then Some((At(s, t, Shift(req, s.mem[..n], 0)), Silent))
      else None
    case Write(data, _) =>
      if s.len <= cap then Some((At(s, t, Fill(req, WriteCount(|data|, cap - s.len), 0)), Silent)) else None
    case _ => None
  }

  /** copy_from_user byte by byte: a fault may strike after any number of bytes. */
  function StepFill(s: State, t: nat, req: Request, n: nat, i: nat, fault: bool): Option<(State, Event)>
    requires t in s.tasks
  {
    if i < n then
      if fault then Some((At(s, t, Out(req, Failed(EFAULT))), Act(t, req, Failed(EFAULT))))
      else if req.Write? && i < |req.data| && s.len + i < |s.mem| then
        Some((At(s.(mem := s.mem[s.len + i := req.data[i]]), t, Fill(req, n, i + 1)), Silent))
      else None
    else Some((At(s.(len := s.len + n), t, Wake(req, Count(n))), Act(t, req, Count(n))))
  }

  /** The overlapping memcpy as a forward byte loop, then the update of cur_len. */
  function StepShift(s: State, t: nat, req: Request, got: seq<Byte>, i: nat): Option<(State, Event)>
    requires t in s.tasks
  {
    if i + |got| < s.len then
      if i + |got| < |s.mem| then
        Some((At(s.(mem := s.mem[i := s.mem[i + |got|]]), t, Shift(req, got, i + 1)), Silent))
      else None
    else if |got| <= s.len then
      Some((At(s.(len := s.len - |got|), t, Wake(req, Bytes(got))), Act(t, req, Bytes(got))))
    else None
  }

  // The queue and the calls that a driver state stands for.

  function Pending(s: State): (q: seq<Byte>) {
    if s.len > |s.mem| then [] else
      match s.holder
      case None => s.mem[..s.len]
      case Some(t) =>
        if t !in s.tasks then [] else
          match s.tasks[t].pc
          case Shift(_, got, i) =>
            if i + |got| <= s.len then got + s.mem[..i] + s.mem[i + |got|..s.len] else []
          case Zero(_, _) => Zeros(s.len)
          case _ => s.mem[..s.len]
  }

  function StatusOf(pc: Pc): Status {
    match pc
    case Idle => Free
    case Zero(_, _) => Decided(Ack)
    case Wake(_, res) => Decided(res)
    case Out(_, res) => Decided(res)
    case Leave(_, res) => Decided(res)
    case _ => Called(pc.req)
  }

  function Abstract(s: State): Atomic {
    Atomic(Pending(s), map t | t in s.tasks :: StatusOf(s.tasks[t].pc))
  }

  /** A run: states linked by actions, each step showing one event. */
  ghost predicate IsRun(cap: nat, states: seq<State>, actions: seq<Action>, events: seq<Event>) {
    && |states| == |actions| + 1 && |events| == |actions|
    && Init(cap, states[0])
    && forall i :: 0 <= i < |actions| ==> Next(cap, states[i], actions[i]) == Some((states[i + 1], events[i]))
  }
}
