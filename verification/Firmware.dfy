/**
 Firmware loading as a step system: any number of tasks ask for a load under
 serial_lock, while cancelling (state := FW_EMPTY), deleting (state :=
 FW_DELETED), changing the block size and changing the load address happen
 without the lock, between any two steps. The callbacks are those of the
 memloader; each read of the block size and each page copied is a step.
 */
module Firmware {
  import opened Common
  import opened MemloaderCore

  datatype FwState = EMPTY | LOADING | LOADED | FAILED | DELETED

  /** The conversion `(int)fw->size`. */
  function Int32(size: nat): int {
    var low := size % TWO_32;
    if low < 0x8000_0000 then low else low - TWO_32
  }

  /** Bytes that the load loop is going to write. */
  function Goal(image: seq<Byte>): (n: nat)
    ensures n <= |image|
  {
    if Int32(|image|) < 0 then 0 else Int32(|image|)
  }

  /** The firmware found, and the locals of fw_load_device_firmware from the load loop on. */
  datatype Job = Job(src: Source, image: seq<Byte>, curr: nat, prevDelay: nat)

  datatype Pc =
    | Idle
    | Lock                                    // mutex_lock
    | Check                                   // held: switch on the state
    | Enter                                   // held: state := FW_LOADING, counts := 0
    | Request                                 // held: request_firmware
    | Refused(err: int)                       // held: state := FW_FAILED after a failed request
    | Begin(job: Job)                         // held: start callback
    | Head(job: Job, ret: int)                // held: loop condition
    | Write(job: Job)                         // held: write callback, `if (ctx->blocksize)`
    | Size(job: Job)                          // held: `count = ctx->blocksize`
    | Copy(job: Job, count: int)              // held: the count is settled
    | Page(job: Job, left: int, copied: nat)  // held: the page loop
    | Stray(job: Job)                         // held: beyond the pages, behaviour undefined
    | Nap(job: Job, ret: int)                 // held: `ctx->blocksize > 0`
    | NapTest(job: Job, ret: int)             // held: `curr_count - prev_delay_count >= ctx->blocksize`
    | Judge(job: Job, ret: int)               // held: `if (ret < 0)` after the loop
    | Finish(job: Job)                        // held: end callback
    | Spoil(job: Job, ret: int)               // held: state := FW_FAILED after a failed end
    | Switch(job: Job, ret: int)              // held: read the final state
    | Commit(job: Job)                        // held: state := FW_LOADED
    | Fallback(ret: int)                      // held: the case that should never occur
    | Unlock(ret: int)                        // held: mutex_unlock
    | Done(ret: int)

  /** What an observer of the load under the lock remembers: the memory it began with; whether it
      was cancelled before its final state was read, and how many callbacks began after that;
      whether the block size was changed, the least block size in force that was negative or no
      multiple of the page size, and whether it was zero at the second of two reads of one callback;
      whether the load address was changed; how much a failing callback had copied. */
  datatype Watch = Watch(mem0: seq<Byte>, cancelled: bool, extraWrites: nat, retuned: bool, odd: Option<int>,
                         torn: bool, moved: bool, broken: Option<nat>)

  /** The least odd block size, with one more in force. */
  function Note(odd: Option<int>, b: int): Option<int> {
    if Aligned(b) || (odd.Some? && odd.value <= b) then odd else Some(b)
  }

  datatype State = State(fw: FwState, current: nat, total: int, info: nat, blocksize: int, base: nat, mem: seq<Byte>,
                         holder: Option<nat>, tasks: map<nat, Pc>, watch: Watch)

  /** What request_firmware returns. */
  datatype Reply = Missing(err: int) | Found(src: Source, image: seq<Byte>)

  datatype Action =
    | Load(task: nat)
    | Run(task: nat, reply: Reply, granted: bool)  // granted: whether a mapping asked for is granted
    | Cancel
    | Delete
    | Retune(blocksize: int)
    | Move(base: nat)

  predicate Held(pc: Pc) {
    !pc.Idle? && !pc.Lock? && !pc.Done?
  }

  /** Between entering FW_LOADING and the judgement of the loop. */
  predicate Early(pc: Pc) {
    match pc
    case Request | Refused(_) | Begin(_) | Head(_, _) | Write(_) | Size(_) | Copy(_, _) | Page(_, _, _) => true
    case Stray(_) | Nap(_, _) | NapTest(_, _) | Judge(_, _) => true
    case _ => false
  }

  /** Between entering FW_LOADING and reading the final state. */
  predicate InWindow(pc: Pc) {
    Early(pc) || pc.Finish? || pc.Spoil? || pc.Switch?
  }

  predicate Init(s: State) {
    && s.fw == EMPTY && s.holder == None
    && forall t :: t in s.tasks ==> s.tasks[t] == Idle
  }

  function At(s: State, t: nat, pc: Pc): State {
    s.(tasks := s.tasks[t := pc])
  }

  predicate WindowOpen(s: State) {
    s.holder.Some? && s.holder.value in s.tasks && InWindow(s.tasks[s.holder.value])
  }

  function Next(s: State, a: Action): Option<State> {
    match a
    case Load(t) => if t in s.tasks && s.tasks[t] == Idle then Some(At(s, t, Lock)) else None
    case Run(t, reply, granted) => if t in s.tasks then Step(s, t, reply, granted) else None
    case Cancel => Some(s.(fw := EMPTY, watch := s.watch.(cancelled := s.watch.cancelled || WindowOpen(s))))
    case Delete => Some(s.(fw := DELETED, watch := s.watch.(cancelled := s.watch.cancelled || WindowOpen(s))))
    case Retune(b) =>
      Some(s.(blocksize := b, watch := s.watch.(retuned := true, odd := Note(s.watch.odd, b))))
    case Move(base) => Some(s.(base := base, watch := s.watch.(moved := true)))
  }

  function Step(s: State, t: nat, reply: Reply, granted: bool): Option<State>
    requires t in s.tasks
  {
    match s.tasks[t]
    case Idle => None
    case Lock => if s.holder == None then Some(At(s, t, Check).(holder := Some(t))) else None
    case Check => Some(At(s, t, if s.fw in {LOADING, LOADED, DELETED} then Unlock(-EINVAL) else Enter))
    case Enter =>
      Some(At(s, t, Request).(fw := LOADING, current := 0, total := 0,
                              watch := Watch(s.mem, false, 0, false, Note(None, s.blocksize), false, false, None)))
    case Request =>
      (match reply
       case Missing(err) => if err != 0 then Some(At(s, t, Refused(err))) else None
       case Found(src, image) => Some(At(s, t, Begin(Job(src, image, 0, 0))).(total := Int32(|image|))))
    case Refused(err) => Some(At(s, t, Unlock(err)).(fw := FAILED))
    case Begin(job) => Some(At(s, t, Head(job, 0)).(info := 0, current := 0))
    case Head(job, ret) =>
      Some(At(s, t, if s.current < s.total && s.fw == LOADING then Write(job) else Judge(job, ret)))
    case Write(_) | Size(_) | Copy(_, _) | Page(_, _, _) => StepCallback(s, t, granted)
    case Stray(_) => None
    case Nap(job, ret) => Some(At(s, t, if s.blocksize > 0 then NapTest(job, ret) else Head(job, ret)))
    case NapTest(job, ret) =>
      Some(At(s, t, Head(if job.curr - job.prevDelay >= s.blocksize then job.(prevDelay := job.curr) else job, ret)))
    case Judge(job, ret) => Some(At(s, t, Finish(job)).(fw := if ret < 0 then FAILED else s.fw))
    case Finish(job) =>
      var ret := End(s.info, s.current);
      Some(At(s, t, if ret < 0 then Spoil(job, ret) else Switch(job, ret)))
    case Spoil(job, ret) => Some(At(s, t, Switch(job, ret)).(fw := FAILED))
    case Switch(job, ret) =>
      Some(At(s, t, match s.fw
                    case LOADING => Commit(job)
                    case EMPTY => Unlock(-EIO)
                    case DELETED => Unlock(-EIO)
                    case FAILED => Unlock(ret)
                    case LOADED => Fallback(ret)))
    case Commit(_) => Some(At(s, t, Unlock(0)).(fw := LOADED))
    case Fallback(ret) => Some(At(s, t, Unlock(ret)).(fw := EMPTY))
    case Unlock(ret) => Some(At(s, t, Done(ret)).(holder := None))
    case Done(_) => Some(At(s, t, Idle))
  }

  /** memloader_write, step by step. */
  function StepCallback(s: State, t: nat, granted: bool): Option<State>
    requires t in s.tasks
  {
    match s.tasks[t]
    case Write(job) =>
      var s1 := s.(watch := s.watch.(extraWrites := s.watch.extraWrites + if s.watch.cancelled then 1 else 0));
      Some(At(s1, t, if s.blocksize != 0 then Size(job) else Copy(job, s.total - s.current)))
    case Size(job) =>
      Some(At(s.(watch := s.watch.(torn := s.blocksize == 0)), t, Copy(job, Min(s.blocksize, s.total - s.current))))
    case Copy(job, count) =>
      (match job.src
       case Mapped =>
         if s.current > |job.image| || count > |job.image| - s.current then None else
           Some(AfterRange(s, t, job, LoadPiece(s.mem, s.base + s.current, job.image[s.current..], count, granted)))
       case Pages => Some(At(s, t, Page(job, count, 0)))
       case Absent => Some(Returned(s, t, job, -EINVAL, 0)))
    case Page(job, left, copied) => Some(StepPage(s, t, job, left, copied, granted))
    case _ => None
  }

  /** One round of the page loop. */
  function StepPage(s: State, t: nat, job: Job, left: int, copied: nat, granted: bool): State {
    if left == 0 then Returned(s, t, job, copied, copied)
    else if PageStart(s.info) >= |job.image| then At(s, t, Stray(job))
    else
      var n := PageCount(left);
      AfterPage(s, t, job, left, copied, LoadPiece(s.mem, s.base + s.info, PageBytes(job.image, s.info, n), n, granted))
  }

  /** The contiguous copy has left this memory and returned this count. */
  function AfterRange(s: State, t: nat, job: Job, copy: (seq<Byte>, int)): State {
    var (m, r) := copy;
    Returned(s.(mem := m, info := if r > 0 then s.info + r else s.info), t, job, r, 0)
  }

  /** The copy of one page has left this memory and returned this count. */
  function AfterPage(s: State, t: nat, job: Job, left: int, copied: nat, copy: (seq<Byte>, int)): State {
    var (m, r) := copy;
    if r > 0 then At(s.(mem := m, info := s.info + r), t, Page(job, left - r, copied + r))
    else Returned(s, t, job, -ENOMEM, copied)
  }

  /** The callback has returned `ret`, having copied `copied` bytes if it failed. */
  function Returned(s: State, t: nat, job: Job, ret: int, copied: nat): State {
    if ret < 0 then At(s.(watch := s.watch.(broken := Some(copied))), t, Judge(job, ret))
    else if ret == 0 then At(s, t, Judge(job, ret))
    else At(s.(current := s.current + ret), t, Nap(job.(curr := job.curr + ret), ret))
  }

  ghost predicate IsRun(states: seq<State>, actions: seq<Action>) {
    && |states| == |actions| + 1 && Init(states[0])
    && forall i :: 0 <= i < |actions| ==> Next(states[i], actions[i]) == Some(states[i + 1])
  }

  // What every interleaving keeps.

  /** Some block size in force was neither a non-negative multiple of the page size nor enough for
      everything that is to be loaded. */
  predicate Odd(s: State) {
    s.watch.odd.Some? && s.watch.odd.value < s.total
  }

  /** The block size in force has been noted. */
  predicate Noted(s: State) {
    Aligned(s.blocksize) || (s.watch.odd.Some? && s.watch.odd.value <= s.blocksize)
  }

  predicate OnBoundary(s: State, job: Job, n: int) {
    job.src == Pages && !Odd(s) ==> Aligned(n) || n == s.total
  }

  predicate Counts(s: State, job: Job) {
    s.total == Int32(|job.image|) && s.current == job.curr <= Goal(job.image)
  }

  /** The driver's count and the loader's counts agree, between two callbacks. */
  predicate InLoop(s: State, job: Job) {
    && Counts(s, job) && s.info == s.current && OnBoundary(s, job, s.current)
    && !s.watch.torn && s.watch.broken == None
  }

  predicate NapDue(s: State, job: Job) {
    !s.watch.retuned && s.blocksize > 0 ==> job.curr - job.prevDelay < s.blocksize
  }

  /** At most one callback began after a cancellation. */
  predicate Extra(s: State) {
    s.watch.extraWrites <= 1 && (s.watch.extraWrites == 1 ==> s.watch.cancelled)
  }

  /** A callback is under way. */
  predicate InCallback(s: State, job: Job) {
    Counts(s, job) && s.current < s.total && NapDue(s, job) && Extra(s) && s.watch.broken == None
  }

  /** If the load is going to be committed, it is complete exactly when no read was torn. */
  predicate Settled(s: State, job: Job) {
    s.fw == LOADING ==> (s.current == Goal(job.image) <==> !s.watch.torn)
  }

  predicate Sound(s: State, job: Job) {
    Counts(s, job) && s.info == s.current && Settled(s, job)
  }

  /** After the loop: a failed callback left the counts apart by what it had copied; otherwise
      they agree. */
  predicate Ended(s: State, job: Job) {
    && s.watch.extraWrites <= 1
    && (s.watch.broken.Some? ==> s.info == s.current + s.watch.broken.value)
    && (s.watch.broken.None? ==> Sound(s, job))
    && (s.fw == LOADING ==> s.watch.broken.None?)
    && (s.fw == FAILED ==> s.watch.broken.Some?)
  }

  /** Up to the load loop. */
  predicate OpeningOk(s: State, pc: Pc) {
    match pc
    case Request => s.watch.extraWrites == 0 && !s.watch.torn && s.watch.broken == None
    case Refused(err) => s.watch.extraWrites == 0 && err != 0
    case Begin(job) =>
      && s.total == Int32(|job.image|) && s.watch.extraWrites == 0
      && !s.watch.torn && s.watch.broken == None && job.curr == job.prevDelay == 0
    case _ => true
  }

  /** Between two callbacks. */
  predicate LoopOk(s: State, pc: Pc) {
    match pc
    case Head(job, ret) => InLoop(s, job) && NapDue(s, job) && ret >= 0 && Extra(s)
    case Nap(job, ret) => InLoop(s, job) && ret > 0 && Extra(s)
    case NapTest(job, ret) =>
      InLoop(s, job) && ret > 0 && Extra(s) && (!s.watch.retuned ==> s.blocksize > 0)
    case _ => true
  }

  /** In a callback. */
  predicate CallbackOk(s: State, pc: Pc) {
    match pc
    case Write(job) => InLoop(s, job) && InCallback(s, job) && s.watch.extraWrites == 0
    case Size(job) => InLoop(s, job) && InCallback(s, job)
    case Copy(job, count) =>
      && InCallback(s, job) && s.info == s.current && OnBoundary(s, job, s.current)
      && count <= s.total - s.current && (s.watch.torn <==> count == 0)
      && (count < 0 ==> Odd(s)) && (count > 0 ==> OnBoundary(s, job, s.current + count))
    case Page(job, left, copied) =>
      && InCallback(s, job) && job.src == Pages && s.info == s.current + copied
      && (left >= 0 ==> s.info + left <= s.total && OnBoundary(s, job, s.info + left))
      && (left < 0 ==> Odd(s)) && (left != 0 ==> Odd(s) || Aligned(s.info))
      && (s.watch.torn <==> left == copied == 0)
    case Stray(job) => Odd(s) && job.src == Pages && Extra(s)
    case _ => true
  }

  /** After the load loop. */
  predicate ClosingOk(s: State, pc: Pc) {
    match pc
    case Judge(job, ret) =>
      && Extra(s) && (ret < 0 <==> s.watch.broken.Some?)
      && (ret < 0 ==> s.info == s.current + s.watch.broken.value)
      && (ret >= 0 ==> Sound(s, job))
    case Finish(job) => Ended(s, job)
    case Spoil(job, ret) => Ended(s, job) && ret == -EIO && s.info != s.current
    case Switch(job, ret) => Ended(s, job) && ret == End(s.info, s.current)
    case Commit(job) =>
      && Counts(s, job) && s.info == s.current && !s.watch.cancelled
      && (s.current == Goal(job.image) <==> !s.watch.torn)
    case Fallback(_) => false
    case _ => true
  }

  /** The state of the firmware while the final state has not been read. */
  predicate WindowOk(s: State, pc: Pc) {
    && (InWindow(pc) ==> s.fw != LOADED && (s.watch.cancelled ==> s.fw != LOADING) && Noted(s))
    && (Early(pc) ==> s.fw != FAILED)
  }

  /** What the owner of the lock may rely on. */
  predicate OwnerOk(s: State, pc: Pc) {
    OpeningOk(s, pc) && LoopOk(s, pc) && CallbackOk(s, pc) && ClosingOk(s, pc) && WindowOk(s, pc)
  }

  // The bytes.

  /** Nothing that would spoil the bytes has happened: the load address stayed, and pages were
      copied whole. */
  predicate Clean(s: State, job: Job) {
    !s.watch.moved && (job.src == Pages ==> !Odd(s))
  }

  /** The first n bytes of the image are in memory, and nothing else has changed. */
  predicate Holds(s: State, job: Job, n: nat) {
    Clean(s, job) ==> Loaded(s.watch.mem0, s.base, job.image, n, s.mem)
  }

  /** The owner stands where the current count says how much is loaded. */
  predicate AtCount(s: State, pc: Pc) {
    || pc.Head? || pc.Write? || pc.Size? || pc.Copy? || pc.Nap? || pc.NapTest? || pc.Commit?
    || (pc.Judge? && pc.ret >= 0) || ((pc.Finish? || pc.Spoil? || pc.Switch?) && s.watch.broken == None)
  }

  /** What is in memory at each position of the owner. */
  predicate BytesOk(s: State, pc: Pc) {
    if pc.Request? || pc.Begin? then s.mem == s.watch.mem0
    else if pc.Page? then Holds(s, pc.job, s.info)
    else AtCount(s, pc) ==> Holds(s, pc.job, s.current)
  }

  ghost predicate MutexOk(s: State) {
    && (forall t :: t in s.tasks ==> (Held(s.tasks[t]) <==> s.holder == Some(t)))
    && (s.holder.Some? ==> s.holder.value in s.tasks)
  }

  ghost predicate Inv(s: State) {
    && MutexOk(s)
    && (s.holder.Some? ==> OwnerOk(s, s.tasks[s.holder.value]) && BytesOk(s, s.tasks[s.holder.value]))
  }
}
