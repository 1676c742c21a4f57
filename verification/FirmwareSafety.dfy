/** What FW_LOADED means, and what may happen to a load before it gets there. */
module FirmwareSafety {
  import opened Common
  import opened MemloaderCore
  import opened Firmware
  import opened FirmwareProof

  /** The bytes to load: the size cut to 32 bits, or nothing when that is a negative int. */
  lemma GoalExact(image: seq<Byte>)
    ensures var low := |image| % 0x1_0000_0000; Goal(image) == if low < 0x8000_0000 then low else 0
  {
  }

  /** The bytes to load are the whole image exactly when its size fits a signed 32-bit int. */
  lemma WholeImageExact(image: seq<Byte>)
    ensures Goal(image) == |image| <==> |image| < 0x8000_0000
  {
  }

  // One load, from entering FW_LOADING on.

  predicate UnderWay(s: State, t: nat) {
    s.holder == Some(t) && t in s.tasks && (InWindow(s.tasks[t]) || s.tasks[t].Commit?)
  }

  predicate AboutToEnter(s: State, t: nat) {
    s.holder == Some(t) && t in s.tasks && s.tasks[t] == Enter
  }

  /** Step k of the run begins a load of t, which is under way up to state i. */
  ghost predicate LoadSpan(states: seq<State>, actions: seq<Action>, k: nat, i: nat, t: nat) {
    && IsRun(states, actions) && k < i <= |actions|
    && AboutToEnter(states[k], t) && actions[k].Run? && actions[k].task == t
    && forall j :: k < j <= i ==> UnderWay(states[j], t)
  }

  /** Someone sets the state to FW_EMPTY or FW_DELETED. */
  predicate Stop(a: Action) {
    a.Cancel? || a.Delete?
  }

  /** A callback of t reads the block size for the second time. */
  predicate SecondRead(s: State, a: Action, t: nat) {
    a.Run? && a.task == t && t in s.tasks && s.tasks[t].Size?
  }

  /** What one action does to the load of t and to what its observer remembers. */
  predicate Recorded(s: State, a: Action, s': State, t: nat)
    requires t in s.tasks && t in s'.tasks
  {
    && s'.watch.mem0 == s.watch.mem0
    && s'.watch.cancelled == (s.watch.cancelled || (Stop(a) && InWindow(s.tasks[t])))
    && s'.watch.moved == (s.watch.moved || a.Move?) && s'.base == (if a.Move? then a.base else s.base)
    && s'.watch.torn == (if SecondRead(s, a, t) then s.blocksize == 0 else s.watch.torn)
    && (if a.Retune? then s'.blocksize == a.blocksize && s'.watch.odd == Note(s.watch.odd, a.blocksize)
        else s'.blocksize == s.blocksize && s'.watch.odd == s.watch.odd)
    && (s'.tasks[t].Size? ==> s.tasks[t].Size? || s.blocksize != 0)
    && (s.tasks[t].Commit? ==> s'.tasks[t].Commit?)
  }

  /** The observer begins anew. */
  predicate Entered(s: State, s': State) {
    && s'.watch.mem0 == s.mem && s'.base == s.base && s'.blocksize == s.blocksize
    && !s'.watch.cancelled && !s'.watch.moved && !s'.watch.torn && s'.watch.odd == Note(None, s.blocksize)
  }

  lemma PageRecorded(s: State, t: nat, job: Job, left: int, copied: nat, granted: bool, s': State)
    requires s' == StepPage(s, t, job, left, copied, granted)
    ensures s'.watch == s.watch.(broken := s'.watch.broken) && s'.base == s.base && s'.blocksize == s.blocksize
    ensures t in s'.tasks && !s'.tasks[t].Size?
  {
  }

  lemma CallbackRecorded(s: State, a: Action, s': State)
    requires a.Run? && a.task in s.tasks && StepCallback(s, a.task, a.granted) == Some(s')
    ensures a.task in s'.tasks && Recorded(s, a, s', a.task)
  {
    match s.tasks[a.task]
    case Page(job, left, copied) => PageRecorded(s, a.task, job, left, copied, a.granted, s');
    case _ =>
  }

  lemma OwnStepRecorded(s: State, a: Action, s': State)
    requires a.Run? && a.task in s.tasks && UnderWay(s, a.task) && Next(s, a) == Some(s') && UnderWay(s', a.task)
    ensures Recorded(s, a, s', a.task)
  {
    var pc := s.tasks[a.task];
    if pc.Write? || pc.Size? || pc.Copy? || pc.Page? {
      CallbackRecorded(s, a, s');
    }
  }

  /** A load that is under way was so before, or has just entered FW_LOADING. */
  lemma UnderWayBefore(s: State, t: nat, reply: Reply, granted: bool, s': State)
    requires t in s.tasks && Step(s, t, reply, granted) == Some(s') && UnderWay(s', t)
    requires Held(s.tasks[t]) <==> s.holder == Some(t)
    ensures UnderWay(s, t) || (AboutToEnter(s, t) && Entered(s, s'))
  {
  }

  lemma OthersRecorded(s: State, a: Action, s': State, t: nat)
    requires MutexOk(s) && UnderWay(s', t) && a.Run? && a.task in s.tasks && a.task != t && Next(s, a) == Some(s')
    ensures UnderWay(s, t) && Recorded(s, a, s', t)
  {
    assert Held(s.tasks[a.task]) <==> s.holder == Some(a.task);
    StepFramed(s, a.task, a.reply, a.granted);
    MutexKept(s, a.task, s');
  }

  lemma UnlockedRecorded(s: State, a: Action, s': State, t: nat)
    requires UnderWay(s', t) && !a.Run? && Next(s, a) == Some(s')
    ensures UnderWay(s, t) && Recorded(s, a, s', t)
  {
  }

  lemma UnderWayStep(s: State, a: Action, s': State, t: nat)
    requires MutexOk(s) && Next(s, a) == Some(s') && UnderWay(s', t)
    ensures || (UnderWay(s, t) && Recorded(s, a, s', t))
            || (AboutToEnter(s, t) && a.Run? && a.task == t && Entered(s, s'))
  {
    if !a.Run? {
      UnlockedRecorded(s, a, s', t);
    } else if a.task != t {
      OthersRecorded(s, a, s', t);
    } else {
      assert Held(s.tasks[t]) <==> s.holder == Some(t);
      UnderWayBefore(s, t, a.reply, a.granted, s');
      if UnderWay(s, t) {
        OwnStepRecorded(s, a, s');
      }
    }
  }

  /** A load that is under way began at an earlier step. */
  lemma {:induction false} LoadBegan(states: seq<State>, actions: seq<Action>, i: nat, t: nat) returns (k: nat)
    requires IsRun(states, actions) && i <= |actions| && UnderWay(states[i], t)
    ensures LoadSpan(states, actions, k, i, t)
  {
    InvHolds(states, actions, i - 1);
    UnderWayStep(states[i - 1], actions[i - 1], states[i], t);
    k := i - 1;
    if UnderWay(states[i - 1], t) {
      k := LoadBegan(states, actions, i - 1, t);
    }
  }

  // The actions of a load, and what its observer remembers of them.

  /** What the observer records, step by step, from entering FW_LOADING at step k up to state i. */
  predicate Trail(states: seq<State>, actions: seq<Action>, k: nat, i: nat, t: nat) {
    && k < i <= |actions| < |states| && Entered(states[k], states[k + 1])
    && (forall j :: k < j <= i ==> t in states[j].tasks)
    && (t in states[k + 1].tasks ==> !states[k + 1].tasks[t].Size?)
    && forall j :: k < j < i ==> OnTrail(states[j], actions[j], states[j + 1], t)
  }

  /** A callback that finds the block size zero is the last one. */
  predicate OnTrail(s: State, a: Action, s': State, t: nat) {
    t in s.tasks && t in s'.tasks && Recorded(s, a, s', t) && (s.tasks[t].Size? ==> !s.watch.torn)
  }

  lemma EnterStep(s: State, a: Action, s': State, t: nat)
    requires AboutToEnter(s, t) && a.Run? && a.task == t && Next(s, a) == Some(s')
    ensures Entered(s, s') && t in s'.tasks && !s'.tasks[t].Size?
  {
  }

  lemma TrailStep(s: State, a: Action, s': State, t: nat)
    requires Inv(s) && UnderWay(s, t) && UnderWay(s', t) && Next(s, a) == Some(s')
    ensures OnTrail(s, a, s', t)
  {
    UnderWayStep(s, a, s', t);
  }

  lemma SpanTrail(states: seq<State>, actions: seq<Action>, k: nat, i: nat, t: nat)
    requires LoadSpan(states, actions, k, i, t)
    ensures Trail(states, actions, k, i, t)
  {
    EnterStep(states[k], actions[k], states[k + 1], t);
    forall j | k < j < i ensures OnTrail(states[j], actions[j], states[j + 1], t) {
      InvHolds(states, actions, j);
      TrailStep(states[j], actions[j], states[j + 1], t);
    }
  }

  ghost predicate Moved(actions: seq<Action>, k: nat, i: nat)
    requires i <= |actions|
  {
    exists j :: k < j < i && actions[j].Move?
  }

  /** Someone stopped the load before its final state was read. */
  predicate StoppedAt(s: State, a: Action, t: nat) {
    Stop(a) && t in s.tasks && InWindow(s.tasks[t])
  }

  ghost predicate Stopped(states: seq<State>, actions: seq<Action>, k: nat, i: nat, t: nat)
    requires i <= |actions| < |states|
  {
    exists j :: k < j < i && StoppedAt(states[j], actions[j], t)
  }

  /** A callback of t finds the block size zero at its second read. */
  predicate TornAt(s: State, a: Action, t: nat) {
    SecondRead(s, a, t) && s.blocksize == 0
  }

  ghost predicate Torn(states: seq<State>, actions: seq<Action>, k: nat, i: nat, t: nat)
    requires i <= |actions| < |states|
  {
    exists j :: k < j < i && TornAt(states[j], actions[j], t)
  }

  /** Every block size in force was a non-negative multiple of the page size, or at least n. */
  ghost predicate WholePages(states: seq<State>, k: nat, i: nat, n: int)
    requires i < |states|
  {
    forall j :: k <= j <= i ==> Aligned(states[j].blocksize) || states[j].blocksize >= n
  }

  lemma MovedOneMore(actions: seq<Action>, k: nat, i: nat)
    requires k < i < |actions|
    ensures Moved(actions, k, i + 1) <==> Moved(actions, k, i) || actions[i].Move?
  {
    if actions[i].Move? {
      assert k < i < i + 1;
    }
  }

  /** Memory and load address: what the observer remembers is what happened. */
  lemma {:induction false} TrailMemory(states: seq<State>, actions: seq<Action>, k: nat, i: nat, t: nat)
    requires Trail(states, actions, k, i, t)
    ensures states[i].watch.mem0 == states[k].mem
    ensures states[i].watch.moved <==> Moved(actions, k, i)
    ensures !Moved(actions, k, i) ==> states[i].base == states[k].base
  {
    if i > k + 1 {
      TrailMemory(states, actions, k, i - 1, t);
      assert OnTrail(states[i - 1], actions[i - 1], states[i - 1 + 1], t);
      MovedOneMore(actions, k, i - 1);
    }
  }

  lemma StoppedOneMore(states: seq<State>, actions: seq<Action>, k: nat, i: nat, t: nat)
    requires k < i < |actions| < |states|
    ensures Stopped(states, actions, k, i + 1, t)
            <==> Stopped(states, actions, k, i, t) || StoppedAt(states[i], actions[i], t)
  {
    if StoppedAt(states[i], actions[i], t) {
      assert k < i < i + 1;
    }
  }

  lemma {:induction false} TrailStops(states: seq<State>, actions: seq<Action>, k: nat, i: nat, t: nat)
    requires Trail(states, actions, k, i, t)
    ensures states[i].watch.cancelled <==> Stopped(states, actions, k, i, t)
  {
    if i > k + 1 {
      TrailStops(states, actions, k, i - 1, t);
      assert OnTrail(states[i - 1], actions[i - 1], states[i - 1 + 1], t);
      StoppedOneMore(states, actions, k, i - 1, t);
    }
  }

  lemma TornOneMore(states: seq<State>, actions: seq<Action>, k: nat, i: nat, t: nat)
    requires k < i < |actions| < |states|
    ensures Torn(states, actions, k, i + 1, t)
            <==> Torn(states, actions, k, i, t) || TornAt(states[i], actions[i], t)
  {
    if TornAt(states[i], actions[i], t) {
      assert k < i < i + 1;
    }
  }

  lemma {:induction false} TrailTorn(states: seq<State>, actions: seq<Action>, k: nat, i: nat, t: nat)
    requires Trail(states, actions, k, i, t)
    ensures states[i].watch.torn <==> Torn(states, actions, k, i, t)
  {
    if i > k + 1 {
      TrailTorn(states, actions, k, i - 1, t);
      assert OnTrail(states[i - 1], actions[i - 1], states[i - 1 + 1], t);
      TornOneMore(states, actions, k, i - 1, t);
    }
  }

  ghost predicate Zeroed(actions: seq<Action>, k: nat, i: nat)
    requires i <= |actions|
  {
    exists j :: k < j < i && actions[j] == Retune(0)
  }

  lemma ZeroedOneMore(actions: seq<Action>, k: nat, i: nat)
    requires k < i < |actions|
    ensures Zeroed(actions, k, i + 1) <==> Zeroed(actions, k, i) || actions[i] == Retune(0)
  {
    if actions[i] == Retune(0) {
      assert k < i < i + 1;
    }
  }

  /** The block size is zero at a second read only if it was set to zero during the load. */
  lemma {:induction false} NeverZeroed(states: seq<State>, actions: seq<Action>, k: nat, i: nat, t: nat)
    requires Trail(states, actions, k, i, t) && !Zeroed(actions, k, i)
    ensures t in states[i].tasks && (states[i].tasks[t].Size? ==> states[i].blocksize != 0)
    ensures !Torn(states, actions, k, i, t)
  {
    if i > k + 1 {
      ZeroedOneMore(actions, k, i - 1);
      NeverZeroed(states, actions, k, i - 1, t);
      assert OnTrail(states[i - 1], actions[i - 1], states[i - 1 + 1], t);
      TornOneMore(states, actions, k, i - 1, t);
    }
  }

  /** The least odd block size that the observer noted was in force, and no smaller one was. */
  ghost predicate LeastOdd(states: seq<State>, k: nat, i: nat, odd: Option<int>)
    requires i < |states|
  {
    && (odd.Some? ==> exists j :: k <= j <= i && states[j].blocksize == odd.value && !Aligned(odd.value))
    && forall j :: k <= j <= i ==> Aligned(states[j].blocksize) || (odd.Some? && odd.value <= states[j].blocksize)
  }

  lemma LeastOddOneMore(states: seq<State>, k: nat, i: nat, odd: Option<int>)
    requires k <= i && i + 1 < |states| && LeastOdd(states, k, i, odd)
    ensures LeastOdd(states, k, i + 1, Note(odd, states[i + 1].blocksize))
  {
    if odd.Some? {
      var j :| k <= j <= i && states[j].blocksize == odd.value && !Aligned(odd.value);
      assert k <= j <= i + 1;
    }
    assert k <= i + 1 <= i + 1;
  }

  lemma NotedStays(odd: Option<int>, b: int)
    requires Aligned(b) || (odd.Some? && odd.value <= b)
    ensures Note(odd, b) == odd
  {
  }

  lemma LeastOddNoted(states: seq<State>, k: nat, i: nat, odd: Option<int>)
    requires k <= i < |states| && LeastOdd(states, k, i, odd)
    ensures Note(odd, states[i].blocksize) == odd
  {
    NotedStays(odd, states[i].blocksize);
  }

  lemma {:induction false} TrailOdd(states: seq<State>, actions: seq<Action>, k: nat, i: nat, t: nat)
    requires Trail(states, actions, k, i, t)
    ensures LeastOdd(states, k, i, states[i].watch.odd)
  {
    if i > k + 1 {
      TrailOdd(states, actions, k, i - 1, t);
      assert OnTrail(states[i - 1], actions[i - 1], states[i - 1 + 1], t);
      LeastOddNoted(states, k, i - 1, states[i - 1].watch.odd);
      LeastOddOneMore(states, k, i - 1, states[i - 1].watch.odd);
    } else {
      EnteredOdd(states, k, states[i].watch.odd);
    }
  }

  lemma EnteredOdd(states: seq<State>, k: nat, odd: Option<int>)
    requires k + 1 < |states| && states[k + 1].blocksize == states[k].blocksize
    requires odd == Note(None, states[k].blocksize)
    ensures LeastOdd(states, k, k + 1, odd)
  {
    if odd.Some? {
      assert k <= k <= k + 1 && states[k].blocksize == odd.value;
    }
  }

  /** Pages are copied whole exactly when the observer noted no odd block size below the total. */
  lemma WholePagesNoted(states: seq<State>, k: nat, i: nat, odd: Option<int>, n: int)
    requires i < |states| && LeastOdd(states, k, i, odd)
    ensures WholePages(states, k, i, n) <==> (odd.Some? ==> odd.value >= n)
  {
    if odd.Some? && odd.value < n {
      var j :| k <= j <= i && states[j].blocksize == odd.value && !Aligned(odd.value);
      assert !WholePages(states, k, i, n);
    }
  }

  // What FW_LOADED means.

  lemma CommitStep(s: State, a: Action, s': State)
    requires Inv(s) && Next(s, a) == Some(s') && s.fw != LOADED && s'.fw == LOADED
    ensures a.Run? && a.task in s.tasks && s.tasks[a.task].Commit? && UnderWay(s, a.task)
    ensures s' == At(s, a.task, Unlock(0)).(fw := LOADED)
  {
    assert a.Run? && a.task in s.tasks;
    assert Held(s.tasks[a.task]) <==> s.holder == Some(a.task);
  }

  lemma AtCommit(s: State, t: nat)
    requires Inv(s) && UnderWay(s, t) && s.tasks[t].Commit?
    ensures var job := s.tasks[t].job;
      && s.info == s.current <= Goal(job.image) && s.total == Int32(|job.image|) && !s.watch.cancelled
      && (s.current == Goal(job.image) <==> !s.watch.torn) && Holds(s, job, s.current)
  {
  }

  lemma StopsAtCommit(states: seq<State>, actions: seq<Action>, k: nat, i: nat, t: nat)
    requires LoadSpan(states, actions, k, i, t)
    ensures Stopped(states, actions, k, i, t)
            <==> exists j :: k < j < i && Stop(actions[j]) && !states[j].tasks[t].Commit?
  {
    forall j | k < j < i ensures StoppedAt(states[j], actions[j], t)
                                 <==> Stop(actions[j]) && !states[j].tasks[t].Commit? {
      assert UnderWay(states[j], t);
    }
  }

  /** Whenever a step moves the state to FW_LOADED, it is the lock owner's commit of a load that began
      at some step k. Nobody cancelled or deleted before its final state was read. The counts agree;
      they are the bytes to load if and only if no callback found the block size zero at its second
      read, so certainly if nobody set it to zero. If moreover nobody changed the load address, and
      for pages every block size in force was a non-negative multiple of the page size or no less
      than the total, then memory holds the counted bytes of the image, and every other byte is as
      it was at step k. */
  lemma LoadedMeansLoaded(states: seq<State>, actions: seq<Action>, i: nat) returns (k: nat, t: nat)
    requires IsRun(states, actions) && i < |actions|
    requires states[i].fw != LOADED && states[i + 1].fw == LOADED
    ensures LoadSpan(states, actions, k, i, t) && states[i].tasks[t].Commit?
    ensures actions[i].Run? && actions[i].task == t && states[i + 1].tasks[t] == Unlock(0)
    ensures forall j :: k < j < i && Stop(actions[j]) ==> states[j].tasks[t].Commit?
    ensures var s, image := states[i + 1], states[i].tasks[t].job.image;
      && s.info == s.current <= Goal(image)
      && (s.current == Goal(image) <==> !Torn(states, actions, k, i, t))
      && (!Zeroed(actions, k, i) ==> s.current == Goal(image))
    ensures var s, job := states[i + 1], states[i].tasks[t].job;
      !Moved(actions, k, i) && (job.src == Pages ==> WholePages(states, k, i, Int32(|job.image|)))
      ==> Loaded(states[k].mem, states[k].base, job.image, s.current, s.mem)
  {
    InvHolds(states, actions, i);
    CommitStep(states[i], actions[i], states[i + 1]);
    t := actions[i].task;
    k := LoadBegan(states, actions, i, t);
    AtCommit(states[i], t);
    SpanTrail(states, actions, k, i, t);
    TrailStops(states, actions, k, i, t);
    StopsAtCommit(states, actions, k, i, t);
    TrailTorn(states, actions, k, i, t);
    if !Zeroed(actions, k, i) {
      NeverZeroed(states, actions, k, i, t);
    }
    TrailMemory(states, actions, k, i, t);
    TrailOdd(states, actions, k, i, t);
    WholePagesNoted(states, k, i, states[i].watch.odd, states[i].total);
  }

  // Cancelling too late.

  /** A cancellation or deletion that comes when the final state has been read is lost. */
  lemma LostCancel(s: State, t: nat, a: Action, reply: Reply, granted: bool)
    requires Inv(s) && UnderWay(s, t) && s.tasks[t].Commit? && Stop(a)
    ensures Next(s, a).Some? && Next(s, a).value.fw in {EMPTY, DELETED} && !Next(s, a).value.watch.cancelled
    ensures var last := Next(Next(s, a).value, Run(t, reply, granted));
      last.Some? && last.value.fw == LOADED && last.value.tasks == s.tasks[t := Unlock(0)]
  {
    AtCommit(s, t);
  }

  lemma {:induction false} CommitStays(states: seq<State>, actions: seq<Action>, k: nat, j: nat, i: nat, t: nat)
    requires Trail(states, actions, k, i, t) && k < j <= i && states[j].tasks[t].Commit?
    ensures states[i].tasks[t].Commit?
  {
    if j < i {
      CommitStays(states, actions, k, j, i - 1, t);
      assert OnTrail(states[i - 1], actions[i - 1], states[i - 1 + 1], t);
    }
  }

  /** A load that someone cancels or deletes is committed all the same if and only if every
      cancellation comes after its final state was read. The next step of the owner then sets the
      state to FW_LOADED and returns 0, whatever the state is by then. */
  lemma CancelledTooLate(states: seq<State>, actions: seq<Action>, k: nat, j: nat, i: nat, t: nat)
    requires LoadSpan(states, actions, k, i, t) && k < j < i && Stop(actions[j])
    ensures states[i].tasks[t].Commit?
            <==> forall j' :: k < j' < i && Stop(actions[j']) ==> states[j'].tasks[t].Commit?
    ensures states[i].tasks[t].Commit? ==> forall reply, granted ::
              Next(states[i], Run(t, reply, granted)) == Some(At(states[i], t, Unlock(0)).(fw := LOADED))
  {
    SpanTrail(states, actions, k, i, t);
    if states[i].tasks[t].Commit? {
      InvHolds(states, actions, i);
      AtCommit(states[i], t);
      TrailStops(states, actions, k, i, t);
      StopsAtCommit(states, actions, k, i, t);
    } else if states[j].tasks[t].Commit? {
      CommitStays(states, actions, k, j, i, t);
    }
  }

  /** Under the lock, from entering FW_LOADING to reading the final state: the state is never
      FW_LOADED, the fallback case is never reached, and once cancelled the loader begins at most
      one more callback. */
  lemma WindowSafety(states: seq<State>, actions: seq<Action>, i: nat)
    requires IsRun(states, actions) && i <= |actions|
    ensures WindowOpen(states[i]) ==> states[i].fw in {LOADING, EMPTY, DELETED, FAILED}
    ensures forall t :: t in states[i].tasks ==> !states[i].tasks[t].Fallback?
    ensures WindowOpen(states[i]) && states[i].watch.cancelled ==> states[i].fw != LOADING
    ensures WindowOpen(states[i]) ==> states[i].watch.extraWrites <= 1
  {
    InvHolds(states, actions, i);
    forall t | t in states[i].tasks ensures !states[i].tasks[t].Fallback? {
      assert Held(states[i].tasks[t]) <==> states[i].holder == Some(t);
    }
  }

  /** The lock is held by exactly the task that is between mutex_lock and mutex_unlock. */
  lemma LockDiscipline(states: seq<State>, actions: seq<Action>, i: nat, t: nat, u: nat)
    requires IsRun(states, actions) && i <= |actions| && t in states[i].tasks && u in states[i].tasks
    ensures Held(states[i].tasks[t]) <==> states[i].holder == Some(t)
    ensures Held(states[i].tasks[t]) && Held(states[i].tasks[u]) ==> t == u
  {
    InvHolds(states, actions, i);
  }

  /** At every loop head the counts agree and do not exceed the total, and fewer than `blocksize`
      bytes have gone by since the last nap if the block size is positive and was not changed; that
      much of the image is in memory unless the load address was changed or pages were copied in
      odd sizes. */
  lemma LoopHead(states: seq<State>, actions: seq<Action>, i: nat, t: nat)
    requires IsRun(states, actions) && i <= |actions| && t in states[i].tasks && states[i].tasks[t].Head?
    ensures var s, job := states[i], states[i].tasks[t].job;
      && s.info == s.current == job.curr <= Goal(job.image) && (s.total >= 0 ==> s.current <= s.total)
      && (!s.watch.moved && (job.src == Pages ==> !Odd(s))
          ==> Loaded(s.watch.mem0, s.base, job.image, s.current, s.mem))
      && (!s.watch.retuned && s.blocksize > 0 ==> job.curr - job.prevDelay < s.blocksize)
  {
    InvHolds(states, actions, i);
    assert Held(states[i].tasks[t]) <==> states[i].holder == Some(t);
  }

  /** In every run a nap is taken exactly when a block or more has gone by since the last one. */
  lemma NapExact(states: seq<State>, actions: seq<Action>, i: nat, t: nat)
    requires IsRun(states, actions) && i < |actions| && actions[i].Run? && actions[i].task == t
    requires t in states[i].tasks && states[i].tasks[t].NapTest?
    ensures t in states[i + 1].tasks && states[i + 1].tasks[t].Head?
    ensures var job, next := states[i].tasks[t].job, states[i + 1].tasks[t].job;
      && next.curr == job.curr && next.prevDelay in {job.prevDelay, job.curr}
      && (job.curr > job.prevDelay ==>
            (next.prevDelay == job.curr <==> job.curr - job.prevDelay >= states[i].blocksize))
  {
    assert Next(states[i], actions[i]) == Some(states[i + 1]);
  }

  /** A loader leaves the pages only from the page source, and only after a block size below the
      total that was negative or no multiple of the page size. */
  lemma StrayOnlyOdd(states: seq<State>, actions: seq<Action>, i: nat, t: nat)
    requires IsRun(states, actions) && i <= |actions| && t in states[i].tasks && states[i].tasks[t].Stray?
    ensures Odd(states[i]) && states[i].tasks[t].job.src == Pages
  {
    InvHolds(states, actions, i);
    assert Held(states[i].tasks[t]) <==> states[i].holder == Some(t);
  }

  // The torn read exists: a load of any image can end in FW_LOADED without a byte written.

  /** One task runs alone for n steps. */
  function Go(s: State, t: nat, reply: Reply, n: nat): Option<State>
    decreases n
  {
    if n == 0 then Some(s) else
      match Next(s, Run(t, reply, true))
      case None => None
      case Some(s') => Go(s', t, reply, n - 1)
  }

  lemma GoOn(s: State, t: nat, reply: Reply, n: nat, s1: State, s2: State)
    requires Next(s, Run(t, reply, true)) == Some(s1) && Go(s1, t, reply, n) == Some(s2)
    ensures Go(s, t, reply, n + 1) == Some(s2)
  {
  }

  lemma {:induction false} GoTwice(s: State, t: nat, reply: Reply, m: nat, n: nat, s1: State, s2: State)
    requires Go(s, t, reply, m) == Some(s1) && Go(s1, t, reply, n) == Some(s2)
    ensures Go(s, t, reply, m + n) == Some(s2)
    decreases m
  {
    if m > 0 {
      var s' := Next(s, Run(t, reply, true)).value;
      GoTwice(s', t, reply, m - 1, n, s1, s2);
      GoOn(s, t, reply, m - 1 + n, s', s2);
    }
  }

  /** From the lock to the request. */
  lemma Opening(s: State, t: nat, reply: Reply) returns (s': State)
    requires t in s.tasks && s.tasks[t] == Lock && s.holder == None && s.fw == EMPTY
    ensures Go(s, t, reply, 3) == Some(s')
    ensures s'.tasks == s.tasks[t := Request] && s'.fw == LOADING && s'.mem == s.mem && s'.blocksize == s.blocksize
  {
    var run := Run(t, reply, true);
    var s1 := Next(s, run).value;
    var s2 := Next(s1, run).value;
    assert s2.tasks[t] == Enter;
    s' := Next(s2, run).value;
    assert Go(s2, t, reply, 1) == Some(s') by {
      assert Go(s', t, reply, 0) == Some(s');
    }
    GoOn(s1, t, reply, 1, s2, s');
    GoOn(s, t, reply, 2, s1, s');
    assert s'.tasks == s.tasks[t := Request];
  }

  /** From the request to the first callback. */
  lemma FirstCallback(s: State, t: nat, image: seq<Byte>) returns (s': State)
    requires t in s.tasks && s.tasks[t] == Request && s.fw == LOADING && Int32(|image|) > 0
    ensures Go(s, t, Found(Pages, image), 3) == Some(s')
    ensures s'.tasks == s.tasks[t := Write(Job(Pages, image, 0, 0))] && s'.fw == LOADING && s'.mem == s.mem
    ensures s'.current == s'.info == 0 && s'.total == Int32(|image|) && s'.blocksize == s.blocksize
  {
    var reply := Found(Pages, image);
    var run := Run(t, reply, true);
    var s1 := Next(s, run).value;
    assert s1.tasks[t] == Begin(Job(Pages, image, 0, 0)) && s1.total == Int32(|image|);
    var s2 := Next(s1, run).value;
    assert s2.tasks[t] == Head(Job(Pages, image, 0, 0), 0);
    s' := Next(s2, run).value;
    assert Go(s2, t, reply, 1) == Some(s') by {
      assert Go(s', t, reply, 0) == Some(s');
    }
    GoOn(s1, t, reply, 1, s2, s');
    GoOn(s, t, reply, 2, s1, s');
    assert s'.tasks == s.tasks[t := Write(Job(Pages, image, 0, 0))];
  }

  /** The second read finds zero: the callback copies nothing and the loop ends without an error. */
  lemma TornCallback(s: State, t: nat, reply: Reply) returns (s': State)
    requires t in s.tasks && s.tasks[t].Size? && s.tasks[t].job.src == Pages && s.fw == LOADING && s.blocksize == 0
    requires s.current < s.total && s.info == s.current
    ensures Go(s, t, reply, 3) == Some(s')
    ensures s'.tasks == s.tasks[t := Judge(s.tasks[t].job, 0)] && s'.fw == LOADING && s'.mem == s.mem
    ensures s'.current == s.current && s'.info == s.info
  {
    var run, job := Run(t, reply, true), s.tasks[t].job;
    var s1 := Next(s, run).value;
    assert s1.tasks[t] == Copy(job, 0);
    var s2 := Next(s1, run).value;
    assert s2.tasks[t] == Page(job, 0, 0);
    s' := Next(s2, run).value;
    assert Go(s2, t, reply, 1) == Some(s') by {
      assert Go(s', t, reply, 0) == Some(s');
    }
    GoOn(s1, t, reply, 1, s2, s');
    GoOn(s, t, reply, 2, s1, s');
    assert s'.tasks == s.tasks[t := Judge(job, 0)];
  }

  /** Equal counts and an undisturbed state are all that the rest of the loader asks for. */
  lemma CommitsAnyway(s: State, t: nat, reply: Reply) returns (s': State)
    requires t in s.tasks && s.tasks[t].Judge? && s.tasks[t].ret == 0 && s.fw == LOADING && s.info == s.current
    ensures Go(s, t, reply, 4) == Some(s')
    ensures s'.tasks == s.tasks[t := Unlock(0)] && s'.fw == LOADED && s'.mem == s.mem && s'.current == s.current
  {
    var run, job := Run(t, reply, true), s.tasks[t].job;
    var s1 := Next(s, run).value;
    assert s1.tasks[t] == Finish(job) && s1.fw == LOADING;
    var s2 := Next(s1, run).value;
    assert s2.tasks[t] == Switch(job, 0);
    var s3 := Next(s2, run).value;
    assert s3.tasks[t] == Commit(job);
    s' := Next(s3, run).value;
    assert Go(s3, t, reply, 1) == Some(s') by {
      assert Go(s', t, reply, 0) == Some(s');
    }
    GoOn(s2, t, reply, 1, s3, s');
    GoOn(s1, t, reply, 2, s2, s');
    GoOn(s, t, reply, 3, s1, s');
    assert s'.tasks == s.tasks[t := Unlock(0)];
  }

  /** For every image of which any byte is to be loaded, from every idle device with a nonzero block
      size, there is an interleaving that ends in FW_LOADED and return value 0 with no byte of the
      image in memory: the block size is set to zero between the two reads of the first callback. */
  lemma TornReadLoadsNothing(s: State, t: nat, image: seq<Byte>) returns (first: State, last: State)
    requires Init(s) && t in s.tasks && Int32(|image|) > 0 && s.blocksize != 0
    ensures Go(At(s, t, Lock), t, Found(Pages, image), 7) == Some(first) && Next(s, Load(t)) == Some(At(s, t, Lock))
    ensures Next(first, Retune(0)).Some?
    ensures Go(Next(first, Retune(0)).value, t, Found(Pages, image), 7) == Some(last)
    ensures t in last.tasks && last.tasks[t] == Unlock(0) && last.fw == LOADED && last.mem == s.mem
  {
    var reply := Found(Pages, image);
    first := BetweenReads(At(s, t, Lock), t, image);
    last := CommitsNothing(Next(first, Retune(0)).value, t, reply);
  }

  /** The first callback has read a nonzero block size once. */
  lemma BetweenReads(s: State, t: nat, image: seq<Byte>) returns (s': State)
    requires t in s.tasks && s.tasks[t] == Lock && s.holder == None && s.fw == EMPTY
    requires Int32(|image|) > 0 && s.blocksize != 0
    ensures Go(s, t, Found(Pages, image), 7) == Some(s')
    ensures t in s'.tasks && s'.tasks[t] == Size(Job(Pages, image, 0, 0)) && s'.fw == LOADING && s'.mem == s.mem
    ensures s'.current == s'.info == 0 < s'.total
  {
    var reply := Found(Pages, image);
    var s1 := Opening(s, t, reply);
    var s2 := FirstCallback(s1, t, image);
    s' := FirstRead(s2, t, reply);
    GoTwice(s1, t, reply, 3, 1, s2, s');
    GoTwice(s, t, reply, 3, 4, s1, s');
  }

  lemma FirstRead(s: State, t: nat, reply: Reply) returns (s': State)
    requires t in s.tasks && s.tasks[t].Write? && s.blocksize != 0
    ensures Go(s, t, reply, 1) == Some(s') && s'.tasks == s.tasks[t := Size(s.tasks[t].job)]
    ensures s' == s.(tasks := s'.tasks, watch := s'.watch)
  {
    s' := Next(s, Run(t, reply, true)).value;
    assert Go(s', t, reply, 0) == Some(s');
  }

  lemma CommitsNothing(s: State, t: nat, reply: Reply) returns (s': State)
    requires t in s.tasks && s.tasks[t].Size? && s.tasks[t].job.src == Pages && s.fw == LOADING && s.blocksize == 0
    requires s.current < s.total && s.info == s.current
    ensures Go(s, t, reply, 7) == Some(s')
    ensures t in s'.tasks && s'.tasks[t] == Unlock(0) && s'.fw == LOADED && s'.mem == s.mem
  {
    var s1 := TornCallback(s, t, reply);
    s' := CommitsAnyway(s1, t, reply);
    GoTwice(s, t, reply, 3, 4, s1, s');
  }
}
