/** What a load returns: exactly when a failed load still returns 0. */
module FirmwareReturns {
  import opened Common
  import opened MemloaderCore
  import opened Firmware
  import opened FirmwareProof

  /** The final switch: a committed load goes on to return 0, a cancelled one returns -EIO (-5), and a
      failed one returns 0 if and only if the failing callback had not copied anything. */
  lemma ReturnExact(states: seq<State>, actions: seq<Action>, i: nat, t: nat)
    requires IsRun(states, actions) && i < |actions| && actions[i].Run? && actions[i].task == t
    requires t in states[i].tasks && states[i].tasks[t].Switch?
    ensures t in states[i + 1].tasks
    ensures var s, pc := states[i], states[i + 1].tasks[t];
      && (s.fw == LOADING ==> pc.Commit?)
      && (s.fw in {EMPTY, DELETED} ==> pc == Unlock(-5))
      && (s.fw == FAILED ==> pc == Unlock(if s.watch.broken == Some(0) then 0 else -5))
      && s.fw != LOADED
  {
    InvHolds(states, actions, i);
    assert Held(states[i].tasks[t]) <==> states[i].holder == Some(t);
    assert Next(states[i], actions[i]) == Some(states[i + 1]);
  }

  /** In every run a load comes to return 0 in two ways only: it commits, or it has failed in a
      callback that had not copied anything. */
  lemma ZeroReturn(states: seq<State>, actions: seq<Action>, i: nat, t: nat)
    requires IsRun(states, actions) && i < |actions| && t in states[i].tasks && t in states[i + 1].tasks
    requires states[i].tasks[t] != Unlock(0) && states[i + 1].tasks[t] == Unlock(0)
    ensures || (states[i].tasks[t].Commit? && states[i + 1].fw == LOADED)
            || (states[i].tasks[t].Switch? && states[i + 1].fw == FAILED && states[i + 1].watch.broken == Some(0))
  {
    InvHolds(states, actions, i);
    ZeroStep(states[i], actions[i], states[i + 1], t);
  }

  /** The positions from which a step goes to a return of 0. */
  lemma ZeroFrom(s: State, t: nat, reply: Reply, granted: bool)
    requires t in s.tasks && Step(s, t, reply, granted).Some?
    requires s.tasks[t] != Unlock(0) && Step(s, t, reply, granted).value.tasks[t] == Unlock(0)
    ensures var pc, s' := s.tasks[t], Step(s, t, reply, granted).value;
      || (pc.Commit? && s'.fw == LOADED) || pc == Refused(0) || pc.Fallback?
      || (pc.Switch? && pc.ret == 0 && s.fw == s'.fw == FAILED && s'.watch == s.watch)
  {
  }

  lemma ZeroStep(s: State, a: Action, s': State, t: nat)
    requires Inv(s) && Next(s, a) == Some(s') && t in s.tasks && t in s'.tasks
    requires s.tasks[t] != Unlock(0) && s'.tasks[t] == Unlock(0)
    ensures || (s.tasks[t].Commit? && s'.fw == LOADED)
            || (s.tasks[t].Switch? && s'.fw == FAILED && s'.watch.broken == Some(0))
  {
    assert Held(s.tasks[t]) <==> s.holder == Some(t);
    if a.Run? && a.task != t {
      assert Held(s.tasks[a.task]) <==> s.holder == Some(a.task);
      StepFramed(s, a.task, a.reply, a.granted);
    } else if a.Run? {
      assert OwnerOk(s, s.tasks[t]);
      ZeroFrom(s, t, a.reply, a.granted);
    }
  }

  /** Who breaks a load: a callback without a usable source or with one refused range, which has
      copied nothing, or the page loop at a refused page, which has copied the pages before. */
  lemma BrokenBy(s: State, t: nat, reply: Reply, granted: bool)
    requires t in s.tasks && Step(s, t, reply, granted).Some?
    requires s.watch.broken == None && Step(s, t, reply, granted).value.watch.broken.Some?
    ensures var pc, broken := s.tasks[t], Step(s, t, reply, granted).value.watch.broken;
      || (pc.Copy? && pc.job.src != Pages && broken == Some(0))
      || (&& pc.Page? && pc.left != 0 && broken == Some(pc.copied)
          && (!granted || s.base + s.info + PageCount(pc.left) > |s.mem|))
  {
    var pc := s.tasks[t];
    if pc.Write? || pc.Size? || pc.Copy? || pc.Page? {
      CallbackBreaks(s, t, granted);
    }
  }

  lemma PageBreaks(s: State, t: nat, job: Job, left: int, copied: nat, granted: bool)
    requires s.watch.broken == None && StepPage(s, t, job, left, copied, granted).watch.broken.Some?
    ensures left != 0 && StepPage(s, t, job, left, copied, granted).watch.broken == Some(copied)
    ensures !granted || s.base + s.info + PageCount(left) > |s.mem|
  {
  }

  lemma CallbackBreaks(s: State, t: nat, granted: bool)
    requires t in s.tasks && StepCallback(s, t, granted).Some?
    requires s.watch.broken == None && StepCallback(s, t, granted).value.watch.broken.Some?
    ensures var pc, broken := s.tasks[t], StepCallback(s, t, granted).value.watch.broken;
      || (pc.Copy? && pc.job.src != Pages && broken == Some(0))
      || (&& pc.Page? && pc.left != 0 && broken == Some(pc.copied)
          && (!granted || s.base + s.info + PageCount(pc.left) > |s.mem|))
  {
    match s.tasks[t]
    case Page(job, left, copied) => PageBreaks(s, t, job, left, copied, granted);
    case _ =>
  }

  // The loader on its own, with a supply of mappings.

  predicate Maps(pc: Pc) {
    (pc.Copy? && pc.job.src == Mapped) || (pc.Page? && pc.left != 0)
  }

  function Left(pc: Pc, grants: nat): nat {
    if Maps(pc) && grants > 0 then grants - 1 else grants
  }

  /** k steps of task t with nobody interfering: the state, and the mappings still to be granted. */
  function Alone(s: State, t: nat, grants: nat, k: nat): Option<(State, nat)>
    decreases k
  {
    if k == 0 then Some((s, grants))
    else if t !in s.tasks then None
    else
      match Step(s, t, Missing(-EIO), grants > 0)
      case None => None
      case Some(s') => Alone(s', t, Left(s.tasks[t], grants), k - 1)
  }

  lemma AloneOn(s: State, t: nat, grants: nat, k: nat, s1: State, r: (State, nat))
    requires t in s.tasks && Step(s, t, Missing(-EIO), grants > 0) == Some(s1)
    requires Alone(s1, t, Left(s.tasks[t], grants), k) == Some(r)
    ensures Alone(s, t, grants, k + 1) == Some(r)
  {
  }

  lemma {:induction false} AloneTwice(s: State, t: nat, grants: nat, m: nat, n: nat, mid: (State, nat), r: (State, nat))
    requires Alone(s, t, grants, m) == Some(mid) && Alone(mid.0, t, mid.1, n) == Some(r)
    ensures Alone(s, t, grants, m + n) == Some(r)
    decreases m
  {
    if m > 0 {
      var s1 := AloneFirst(s, t, grants, m, mid);
      AloneTwice(s1, t, Left(s.tasks[t], grants), m - 1, n, mid, r);
      AloneOn(s, t, grants, m - 1 + n, s1, r);
    }
  }

  lemma AloneFirst(s: State, t: nat, grants: nat, k: nat, r: (State, nat)) returns (s1: State)
    requires k > 0 && Alone(s, t, grants, k) == Some(r)
    ensures t in s.tasks && Step(s, t, Missing(-EIO), grants > 0) == Some(s1)
    ensures Alone(s1, t, Left(s.tasks[t], grants), k - 1) == Some(r)
  {
    s1 := Step(s, t, Missing(-EIO), grants > 0).value;
  }

  /** The state in which a callback with outcome o leaves the loader. */
  predicate LeavesAs(s: State, t: nat, job: Job, o: Outcome, copied: nat, s': State) {
    match o
    case Astray => t in s'.tasks && s'.tasks[t] == Stray(job)
    case Outcome(m, info, ret) =>
      && info >= s.info
      && s' == Returned(s.(mem := m, info := info), t, job, ret, if ret < 0 then copied + info - s.info else ret)
  }

  /** A round of the page loop that does not copy a page. */
  predicate Stops(s: State, job: Job, left: int, grants: nat) {
    left == 0 || PageStart(s.info) >= |job.image| || grants == 0 || s.base + s.info + PageCount(left) > |s.mem|
  }

  /** The page loop run to its end, round by round. */
  function PagesDone(s: State, t: nat, job: Job, left: int, copied: nat, grants: nat): State
    decreases |job.image| + PAGE_SIZE - s.info
  {
    if Stops(s, job, left, grants) then StepPage(s, t, job, left, copied, grants > 0) else
      var n := PageCount(left);
      PagesDone(StepPage(s, t, job, left, copied, true), t, job, left - n, copied + n, grants - 1)
  }

  lemma StopsAs(s: State, t: nat, job: Job, left: int, copied: nat, grants: nat)
    requires (left >= 0 ==> s.info + left <= |job.image|) && Stops(s, job, left, grants)
    ensures LeavesAs(s, t, job, PageLoop(job.image, s.base, s.mem, s.info, left, grants, copied), copied,
                     StepPage(s, t, job, left, copied, grants > 0))
  {
    if left == 0 || PageStart(s.info) >= |job.image| {
      PageLoopEnds(job.image, s.base, s.mem, s.info, left, grants, copied);
    } else {
      var n := PageCount(left);
      var (m, r) := LoadPiece(s.mem, s.base + s.info, PageBytes(job.image, s.info, n), n, grants > 0);
      PageRound(job.image, s.base, s.mem, s.info, left, grants, copied, m, r);
    }
  }

  /** A round of the page loop that copies a page. */
  lemma MovesAs(s: State, t: nat, job: Job, left: int, copied: nat, grants: nat) returns (s1: State)
    requires (left >= 0 ==> s.info + left <= |job.image|) && !Stops(s, job, left, grants)
    ensures s1 == StepPage(s, t, job, left, copied, true) && s1.base == s.base
    ensures s1 == At(s.(mem := s1.mem, info := s.info + PageCount(left)), t,
                     Page(job, left - PageCount(left), copied + PageCount(left)))
    ensures var n := PageCount(left);
      PageLoop(job.image, s.base, s.mem, s.info, left, grants, copied)
      == PageLoop(job.image, s1.base, s1.mem, s1.info, left - n, grants - 1, copied + n)
  {
    var n := PageCount(left);
    var (m, r) := LoadPiece(s.mem, s.base + s.info, PageBytes(job.image, s.info, n), n, grants > 0);
    PageRound(job.image, s.base, s.mem, s.info, left, grants, copied, m, r);
    s1 := StepPage(s, t, job, left, copied, true);
  }

  /** Round by round, the page loop has the outcome that it has as a whole. */
  lemma {:induction false} PagesLeaveAs(s: State, t: nat, job: Job, left: int, copied: nat, grants: nat,
                                        o: Outcome, s': State)
    requires left >= 0 ==> s.info + left <= |job.image|
    requires o == PageLoop(job.image, s.base, s.mem, s.info, left, grants, copied)
    requires s' == PagesDone(s, t, job, left, copied, grants)
    ensures LeavesAs(s, t, job, o, copied, s')
    decreases |job.image| + PAGE_SIZE - s.info
  {
    if Stops(s, job, left, grants) {
      StopsAs(s, t, job, left, copied, grants);
    } else {
      var n := PageCount(left);
      var s1 := MovesAs(s, t, job, left, copied, grants);
      PagesLeaveAs(s1, t, job, left - n, copied + n, grants - 1, o, s');
      LeavesOn(s, s1, t, job, left, copied, o, s');
    }
  }

  lemma PageIsStep(s: State, t: nat, job: Job, left: int, copied: nat, reply: Reply, granted: bool)
    requires t in s.tasks && s.tasks[t] == Page(job, left, copied)
    ensures Step(s, t, reply, granted) == Some(StepPage(s, t, job, left, copied, granted))
  {
  }

  /** Where a page that was copied leaves the loop. */
  lemma MovedTo(s: State, t: nat, job: Job, left: int, copied: nat, grants: nat)
    requires !Stops(s, job, left, grants)
    ensures var s1, n := StepPage(s, t, job, left, copied, true), PageCount(left);
      t in s1.tasks && s1.tasks[t] == Page(job, left - n, copied + n) && s1.info == s.info + n
  {
  }

  /** Undisturbed, the loader gets through the page loop. */
  lemma {:induction false} PageLoopAlone(s: State, t: nat, job: Job, left: int, copied: nat, grants: nat)
    returns (k: nat, r: (State, nat))
    requires t in s.tasks && s.tasks[t] == Page(job, left, copied)
    ensures Alone(s, t, grants, k) == Some(r) && r.0 == PagesDone(s, t, job, left, copied, grants)
    decreases |job.image| + PAGE_SIZE - s.info
  {
    PageIsStep(s, t, job, left, copied, Missing(-EIO), grants > 0);
    var s1 := StepPage(s, t, job, left, copied, grants > 0);
    if Stops(s, job, left, grants) {
      k, r := LastAlone(s, t, grants, s1);
    } else {
      MovedTo(s, t, job, left, copied, grants);
      k, r := PageLoopAlone(s1, t, job, left - PageCount(left), copied + PageCount(left), grants - 1);
      AloneOn(s, t, grants, k, s1, r);
      k := k + 1;
    }
  }

  lemma LastAlone(s: State, t: nat, grants: nat, s1: State) returns (k: nat, r: (State, nat))
    requires t in s.tasks && Step(s, t, Missing(-EIO), grants > 0) == Some(s1)
    ensures Alone(s, t, grants, k) == Some(r) && r == (s1, Left(s.tasks[t], grants))
  {
    k, r := 1, (s1, Left(s.tasks[t], grants));
    assert Alone(s1, t, Left(s.tasks[t], grants), 0) == Some(r);
    AloneOn(s, t, grants, 0, s1, r);
  }

  /** A page in front does not change where a callback leaves the loader. */
  lemma LeavesOn(s: State, s1: State, t: nat, job: Job, left: int, copied: nat, o: Outcome, s': State)
    requires left != 0
    requires var n := PageCount(left);
      s1 == At(s.(mem := s1.mem, info := s.info + n), t, Page(job, left - n, copied + n))
    requires LeavesAs(s1, t, job, o, copied + PageCount(left), s')
    ensures LeavesAs(s, t, job, o, copied, s')
  {
    if o.Outcome? {
      assert At(s1, t, s'.tasks[t]).tasks == At(s, t, s'.tasks[t]).tasks;
    }
  }

  /** From the settled count on, undisturbed, by pages. */
  lemma PagesAlone(s: State, t: nat, job: Job, count: int, grants: nat) returns (k: nat, r: (State, nat))
    requires t in s.tasks && job.src == Pages && (count >= 0 ==> s.info + count <= |job.image|)
    ensures Alone(At(s, t, Copy(job, count)), t, grants, k) == Some(r)
    ensures LeavesAs(s, t, job, PageLoop(job.image, s.base, s.mem, s.info, count, grants, 0), 0, r.0)
  {
    var s1, s2 := At(s, t, Copy(job, count)), At(s, t, Page(job, count, 0));
    assert s2 == At(s1, t, Page(job, count, 0));
    k, r := PageLoopAlone(s2, t, job, count, 0, grants);
    AloneOn(s1, t, grants, k, s2, r);
    PagesLeaveFrom(s, t, job, count, grants, r.0);
    k := k + 1;
  }

  lemma PagesLeaveFrom(s: State, t: nat, job: Job, count: int, grants: nat, s': State)
    requires (count >= 0 ==> s.info + count <= |job.image|)
    requires s' == PagesDone(At(s, t, Page(job, count, 0)), t, job, count, 0, grants)
    ensures LeavesAs(s, t, job, PageLoop(job.image, s.base, s.mem, s.info, count, grants, 0), 0, s')
  {
    var o := PageLoop(job.image, s.base, s.mem, s.info, count, grants, 0);
    PagesLeaveAs(At(s, t, Page(job, count, 0)), t, job, count, 0, grants, o, s');
    LeavesFrom(s, t, job, Page(job, count, 0), o, s');
  }

  /** From the settled count on, undisturbed. */
  lemma CopyingAlone(s: State, t: nat, grants: nat, s1: State, o: Outcome) returns (k: nat, r: (State, nat))
    requires t in s.tasks && s.tasks[t].Write?
    requires var job := s.tasks[t].job;
      && WriteReady(job.image, s.info, s.current, s.total)
      && s1 == At(Counted(s), t, Copy(job, ChunkSize(s.blocksize, s.total - s.current)))
      && o == WriteChunk(job.src, job.image, s.base, s.mem, s.info, s.current, s.total, s.blocksize, grants)
    ensures Alone(s1, t, grants, k) == Some(r) && LeavesAs(Counted(s), t, s.tasks[t].job, o, 0, r.0)
  {
    var job := s.tasks[t].job;
    if job.src == Pages {
      k, r := PagesAlone(Counted(s), t, job, ChunkSize(s.blocksize, s.total - s.current), grants);
    } else {
      var s2 := Step(s1, t, Missing(-EIO), grants > 0).value;
      k, r := LastAlone(s1, t, grants, s2);
      CopyAlone(s, s1, s2, t, grants);
    }
  }

  /** Undisturbed, the callback as a whole has the outcome of WriteChunk. */
  lemma CallbackAlone(s: State, t: nat, grants: nat, o: Outcome) returns (k: nat, r: (State, nat))
    requires t in s.tasks && s.tasks[t].Write? && !s.watch.torn
    requires var job := s.tasks[t].job;
      && WriteReady(job.image, s.info, s.current, s.total)
      && o == WriteChunk(job.src, job.image, s.base, s.mem, s.info, s.current, s.total, s.blocksize, grants)
    ensures Alone(s, t, grants, k) == Some(r) && LeavesAs(Counted(s), t, s.tasks[t].job, o, 0, r.0)
  {
    var k1, s1 := CountAlone(s, t, grants);
    var k2, r2 := CopyingAlone(s, t, grants, s1, o);
    AloneTwice(s, t, grants, k1, k2, (s1, grants), r2);
    k, r := k1 + k2, r2;
  }

  /** The observer's note that a callback begins. */
  function Counted(s: State): State {
    s.(watch := s.watch.(torn := false, extraWrites := s.watch.extraWrites + if s.watch.cancelled then 1 else 0))
  }

  lemma LeavesFrom(s: State, t: nat, job: Job, pc: Pc, o: Outcome, s': State)
    requires LeavesAs(At(s, t, pc), t, job, o, 0, s')
    ensures LeavesAs(s, t, job, o, 0, s')
  {
    if o.Outcome? {
      assert At(At(s, t, pc), t, s'.tasks[t]).tasks == At(s, t, s'.tasks[t]).tasks;
    }
  }

  /** The reads of the block size agree when nobody interferes. */
  lemma CountAlone(s: State, t: nat, grants: nat) returns (k: nat, s1: State)
    requires t in s.tasks && s.tasks[t].Write? && !s.watch.torn
    ensures Alone(s, t, grants, k) == Some((s1, grants))
    ensures s1 == At(Counted(s), t, Copy(s.tasks[t].job, ChunkSize(s.blocksize, s.total - s.current)))
  {
    var job := s.tasks[t].job;
    if s.blocksize != 0 {
      var s' := At(Counted(s), t, Size(job));
      assert Step(s, t, Missing(-EIO), grants > 0) == Some(s');
      k, s1 := SizeAlone(s', t, job, grants);
      AloneOn(s, t, grants, k, s', (s1, grants));
      assert s1.tasks == At(Counted(s), t, s1.tasks[t]).tasks;
      k := k + 1;
    } else {
      s1 := At(Counted(s), t, Copy(job, s.total - s.current));
      var r;
      k, r := LastAlone(s, t, grants, s1);
    }
  }

  lemma SizeAlone(s: State, t: nat, job: Job, grants: nat) returns (k: nat, s1: State)
    requires t in s.tasks && s.tasks[t] == Size(job) && s.blocksize != 0 && !s.watch.torn
    ensures Alone(s, t, grants, k) == Some((s1, grants))
    ensures s1 == At(s, t, Copy(job, ChunkSize(s.blocksize, s.total - s.current)))
  {
    s1 := At(s, t, Copy(job, ChunkSize(s.blocksize, s.total - s.current)));
    var r;
    k, r := LastAlone(s, t, grants, s1);
  }

  /** The copy that is no page loop. */
  lemma CopyAlone(s: State, s1: State, s2: State, t: nat, grants: nat)
    requires t in s.tasks && s.tasks[t].Write? && s.tasks[t].job.src != Pages
    requires var job := s.tasks[t].job;
      && WriteReady(job.image, s.info, s.current, s.total)
      && s1 == At(Counted(s), t, Copy(job, ChunkSize(s.blocksize, s.total - s.current)))
      && Step(s1, t, Missing(-EIO), grants > 0) == Some(s2)
    ensures var job := s.tasks[t].job;
      var o := WriteChunk(job.src, job.image, s.base, s.mem, s.info, s.current, s.total, s.blocksize, grants);
      LeavesAs(Counted(s), t, job, o, 0, s2)
  {
    var job := s.tasks[t].job;
    var o := WriteChunk(job.src, job.image, s.base, s.mem, s.info, s.current, s.total, s.blocksize, grants);
    LeavesFrom(Counted(s), t, job, s1.tasks[t], o, s2);
  }

  /** From a failed callback to the unlock. */
  lemma FailAlone(s: State, t: nat, grants: nat) returns (k: nat, r: (State, nat))
    requires t in s.tasks && s.tasks[t].Judge? && s.tasks[t].ret < 0
    ensures Alone(s, t, grants, k) == Some(r)
    ensures t in r.0.tasks && r.0.fw == FAILED && r.0.tasks[t] == Unlock(if s.info == s.current then 0 else -EIO)
  {
    var job, reply := s.tasks[t].job, Missing(-EIO);
    var s1 := Step(s, t, reply, grants > 0).value;
    assert s1.tasks[t] == Finish(job) && s1.fw == FAILED;
    var s2 := Step(s1, t, reply, grants > 0).value;
    var s3 := if s.info == s.current then s2 else Step(s2, t, reply, grants > 0).value;
    assert s3.tasks[t] == Switch(job, End(s.info, s.current)) && s3.fw == FAILED;
    var s4 := Step(s3, t, reply, grants > 0).value;
    r := (s4, grants);
    assert Alone(s4, t, grants, 0) == Some(r);
    AloneOn(s3, t, grants, 0, s4, r);
    if s.info == s.current {
      AloneOn(s1, t, grants, 1, s2, r);
      AloneOn(s, t, grants, 2, s1, r);
      k := 3;
    } else {
      AloneOn(s2, t, grants, 1, s3, r);
      AloneOn(s1, t, grants, 2, s2, r);
      AloneOn(s, t, grants, 3, s1, r);
      k := 4;
    }
  }

  /** From the start of a callback that fails to the unlock. */
  lemma BrokenAlone(s: State, t: nat, grants: nat, o: Outcome) returns (k: nat, r: (State, nat))
    requires t in s.tasks && s.tasks[t].Write? && !s.watch.torn && o.Outcome? && o.ret < 0
    requires var job := s.tasks[t].job;
      && WriteReady(job.image, s.info, s.current, s.total)
      && o == WriteChunk(job.src, job.image, s.base, s.mem, s.info, s.current, s.total, s.blocksize, grants)
    ensures Alone(s, t, grants, k) == Some(r)
    ensures t in r.0.tasks && r.0.fw == FAILED && r.0.tasks[t] == Unlock(if o.info == s.current then 0 else -EIO)
  {
    var k1, r1 := CallbackAlone(s, t, grants, o);
    LeavesFailed(Counted(s), t, s.tasks[t].job, o, r1.0);
    var k2, r2 := FailAlone(r1.0, t, r1.1);
    AloneTwice(s, t, grants, k1, k2, r1, r2);
    k, r := k1 + k2, r2;
  }

  lemma LeavesFailed(s: State, t: nat, job: Job, o: Outcome, s': State)
    requires o.Outcome? && o.ret < 0 && LeavesAs(s, t, job, o, 0, s')
    ensures t in s'.tasks && s'.tasks[t] == Judge(job, o.ret) && s'.info == o.info && s'.current == s.current
  {
  }

  /** The first mapping that a callback asks for fails, or it never asks. */
  predicate FailsAtOnce(src: Source, base: nat, memSize: nat, current: nat, count: int, grants: nat)
    requires count != 0
  {
    src != Pages || grants == 0 || base + current + PageCount(count) > memSize
  }

  /** Success is the state and not the return value: for every source, block size and supply of
      mappings, a load whose callback fails, and with which nobody interferes, ends in FW_FAILED
      and returns 0 if and only if the callback failed at once; otherwise it returns -EIO. */
  lemma FailedLoadReturns(s: State, t: nat, grants: nat) returns (k: nat, r: (State, nat))
    requires Inv(s) && s.holder == Some(t) && s.tasks[t].Write?
    requires var job := s.tasks[t].job;
      && WriteReady(job.image, s.info, s.current, s.total)
      && var o := WriteChunk(job.src, job.image, s.base, s.mem, s.info, s.current, s.total, s.blocksize, grants);
         o.Outcome? && o.ret < 0
    ensures Alone(s, t, grants, k) == Some(r)
    ensures t in r.0.tasks && r.0.fw == FAILED && ChunkSize(s.blocksize, s.total - s.current) != 0
    ensures var count := ChunkSize(s.blocksize, s.total - s.current);
      r.0.tasks[t] == Unlock(if FailsAtOnce(s.tasks[t].job.src, s.base, |s.mem|, s.current, count, grants)
                             then 0 else -EIO)
  {
    var job := s.tasks[t].job;
    var o := WriteChunk(job.src, job.image, s.base, s.mem, s.info, s.current, s.total, s.blocksize, grants);
    k, r := BrokenAlone(s, t, grants, o);
    FailureStays(job.src, job.image, s.base, s.mem, s.current, s.total, s.blocksize, grants);
  }

  /** A failing callback has left the driver's count alone exactly when it failed at once. */
  lemma FailureStays(src: Source, image: seq<Byte>, base: nat, mem: seq<Byte>, current: nat, total: int,
                     blocksize: int, grants: nat)
    requires WriteReady(image, current, current, total)
    requires var o := WriteChunk(src, image, base, mem, current, current, total, blocksize, grants);
      o.Outcome? && o.ret < 0
    ensures ChunkSize(blocksize, total - current) != 0
    ensures var o := WriteChunk(src, image, base, mem, current, current, total, blocksize, grants);
      o.info == current
      <==> FailsAtOnce(src, base, |mem|, current, ChunkSize(blocksize, total - current), grants)
  {
    var count := ChunkSize(blocksize, total - current);
    if src == Pages && count > 0 {
      PagedWriteStays(image, base, mem, current, count, grants, 0);
    } else if src == Pages {
      OverrunStays(image, base, mem, current, grants);
    }
  }
}
