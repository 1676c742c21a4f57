/** What every step of firmware loading keeps, over every interleaving. */
module FirmwareProof {
  import opened Common
  import opened MemloaderCore
  import opened Firmware

  // The steps of the owner, one position at a time: the counts.

  /** The steps up to the load loop. */
  lemma OpeningStep(s: State, t: nat, reply: Reply, granted: bool, s': State)
    requires t in s.tasks && OwnerOk(s, s.tasks[t]) && Step(s, t, reply, granted) == Some(s')
    requires var pc := s.tasks[t]; pc in {Check, Enter, Request} || pc.Refused? || pc.Begin? || pc.Head?
    ensures t in s'.tasks && OwnerOk(s', s'.tasks[t])
  {
  }

  /** The two reads of the block size. */
  lemma SizeStep(s: State, t: nat, granted: bool, s': State)
    requires t in s.tasks && OwnerOk(s, s.tasks[t]) && (s.tasks[t].Write? || s.tasks[t].Size?)
    requires StepCallback(s, t, granted) == Some(s')
    ensures t in s'.tasks && OwnerOk(s', s'.tasks[t])
  {
    var job := s.tasks[t].job;
    if s.tasks[t].Size? && job.src == Pages && !Odd(s) && 0 < s.blocksize < s.total - s.current {
      AlignedSum(s.current, s.blocksize);
    }
  }

  /** A callback that returns is followed by the next position in order. */
  lemma ReturnStep(s: State, t: nat, job: Job, ret: int, copied: nat, s': State)
    requires s' == Returned(s, t, job, ret, copied)
    requires Counts(s, job) && s.current < s.total && Extra(s) && s.watch.broken == None && Noted(s)
    requires s.fw != LOADED && s.fw != FAILED && (s.watch.cancelled ==> s.fw != LOADING)
    requires ret < 0 ==> s.info == s.current + copied
    requires ret == 0 ==> s.watch.torn && s.info == s.current
    requires ret > 0 ==> && !s.watch.torn && s.info == s.current + ret && s.current + ret <= s.total
                         && OnBoundary(s, job, s.info)
    ensures t in s'.tasks && OwnerOk(s', s'.tasks[t])
  {
  }

  /** The copy from one mapped range has returned. */
  lemma RangeStep(s: State, t: nat, job: Job, count: int, copy: (seq<Byte>, int), s': State)
    requires OwnerOk(s, Copy(job, count)) && job.src == Mapped && s' == AfterRange(s, t, job, copy)
    requires copy.1 < 0 || copy.1 == count > 0
    ensures t in s'.tasks && OwnerOk(s', s'.tasks[t])
  {
    var (m, r) := copy;
    ReturnStep(s.(mem := m, info := if r > 0 then s.info + r else s.info), t, job, r, 0, s');
  }

  /** The copy from one mapped range, or the entry of the page loop. */
  lemma CopyStep(s: State, t: nat, job: Job, count: int, granted: bool, s': State)
    requires t in s.tasks && s.tasks[t] == Copy(job, count) && OwnerOk(s, Copy(job, count))
    requires StepCallback(s, t, granted) == Some(s')
    ensures t in s'.tasks && OwnerOk(s', s'.tasks[t])
  {
    match job.src
    case Mapped =>
      RangeStep(s, t, job, count, LoadPiece(s.mem, s.base + s.current, job.image[s.current..], count, granted), s');
    case Pages => assert s' == At(s, t, Page(job, count, 0));
    case Absent => ReturnStep(s, t, job, -EINVAL, 0, s');
  }

  /** The copy of a page has returned. */
  lemma PageDone(s: State, t: nat, job: Job, left: int, copied: nat, copy: (seq<Byte>, int), s': State)
    requires OwnerOk(s, Page(job, left, copied)) && left != 0 && (copy.1 > 0 ==> copy.1 == PageCount(left))
    requires s' == AfterPage(s, t, job, left, copied, copy)
    ensures t in s'.tasks && OwnerOk(s', s'.tasks[t])
  {
    if copy.1 <= 0 {
      ReturnStep(s, t, job, -ENOMEM, copied, s');
    } else if left > PAGE_SIZE && !Odd(s) {
      AlignedSum(s.info, PAGE_SIZE);
    }
  }

  /** One round of the page loop. */
  lemma PageStep(s: State, t: nat, job: Job, left: int, copied: nat, granted: bool, s': State)
    requires OwnerOk(s, Page(job, left, copied)) && s' == StepPage(s, t, job, left, copied, granted)
    ensures t in s'.tasks && OwnerOk(s', s'.tasks[t])
  {
    if left == 0 {
      ReturnStep(s, t, job, copied, copied, s');
    } else if PageStart(s.info) < |job.image| {
      var n := PageCount(left);
      PageDone(s, t, job, left, copied,
               LoadPiece(s.mem, s.base + s.info, PageBytes(job.image, s.info, n), n, granted), s');
    } else {
      assert s' == At(s, t, Stray(job));
    }
  }

  lemma CallbackStep(s: State, t: nat, granted: bool, s': State)
    requires t in s.tasks && OwnerOk(s, s.tasks[t]) && StepCallback(s, t, granted) == Some(s')
    ensures t in s'.tasks && OwnerOk(s', s'.tasks[t])
  {
    var pc := s.tasks[t];
    if pc.Copy? {
      CopyStep(s, t, pc.job, pc.count, granted, s');
    } else if pc.Page? {
      PageStep(s, t, pc.job, pc.left, pc.copied, granted, s');
    } else {
      SizeStep(s, t, granted, s');
    }
  }

  /** The steps around the nap. */
  lemma NapStep(s: State, t: nat, reply: Reply, granted: bool, s': State)
    requires t in s.tasks && OwnerOk(s, s.tasks[t]) && (s.tasks[t].Nap? || s.tasks[t].NapTest?)
    requires Step(s, t, reply, granted) == Some(s')
    ensures t in s'.tasks && OwnerOk(s', s'.tasks[t])
  {
  }

  /** The steps after the load loop. */
  lemma JudgingStep(s: State, t: nat, reply: Reply, granted: bool, s': State)
    requires t in s.tasks && OwnerOk(s, s.tasks[t]) && (s.tasks[t].Judge? || s.tasks[t].Finish?)
    requires Step(s, t, reply, granted) == Some(s')
    ensures t in s'.tasks && OwnerOk(s', s'.tasks[t])
  {
  }

  lemma ClosingStep(s: State, t: nat, reply: Reply, granted: bool, s': State)
    requires t in s.tasks && OwnerOk(s, s.tasks[t]) && Step(s, t, reply, granted) == Some(s')
    requires var pc := s.tasks[t]; pc.Spoil? || pc.Switch? || pc.Commit? || pc.Fallback? || pc.Unlock?
    ensures t in s'.tasks && OwnerOk(s', s'.tasks[t])
  {
  }

  /** A step of the owner leaves the next owner position in order. */
  lemma OwnerStep(s: State, t: nat, reply: Reply, granted: bool, s': State)
    requires t in s.tasks && Held(s.tasks[t]) && OwnerOk(s, s.tasks[t]) && Step(s, t, reply, granted) == Some(s')
    ensures t in s'.tasks && OwnerOk(s', s'.tasks[t])
  {
    var pc := s.tasks[t];
    if pc.Write? || pc.Size? || pc.Copy? || pc.Page? {
      CallbackStep(s, t, granted, s');
    } else if pc.Nap? || pc.NapTest? {
      NapStep(s, t, reply, granted, s');
    } else if pc in {Check, Enter, Request} || pc.Refused? || pc.Begin? || pc.Head? {
      OpeningStep(s, t, reply, granted, s');
    } else if pc.Judge? || pc.Finish? {
      JudgingStep(s, t, reply, granted, s');
    } else {
      ClosingStep(s, t, reply, granted, s');
    }
  }

  /** Only a loader that has run beyond the pages has no next step. */
  lemma OwnerMoves(s: State, t: nat, reply: Reply, granted: bool)
    requires t in s.tasks && Held(s.tasks[t]) && OwnerOk(s, s.tasks[t])
    requires s.tasks[t] == Request && reply.Missing? ==> reply.err != 0
    ensures Step(s, t, reply, granted).Some? <==> !s.tasks[t].Stray?
  {
    if s.tasks[t].Copy? {
      assert CallbackOk(s, s.tasks[t]);
    }
  }

  // The same steps: the bytes.

  /** The bytes stay where they are when memory, counts and what was noted stay. */
  lemma SameBytes(s: State, s': State, job: Job, n: nat)
    requires Holds(s, job, n) && s'.mem == s.mem && s'.watch.mem0 == s.watch.mem0 && s'.base == s.base
    requires s'.watch.moved == s.watch.moved && s'.watch.odd == s.watch.odd && s'.total == s.total
    ensures Holds(s', job, n)
  {
  }

  /** Up to the load loop nothing has been written. */
  lemma OpeningBytes(s: State, t: nat, reply: Reply, granted: bool, s': State)
    requires t in s.tasks && BytesOk(s, s.tasks[t]) && Step(s, t, reply, granted) == Some(s')
    requires var pc := s.tasks[t]; pc in {Check, Enter, Request} || pc.Refused? || pc.Begin?
    ensures t in s'.tasks && BytesOk(s', s'.tasks[t])
  {
  }

  /** Steps that leave memory and the counts alone leave the bytes where they are. */
  lemma PlainBytes(s: State, t: nat, reply: Reply, granted: bool, s': State)
    requires t in s.tasks && OwnerOk(s, s.tasks[t]) && BytesOk(s, s.tasks[t]) && Step(s, t, reply, granted) == Some(s')
    requires var pc := s.tasks[t];
      pc.Head? || pc.Nap? || pc.NapTest? || pc.Judge? || pc.Finish? || pc.Spoil? || pc.Switch?
    ensures t in s'.tasks && BytesOk(s', s'.tasks[t])
  {
    if AtCount(s, s.tasks[t]) {
      SameBytes(s, s', s.tasks[t].job, s.current);
    }
  }

  lemma MappedLoads(s: State, job: Job, count: int, granted: bool)
    requires s.current <= |job.image| && count <= |job.image| - s.current && Holds(s, job, s.current)
    ensures var copy := LoadPiece(s.mem, s.base + s.current, job.image[s.current..], count, granted);
      copy.1 > 0 ==> Holds(s.(mem := copy.0), job, s.current + count)
  {
    if Clean(s, job) {
      RangeLoads(s.watch.mem0, job.image, s.base, s.mem, s.current, count, granted);
    }
  }

  /** What is in memory when a callback has returned. */
  lemma ReturnedBytes(s: State, t: nat, job: Job, ret: int, copied: nat, s': State)
    requires s' == Returned(s, t, job, ret, copied)
    requires (ret == 0 ==> Holds(s, job, s.current)) && (ret > 0 ==> Holds(s, job, s.current + ret))
    ensures t in s'.tasks && BytesOk(s', s'.tasks[t])
  {
    if ret >= 0 {
      SameBytes(s, s', job, s.current + ret);
    }
  }

  lemma RangeBytes(s: State, t: nat, job: Job, copy: (seq<Byte>, int), s': State)
    requires s' == AfterRange(s, t, job, copy)
    requires copy.1 != 0 && (copy.1 > 0 ==> Holds(s.(mem := copy.0), job, s.current + copy.1))
    ensures t in s'.tasks && BytesOk(s', s'.tasks[t])
  {
    var (m, r) := copy;
    ReturnedBytes(s.(mem := m, info := if r > 0 then s.info + r else s.info), t, job, r, 0, s');
  }

  lemma CopyBytes(s: State, t: nat, job: Job, count: int, granted: bool, s': State)
    requires t in s.tasks && s.tasks[t] == Copy(job, count) && OwnerOk(s, Copy(job, count)) && Holds(s, job, s.current)
    requires StepCallback(s, t, granted) == Some(s')
    ensures t in s'.tasks && BytesOk(s', s'.tasks[t])
  {
    match job.src
    case Mapped =>
      MappedLoads(s, job, count, granted);
      RangeBytes(s, t, job, LoadPiece(s.mem, s.base + s.current, job.image[s.current..], count, granted), s');
    case Pages => assert s' == At(s, t, Page(job, count, 0));
    case Absent => ReturnedBytes(s, t, job, -EINVAL, 0, s');
  }

  /** One page extends what is loaded, unless the bytes are spoilt already. */
  lemma PageLoads(s: State, job: Job, left: int, granted: bool, copy: (seq<Byte>, int))
    requires left != 0 && job.src == Pages && (left > 0 ==> s.info + left <= |job.image|)
    requires PageStart(s.info) < |job.image| && Holds(s, job, s.info)
    requires (left < 0 ==> Odd(s)) && (Odd(s) || Aligned(s.info))
    requires var n := PageCount(left);
      copy == LoadPiece(s.mem, s.base + s.info, PageBytes(job.image, s.info, n), n, granted)
    ensures copy.1 > 0 ==> Holds(s.(mem := copy.0), job, s.info + copy.1)
  {
    if Clean(s, job) {
      AlignedPageLoads(s.watch.mem0, job.image, s.base, s.mem, s.info, PageCount(left), granted);
    }
  }

  lemma CopiedPageBytes(s: State, t: nat, job: Job, left: int, copied: nat, copy: (seq<Byte>, int), s': State)
    requires s' == AfterPage(s, t, job, left, copied, copy)
    requires copy.1 > 0 ==> Holds(s.(mem := copy.0), job, s.info + copy.1)
    ensures t in s'.tasks && BytesOk(s', s'.tasks[t])
  {
    if copy.1 <= 0 {
      ReturnedBytes(s, t, job, -ENOMEM, copied, s');
    }
  }

  lemma PageKeepsBytes(s: State, t: nat, job: Job, left: int, copied: nat, granted: bool, s': State)
    requires OwnerOk(s, Page(job, left, copied)) && Holds(s, job, s.info)
    requires s' == StepPage(s, t, job, left, copied, granted)
    ensures t in s'.tasks && BytesOk(s', s'.tasks[t])
  {
    assert CallbackOk(s, Page(job, left, copied));
    if left == 0 {
      ReturnedBytes(s, t, job, copied, copied, s');
    } else if PageStart(s.info) < |job.image| {
      var n := PageCount(left);
      var copy := LoadPiece(s.mem, s.base + s.info, PageBytes(job.image, s.info, n), n, granted);
      PageLoads(s, job, left, granted, copy);
      CopiedPageBytes(s, t, job, left, copied, copy, s');
    } else {
      assert s' == At(s, t, Stray(job));
    }
  }

  lemma SizeBytes(s: State, t: nat, granted: bool, s': State)
    requires t in s.tasks && BytesOk(s, s.tasks[t]) && StepCallback(s, t, granted) == Some(s')
    requires s.tasks[t].Write? || s.tasks[t].Size?
    ensures t in s'.tasks && BytesOk(s', s'.tasks[t])
  {
    SameBytes(s, s', s.tasks[t].job, s.current);
  }

  lemma CallbackBytes(s: State, t: nat, granted: bool, s': State)
    requires t in s.tasks && OwnerOk(s, s.tasks[t]) && BytesOk(s, s.tasks[t]) && StepCallback(s, t, granted) == Some(s')
    ensures t in s'.tasks && BytesOk(s', s'.tasks[t])
  {
    var pc := s.tasks[t];
    if pc.Copy? {
      CopyBytes(s, t, pc.job, pc.count, granted, s');
    } else if pc.Page? {
      PageKeepsBytes(s, t, pc.job, pc.left, pc.copied, granted, s');
    } else {
      SizeBytes(s, t, granted, s');
    }
  }

  lemma OwnerBytes(s: State, t: nat, reply: Reply, granted: bool, s': State)
    requires t in s.tasks && OwnerOk(s, s.tasks[t]) && BytesOk(s, s.tasks[t]) && Step(s, t, reply, granted) == Some(s')
    ensures t in s'.tasks && BytesOk(s', s'.tasks[t])
  {
    var pc := s.tasks[t];
    if pc.Write? || pc.Size? || pc.Copy? || pc.Page? {
      CallbackBytes(s, t, granted, s');
    } else if pc in {Check, Enter, Request} || pc.Refused? || pc.Begin? {
      OpeningBytes(s, t, reply, granted, s');
    } else if pc.Head? || pc.Nap? || pc.NapTest? || pc.Judge? || pc.Finish? || pc.Spoil? || pc.Switch? {
      PlainBytes(s, t, reply, granted, s');
    }
  }

  // The lock.

  /** What a step of t may touch: its own position, the lock when it is free or its own, and the
      rest only under the lock. */
  predicate Framed(s: State, t: nat, s': State) {
    && t in s.tasks && t in s'.tasks && s'.tasks == s.tasks[t := s'.tasks[t]]
    && s'.blocksize == s.blocksize && s'.base == s.base
    && (s'.holder == s.holder || (s.holder in {None, Some(t)} && s'.holder in {None, Some(t)}))
    && (Held(s'.tasks[t]) <==> s'.holder == Some(t))
    && (!Held(s.tasks[t]) && s'.holder == s.holder ==> s' == s.(tasks := s'.tasks))
  }

  lemma CallbackFramed(s: State, t: nat, granted: bool)
    requires t in s.tasks && s.holder == Some(t) && StepCallback(s, t, granted).Some?
    ensures Framed(s, t, StepCallback(s, t, granted).value)
  {
  }

  lemma StepFramed(s: State, t: nat, reply: Reply, granted: bool)
    requires t in s.tasks && (Held(s.tasks[t]) <==> s.holder == Some(t)) && Step(s, t, reply, granted).Some?
    ensures Framed(s, t, Step(s, t, reply, granted).value)
  {
    var pc := s.tasks[t];
    if pc.Write? || pc.Size? || pc.Copy? || pc.Page? {
      CallbackFramed(s, t, granted);
    }
  }

  /** Any step of any task respects the lock. */
  lemma MutexKept(s: State, t: nat, s': State)
    requires MutexOk(s) && Framed(s, t, s')
    ensures MutexOk(s') && (s.holder != Some(t) && s'.holder == s.holder ==> s' == s.(tasks := s'.tasks))
  {
    assert Held(s.tasks[t]) <==> s.holder == Some(t);
    forall u | u in s'.tasks ensures Held(s'.tasks[u]) <==> s'.holder == Some(u) {
      assert u != t ==> (Held(s.tasks[u]) <==> s.holder == Some(u));
    }
  }

  // What happens without the lock.

  /** What may change under an owner that stands at pc: the state of the firmware, the block size
      and the load address, each of them noted; and where other tasks stand. */
  predicate Disturbed(s: State, s': State, pc: Pc) {
    && s'.current == s.current && s'.total == s.total && s'.info == s.info
    && s'.watch.extraWrites == s.watch.extraWrites && s'.watch.torn == s.watch.torn && s'.watch.broken == s.watch.broken
    && (s'.fw == s.fw || s'.fw in {EMPTY, DELETED})
    && (s.watch.cancelled ==> s'.watch.cancelled)
    && (s'.watch.cancelled && !s.watch.cancelled ==> InWindow(pc) && s'.fw != LOADING)
    && (s'.watch.retuned || (!s.watch.retuned && s'.blocksize == s.blocksize))
    && (Odd(s) ==> Odd(s')) && (Noted(s) ==> Noted(s'))
  }

  lemma OpeningDisturbed(s: State, s': State, pc: Pc)
    requires OpeningOk(s, pc) && Disturbed(s, s', pc)
    ensures OpeningOk(s', pc)
  {
  }

  lemma LoopDisturbed(s: State, s': State, pc: Pc)
    requires LoopOk(s, pc) && Disturbed(s, s', pc)
    ensures LoopOk(s', pc)
  {
  }

  lemma CallbackDisturbed(s: State, s': State, pc: Pc)
    requires CallbackOk(s, pc) && Disturbed(s, s', pc)
    ensures CallbackOk(s', pc)
  {
  }

  lemma ClosingDisturbed(s: State, s': State, pc: Pc)
    requires ClosingOk(s, pc) && Disturbed(s, s', pc)
    ensures ClosingOk(s', pc)
  {
  }

  /** None of this moves the ground under the owner. */
  lemma OwnerDisturbed(s: State, s': State, pc: Pc)
    requires OwnerOk(s, pc) && Disturbed(s, s', pc)
    ensures OwnerOk(s', pc)
  {
    OpeningDisturbed(s, s', pc);
    LoopDisturbed(s, s', pc);
    CallbackDisturbed(s, s', pc);
    ClosingDisturbed(s, s', pc);
  }

  lemma NoteKeeps(odd: Option<int>, b: int, total: int)
    ensures odd.Some? && odd.value < total ==> Note(odd, b).Some? && Note(odd, b).value < total
    ensures Aligned(b) || (Note(odd, b).Some? && Note(odd, b).value <= b)
  {
  }

  /** Whatever happens without the lock leaves the bytes where they are, or is noted. */
  lemma BytesUnder(s: State, s': State, pc: Pc)
    requires BytesOk(s, pc) && s'.mem == s.mem && s'.watch.mem0 == s.watch.mem0 && s'.watch.broken == s.watch.broken
    requires s'.current == s.current && s'.info == s.info && s'.total == s.total
    requires !s'.watch.moved ==> !s.watch.moved && s'.base == s.base
    requires !Odd(s') ==> !Odd(s)
    ensures BytesOk(s', pc)
  {
  }

  lemma StopDisturbs(s: State, fw: FwState, s': State, pc: Pc)
    requires fw in {EMPTY, DELETED} && WindowOpen(s) == InWindow(pc)
    requires s' == s.(fw := fw, watch := s.watch.(cancelled := s.watch.cancelled || WindowOpen(s)))
    ensures Disturbed(s, s', pc)
  {
  }

  lemma RetuneDisturbs(s: State, b: int, s': State, pc: Pc)
    requires s' == s.(blocksize := b, watch := s.watch.(retuned := true, odd := Note(s.watch.odd, b)))
    ensures Disturbed(s, s', pc)
  {
    NoteKeeps(s.watch.odd, b, s.total);
  }

  lemma UnlockedDisturbs(s: State, a: Action, s': State, pc: Pc)
    requires !a.Run? && Next(s, a) == Some(s') && WindowOpen(s) == InWindow(pc)
    ensures Disturbed(s, s', pc)
  {
    match a
    case Cancel => StopDisturbs(s, EMPTY, s', pc);
    case Delete => StopDisturbs(s, DELETED, s', pc);
    case Retune(b) => RetuneDisturbs(s, b, s', pc);
    case _ =>
  }

  /** Cancelling, deleting, retuning, moving and new requests, at any moment. */
  lemma UnlockedStep(s: State, a: Action, s': State)
    requires Inv(s) && !a.Run? && Next(s, a) == Some(s')
    ensures Inv(s')
  {
    if s.holder.Some? {
      var pc := s.tasks[s.holder.value];
      assert s'.tasks[s.holder.value] == pc && WindowOpen(s) == InWindow(pc);
      UnlockedDisturbs(s, a, s', pc);
      OwnerDisturbed(s, s', pc);
      BytesUnder(s, s', pc);
    }
  }

  /** A step of a task, with or without the lock. */
  lemma TaskStep(s: State, t: nat, reply: Reply, granted: bool, s': State)
    requires Inv(s) && t in s.tasks && Step(s, t, reply, granted) == Some(s')
    ensures Inv(s')
  {
    assert Held(s.tasks[t]) <==> s.holder == Some(t);
    StepFramed(s, t, reply, granted);
    MutexKept(s, t, s');
    if s.holder == Some(t) {
      OwnerKept(s, t, reply, granted, s');
    } else if s.holder.Some? {
      var pc := s.tasks[s.holder.value];
      assert s'.holder == s.holder && s'.tasks[s.holder.value] == pc;
      OwnerDisturbed(s, s', pc);
      BytesUnder(s, s', pc);
    }
  }

  lemma OwnerKept(s: State, t: nat, reply: Reply, granted: bool, s': State)
    requires t in s.tasks && Held(s.tasks[t]) && Step(s, t, reply, granted) == Some(s')
    requires OwnerOk(s, s.tasks[t]) && BytesOk(s, s.tasks[t])
    ensures t in s'.tasks && OwnerOk(s', s'.tasks[t]) && BytesOk(s', s'.tasks[t])
  {
    OwnerStep(s, t, reply, granted, s');
    OwnerBytes(s, t, reply, granted, s');
  }

  lemma EveryStepKeepsInv(s: State, a: Action, s': State)
    requires Inv(s) && Next(s, a) == Some(s')
    ensures Inv(s')
  {
    if a.Run? {
      TaskStep(s, a.task, a.reply, a.granted, s');
    } else {
      UnlockedStep(s, a, s');
    }
  }

  lemma InitialInv(s: State)
    requires Init(s)
    ensures Inv(s)
  {
  }

  lemma {:induction false} InvHolds(states: seq<State>, actions: seq<Action>, i: nat)
    requires IsRun(states, actions) && i <= |actions|
    ensures Inv(states[i])
  {
    if i == 0 {
      InitialInv(states[0]);
    } else {
      InvHolds(states, actions, i - 1);
      EveryStepKeepsInv(states[i - 1], actions[i - 1], states[i]);
    }
  }
}
