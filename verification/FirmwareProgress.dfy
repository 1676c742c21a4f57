/** Every load that takes the lock gives it back after a bounded number of its own steps. */
module FirmwareProgress {
  import opened Common
  import opened MemloaderCore
  import opened Firmware
  import opened FirmwareProof

  /** Bytes that the page loop can still count up, a page beyond the image included. */
  function Rest(s: State, job: Job): nat {
    if s.info >= |job.image| + PAGE_SIZE then 0 else |job.image| + PAGE_SIZE - s.info
  }

  /** Steps to the next byte or to the end of the loop. */
  function Phase(pc: Pc): nat {
    match pc
    case Page(_, left, copied) => if left == 0 && copied > 0 then 16 else 9
    case Nap(_, _) => 15
    case NapTest(_, _) => 14
    case Head(_, _) => 13
    case Write(_) => 12
    case Size(_) => 11
    case Copy(_, _) => 10
    case Judge(_, _) => 8
    case Finish(_) => 7
    case Spoil(_, _) => 6
    case Switch(_, _) => 5
    case Commit(_) => 4
    case Fallback(_) => 4
    case Refused(_) => 2
    case Unlock(_) => 1
    case _ => 0
  }

  /** The first part tells whether the image is known already; the second bounds the steps left. */
  function Rank(s: State, pc: Pc): (nat, nat) {
    match pc
    case Check => (1, 3)
    case Enter => (1, 2)
    case Request => (1, 1)
    case Begin(job) => (0, 8 * (|job.image| + PAGE_SIZE) + 17)
    case Head(job, _) => (0, 8 * Rest(s, job) + Phase(pc))
    case Write(job) => (0, 8 * Rest(s, job) + Phase(pc))
    case Size(job) => (0, 8 * Rest(s, job) + Phase(pc))
    case Copy(job, _) => (0, 8 * Rest(s, job) + Phase(pc))
    case Page(job, _, _) => (0, 8 * Rest(s, job) + Phase(pc))
    case Nap(job, _) => (0, 8 * Rest(s, job) + Phase(pc))
    case NapTest(job, _) => (0, 8 * Rest(s, job) + Phase(pc))
    case _ => (0, Phase(pc))
  }

  predicate Less(a: (nat, nat), b: (nat, nat)) {
    a.0 < b.0 || (a.0 == b.0 && a.1 < b.1)
  }

  /** A step of the callback brings the end of the loop closer. */
  lemma CallbackDescends(s: State, t: nat, granted: bool)
    requires t in s.tasks && OwnerOk(s, s.tasks[t]) && StepCallback(s, t, granted).Some?
    ensures var s' := StepCallback(s, t, granted).value; Less(Rank(s', s'.tasks[t]), Rank(s, s.tasks[t]))
  {
    match s.tasks[t]
    case Page(job, left, copied) => PageDescends(s, t, job, left, copied, granted);
    case _ =>
  }

  lemma PageDescends(s: State, t: nat, job: Job, left: int, copied: nat, granted: bool)
    ensures var s' := StepPage(s, t, job, left, copied, granted);
      Less(Rank(s', s'.tasks[t]), Rank(s, Page(job, left, copied)))
  {
    if left != 0 && PageStart(s.info) < |job.image| {
      assert s.info < |job.image| + PAGE_SIZE;
    }
  }

  /** Every step of the owner lowers its rank, or is the unlock. */
  lemma OwnerDescends(s: State, t: nat, reply: Reply, granted: bool)
    requires t in s.tasks && Held(s.tasks[t]) && OwnerOk(s, s.tasks[t]) && Step(s, t, reply, granted).Some?
    ensures var s' := Step(s, t, reply, granted).value;
      if s.tasks[t].Unlock? then s'.holder == None else Less(Rank(s', s'.tasks[t]), Rank(s, s.tasks[t]))
  {
    var pc := s.tasks[t];
    if pc.Write? || pc.Size? || pc.Copy? || pc.Page? {
      CallbackDescends(s, t, granted);
    } else {
      PlainDescends(s, t, reply, granted);
    }
  }

  /** The same for the steps outside a callback. */
  lemma PlainDescends(s: State, t: nat, reply: Reply, granted: bool)
    requires t in s.tasks && Held(s.tasks[t]) && Step(s, t, reply, granted).Some?
    requires var pc := s.tasks[t]; !pc.Write? && !pc.Size? && !pc.Copy? && !pc.Page?
    ensures var s' := Step(s, t, reply, granted).value;
      if s.tasks[t].Unlock? then s'.holder == None else Less(Rank(s', s'.tasks[t]), Rank(s, s.tasks[t]))
  {
  }

  /** What one action takes off the rank of the owner. */
  lemma ActionDescends(s: State, a: Action, s': State, t: nat)
    requires Inv(s) && Next(s, a) == Some(s') && s.holder == Some(t) == s'.holder
    ensures t in s.tasks && t in s'.tasks
    ensures if a.Run? && a.task == t then Less(Rank(s', s'.tasks[t]), Rank(s, s.tasks[t]))
            else Rank(s', s'.tasks[t]) == Rank(s, s.tasks[t])
  {
    if a.Run? && a.task == t {
      assert Held(s.tasks[t]) <==> s.holder == Some(t);
      StepFramed(s, t, a.reply, a.granted);
      OwnerDescends(s, t, a.reply, a.granted);
    } else {
      OthersKeepRank(s, a, t);
    }
  }

  /** No other action changes the owner's position or rank. */
  lemma OthersKeepRank(s: State, a: Action, t: nat)
    requires Inv(s) && s.holder == Some(t) && Next(s, a).Some? && !(a.Run? && a.task == t)
    ensures var s' := Next(s, a).value;
      s'.holder == Some(t) && t in s'.tasks && s'.tasks[t] == s.tasks[t] && Rank(s', s'.tasks[t]) == Rank(s, s.tasks[t])
  {
    var s' := Next(s, a).value;
    if a.Run? {
      assert Held(s.tasks[a.task]) <==> s.holder == Some(a.task);
      StepFramed(s, a.task, a.reply, a.granted);
    }
    assert s'.info == s.info;
  }

  /** The steps that task t takes from action i up to action j. */
  function StepsOf(actions: seq<Action>, t: nat, i: nat, j: nat): nat
    requires i <= j <= |actions|
    decreases j - i
  {
    if i == j then 0
    else (if actions[i].Run? && actions[i].task == t then 1 else 0) + StepsOf(actions, t, i + 1, j)
  }

  /** Once the image is known, the owner takes no more steps under the lock than its rank says,
      whatever the others do in between. */
  lemma {:induction false} HoldIsBounded(states: seq<State>, actions: seq<Action>, t: nat, i: nat, j: nat)
    requires IsRun(states, actions) && i <= j <= |actions|
    requires forall k :: i <= k <= j ==> states[k].holder == Some(t)
    requires t in states[i].tasks && Rank(states[i], states[i].tasks[t]).0 == 0
    ensures StepsOf(actions, t, i, j) <= Rank(states[i], states[i].tasks[t]).1
    decreases j - i
  {
    if i < j {
      InvHolds(states, actions, i);
      assert states[i + 1].holder == Some(t);
      ActionDescends(states[i], actions[i], states[i + 1], t);
      HoldIsBounded(states, actions, t, i + 1, j);
    }
  }

  /** The owner of the lock can always go on, unless it has run beyond the pages; so with the bound
      above every load that takes the lock and keeps to the pages reaches its unlock. */
  lemma OwnerCanStep(states: seq<State>, actions: seq<Action>, i: nat, t: nat, reply: Reply, granted: bool)
    requires IsRun(states, actions) && i <= |actions| && states[i].holder == Some(t)
    requires reply.Missing? ==> reply.err != 0
    ensures t in states[i].tasks
    ensures Next(states[i], Run(t, reply, granted)).Some? <==> !states[i].tasks[t].Stray?
  {
    InvHolds(states, actions, i);
    assert Held(states[i].tasks[t]) <==> states[i].holder == Some(t);
    OwnerMoves(states[i], t, reply, granted);
  }

  /** Every callback that lets the loop go on has brought the count closer to the total. */
  lemma LoopProgress(states: seq<State>, actions: seq<Action>, i: nat, t: nat)
    requires IsRun(states, actions) && i < |actions| && t in states[i].tasks && t in states[i + 1].tasks
    requires (states[i].tasks[t].Copy? || states[i].tasks[t].Page?) && states[i + 1].tasks[t].Nap?
    ensures states[i + 1].total == states[i].total
    ensures 0 <= states[i + 1].total - states[i + 1].current < states[i].total - states[i].current
  {
    InvHolds(states, actions, i);
    InvHolds(states, actions, i + 1);
    CountsOn(states[i], actions[i], states[i + 1], t);
    NapCounts(states[i + 1], t);
  }

  lemma NapCounts(s: State, t: nat)
    requires Inv(s) && t in s.tasks && s.tasks[t].Nap?
    ensures s.current <= s.total || s.current == 0
  {
    assert Held(s.tasks[t]) <==> s.holder == Some(t);
  }

  /** Only the task's own step takes it from a copy to the nap. */
  lemma CountsOn(s: State, a: Action, s': State, t: nat)
    requires Inv(s) && Next(s, a) == Some(s') && t in s.tasks && t in s'.tasks
    requires (s.tasks[t].Copy? || s.tasks[t].Page?) && s'.tasks[t].Nap?
    ensures s'.total == s.total && s'.current > s.current
  {
    assert Held(s.tasks[t]) <==> s.holder == Some(t);
    if a.Run? && a.task == t {
      CallbackCounts(s, t, a.granted, s');
    } else {
      OthersKeepRank(s, a, t);
    }
  }

  lemma CallbackCounts(s: State, t: nat, granted: bool, s': State)
    requires t in s.tasks && (s.tasks[t].Copy? || s.tasks[t].Page?)
    requires StepCallback(s, t, granted) == Some(s') && s'.tasks[t].Nap?
    ensures s'.total == s.total && s'.current > s.current
  {
  }
}
