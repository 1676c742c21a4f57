/**
 The retry loop around read and write that several of the tools share: a call
 may move fewer bytes than asked, be interrupted, fail, or report the end.
 */
module Transfer {
  import opened Common

  /** What one call returns: some bytes (0: end of file), an error after which the tool calls again
      (EINTR, and in the relay also EAGAIN), or another error. */
  datatype Outcome = Took(n: nat) | Again | Broken

  datatype Status = Complete | Ended | Failed | Waiting

  /** The bytes that a run of calls moves out of `len`, and why the loop stops; `Waiting` when
      the calls listed are used up first. */
  function Drain(len: nat, calls: seq<Outcome>): (r: (nat, Status))
    ensures r.0 <= len
    ensures r.1 == Complete <==> r.0 == len
  {
    if len == 0 then (0, Complete)
    else if calls == [] then (0, Waiting)
    else match calls[0]
      case Took(n) =>
        if n == 0 then (0, Ended) else
          var moved := Min(n, len);
          var rest := Drain(len - moved, calls[1..]);
          (moved + rest.0, rest.1)
      case Again => Drain(len, calls[1..])
      case Broken => (0, Failed)
  }

  /** A call after which the loop does not go on. */
  predicate Final(c: Outcome) {
    c == Took(0) || c == Broken
  }

  /** How many calls come before the first final one. */
  function CallsBefore(calls: seq<Outcome>): (k: nat)
    ensures k <= |calls| && forall i :: 0 <= i < k ==> !Final(calls[i])
    ensures k < |calls| ==> Final(calls[k])
  {
    if calls == [] || Final(calls[0]) then 0 else 1 + CallsBefore(calls[1..])
  }

  function Sum(calls: seq<Outcome>): nat {
    if calls == [] then 0 else Sum(calls[1..]) + if calls[0].Took? then calls[0].n else 0
  }

  /** What the calls offer to move, up to the first final one. */
  function Total(calls: seq<Outcome>): nat {
    Sum(calls[..CallsBefore(calls)])
  }

  /** Why a loop that still has something to move ends. */
  function Reason(calls: seq<Outcome>): Status {
    var k := CallsBefore(calls);
    if k == |calls| then Waiting else if calls[k] == Broken then Failed else Ended
  }

  lemma OneCall(calls: seq<Outcome>)
    requires calls != [] && !Final(calls[0])
    ensures Total(calls) == Total(calls[1..]) + if calls[0].Took? then calls[0].n else 0
    ensures Reason(calls) == Reason(calls[1..])
  {
    var k := CallsBefore(calls[1..]);
    assert CallsBefore(calls) == k + 1 && calls[..k + 1][1..] == calls[1..][..k];
  }

  /** However the calls are cut up and interrupted, the loop moves all that they offer and there is
      to move, and is complete exactly when they offer enough. */
  lemma {:induction false} DrainExact(len: nat, calls: seq<Outcome>)
    ensures Drain(len, calls).0 == Min(len, Total(calls))
    ensures Drain(len, calls).1 == if Total(calls) >= len then Complete else Reason(calls)
    decreases |calls|
  {
    if len > 0 && calls != [] && !Final(calls[0]) {
      OneCall(calls);
      DrainExact(len - if calls[0].Took? then Min(calls[0].n, len) else 0, calls[1..]);
    }
  }

  /** An interruption anywhere changes nothing. */
  lemma {:induction false} AgainChangesNothing(len: nat, a: seq<Outcome>, b: seq<Outcome>)
    ensures Drain(len, a + [Again] + b) == Drain(len, a + b)
    decreases |a|
  {
    var with, without := a + [Again] + b, a + b;
    if a == [] {
      assert with[1..] == b == without;
    } else if len > 0 {
      assert with[1..] == a[1..] + [Again] + b && without[1..] == a[1..] + b;
      AgainChangesNothing(len - if a[0].Took? then Min(a[0].n, len) else 0, a[1..], b);
    }
  }

  /** The write loop: what has reached the other side is always a prefix of the buffer. */
  method WriteLoop(buf: seq<Byte>, calls: seq<Outcome>) returns (sent: seq<Byte>, status: Status)
    ensures (|sent|, status) == Drain(|buf|, calls)
    ensures sent == buf[..Min(|buf|, Total(calls))]
    ensures status == if Total(calls) >= |buf| then Complete else Reason(calls)
  {
    DrainExact(|buf|, calls);
    sent := [];
    var k := 0;
    while |sent| < |buf|
      invariant 0 <= k <= |calls| && |sent| <= |buf| && sent == buf[..|sent|]
      invariant var rest := Drain(|buf| - |sent|, calls[k..]); (|sent| + rest.0, rest.1) == Drain(|buf|, calls)
      decreases |calls| - k
    {
      if k == |calls| {
        return sent, Waiting;
      }
      assert calls[k..][1..] == calls[k + 1..];
      match calls[k] {
        case Took(n) =>
          if n == 0 {
            return sent, Ended;
          }
          sent := sent + buf[|sent|..|sent| + Min(n, |buf| - |sent|)];
        case Again =>
        case Broken =>
          return sent, Failed;
      }
      k := k + 1;
    }
    status := Complete;
  }
}
