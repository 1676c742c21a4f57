/**
 The bounded byte queue that the gfifo driver promises to its callers, as an
 atomic object: a call is invoked, takes effect in one indivisible step on the
 queue, and returns what that step decided.
 */
module GfifoQueue {
  import opened Common

  datatype Request =
    | Read(size: nat, nonblock: bool)
    | Write(data: seq<Byte>, nonblock: bool)
    | Clear
    | Poll

  datatype Errno = EAGAIN | EFAULT | ERESTARTSYS

  datatype Result =
    | Bytes(got: seq<Byte>)
    | Count(n: nat)
    | Ack
    | Mask(readable: bool, writable: bool)
    | Failed(errno: Errno)

  /** `unsigned int count = size`: only the low 32 bits of the request count. */
  function Truncate32(size: nat): nat {
    size % TWO_32
  }

  function ReadCount(size: nat, len: nat): nat {
    Min(Truncate32(size), len)
  }

  function WriteCount(size: nat, room: nat): nat {
    Min(Truncate32(size), room)
  }

  /** The effect of one call on a queue of capacity `cap` holding q. A user copy faults only when
      there is something to copy. */
  predicate Effect(cap: nat, q: seq<Byte>, req: Request, res: Result, q': seq<Byte>) {
    match req
    case Read(size, nonblock) =>
      (match res
       case Bytes(got) => q != [] && |got| == ReadCount(size, |q|) && q == got + q'
       case Failed(EAGAIN) => q' == q == [] && nonblock
       case Failed(ERESTARTSYS) => q' == q && !nonblock
       case Failed(EFAULT) => q' == q && ReadCount(size, |q|) > 0
       case _ => false)
    case Write(data, nonblock) =>
      (match res
       case Count(n) => |q| < cap && n == WriteCount(|data|, cap - |q|) <= |data| && q' == q + data[..n]
       case Failed(EAGAIN) => q' == q && |q| == cap && nonblock
       case Failed(ERESTARTSYS) => q' == q && !nonblock
       case Failed(EFAULT) => q' == q && |q| < cap && WriteCount(|data|, cap - |q|) > 0
       case _ => false)
    case Clear => res == Ack && q' == Zeros(|q|)
    case Poll => res == Mask(q != [], |q| != cap) && q' == q
  }

  // Calls in progress: what each task has asked for and what it is owed.
  datatype Status = Free | Called(req: Request) | Decided(res: Result)

  datatype Event =
    | Silent
    | Call(task: nat, req: Request)
    | Act(task: nat, req: Request, res: Result)
    | Return(task: nat, res: Result)

  datatype Atomic = Atomic(q: seq<Byte>, calls: map<nat, Status>)

  /** The transitions of the atomic object: a call is decided exactly once, between its
      invocation and its return, and returns exactly what was decided. */
  predicate AtomicStep(cap: nat, a: Atomic, e: Event, a': Atomic) {
    match e
    case Silent => a' == a
    case Call(t, req) =>
      t in a.calls && a.calls[t] == Free && a' == Atomic(a.q, a.calls[t := Called(req)])
    case Act(t, req, res) =>
      && t in a.calls && a.calls[t] == Called(req)
      && Effect(cap, a.q, req, res, a'.q) && a'.calls == a.calls[t := Decided(res)]
    case Return(t, res) =>
      t in a.calls && a.calls[t] == Decided(res) && a' == Atomic(a.q, a.calls[t := Free])
  }

  /** A history of atomic states, one per event plus the first. */
  ghost predicate AtomicRun(cap: nat, history: seq<Atomic>, events: seq<Event>) {
    && |history| == |events| + 1
    && history[0].q == []
    && forall i :: 0 <= i < |events| ==> AtomicStep(cap, history[i], events[i], history[i + 1])
  }

  // Ledgers kept by an outside observer of the events.

  function DeliveredBytes(events: seq<Event>): seq<Byte> {
    if events == [] then [] else
      var before := DeliveredBytes(events[..|events| - 1]);
      var e := events[|events| - 1];
      if e.Act? && e.req.Read? && e.res.Bytes? then before + e.res.got else before
  }

  /** Every byte accepted so far, in order; a byte still pending when the memory is cleared
      counts as a zero from then on. */
  function AcceptedBytes(events: seq<Event>): seq<Byte> {
    if events == [] then [] else
      var past := events[..|events| - 1];
      var before := AcceptedBytes(past);
      var e := events[|events| - 1];
      if !e.Act? then before
      else if e.req.Write? && e.res.Count? && e.res.n <= |e.req.data| then before + e.req.data[..e.res.n]
      else if e.req.Clear? && |DeliveredBytes(past)| <= |before| then
        before[..|DeliveredBytes(past)|] + Zeros(|before| - |DeliveredBytes(past)|)
      else before
  }

  /** One event keeps the ledgers in balance. */
  lemma EventConserves(cap: nat, past: seq<Event>, a: Atomic, e: Event, a': Atomic)
    requires AcceptedBytes(past) == DeliveredBytes(past) + a.q && |a.q| <= cap && AtomicStep(cap, a, e, a')
    ensures AcceptedBytes(past + [e]) == DeliveredBytes(past + [e]) + a'.q && |a'.q| <= cap
  {
    var accepted, delivered := AcceptedBytes(past), DeliveredBytes(past);
    assert (past + [e])[..|past|] == past;
    if e.Act? {
      match e.req
      case Read(_, _) =>
        if e.res.Bytes? {
          assert delivered + a.q == delivered + e.res.got + a'.q;
        }
      case Write(data, _) =>
        if e.res.Count? {
          assert accepted + data[..e.res.n] == delivered + a'.q;
        }
      case Clear =>
        assert accepted[..|delivered|] == delivered;
        assert DeliveredBytes(past + [e]) == delivered;
      case Poll =>
    }
  }

  /** Conservation: what was accepted is what was delivered followed by what is pending. */
  lemma {:induction false} BytesAreConserved(cap: nat, history: seq<Atomic>, events: seq<Event>)
    requires AtomicRun(cap, history, events)
    ensures AcceptedBytes(events) == DeliveredBytes(events) + history[|events|].q
    ensures |history[|events|].q| <= cap
  {
    if events != [] {
      var n := |events| - 1;
      var past := events[..n];
      BytesAreConserved(cap, history[..n + 1], past);
      EventConserves(cap, past, history[n], events[n], history[n + 1]);
      assert events == past + [events[n]];
    }
  }
}
