/**
 LEDs that share registers, set directly or through a work queue.
 */
module Leds {
  import opened Registers

  /** One LED: its register, its bits, its polarity, and whether it may be accessed. */
  datatype Led = Led(reg: nat, mask: Word, activeLow: bool, disabled: bool)

  type Regs = seq<Word>

  /** dev_read_modify_write: read, update, always write. */
  const FORCED: Options := Options(false, false, true)

  /** The register exists and has the width of the LED's mask. */
  predicate Fits(regs: Regs, led: Led) {
    led.reg < |regs| && |regs[led.reg]| == |led.mask|
  }

  predicate AllFit(regs: Regs, leds: seq<Led>) {
    forall i :: 0 <= i < |leds| ==> Fits(regs, leds[i])
  }

  /** _dev_leds_brightness_set: `on` is a nonzero brightness; an active low LED is on when its
      bits are clear. */
  function SetLed(regs: Regs, led: Led, on: bool): (r: Regs)
    requires Fits(regs, led)
    ensures |r| == |regs|
  {
    if led.disabled then regs
    else regs[led.reg := NewReg(regs[led.reg], led, on)]
  }

  function NewReg(r: Word, led: Led, on: bool): Word
    requires |r| == |led.mask|
  {
    Write(r, led.mask, if on == led.activeLow then Clear(|led.mask|) else led.mask, FORCED).0
  }

  /** _dev_leds_brightness_get: LED_FULL or not; a disabled LED reads as bits all clear. */
  predicate ReadsFull(regs: Regs, led: Led)
    requires Fits(regs, led)
  {
    var reg := !led.disabled && NonZero(And(regs[led.reg], led.mask));
    !((reg && led.activeLow) || (!reg && !led.activeLow))
  }

  /** Every LED that is not disabled has bits, and LEDs in one register have different ones. */
  predicate Separate(regs: Regs, leds: seq<Led>) {
    && AllFit(regs, leds)
    && (forall i :: 0 <= i < |leds| && !leds[i].disabled ==> NonZero(leds[i].mask))
    && (forall i, j :: 0 <= i < |leds| && 0 <= j < |leds| && i != j && leds[i].reg == leds[j].reg
                       ==> !NonZero(And(leds[i].mask, leds[j].mask)))
  }

  lemma SetKeepsFit(regs: Regs, leds: seq<Led>, j: nat, on: bool)
    requires AllFit(regs, leds) && j < |leds|
    ensures AllFit(SetLed(regs, leds[j], on), leds)
    ensures Separate(regs, leds) ==> Separate(SetLed(regs, leds[j], on), leds)
  {
    WriteBits(regs[leds[j].reg], leds[j].mask, leds[j].mask, FORCED);
    WriteBits(regs[leds[j].reg], leds[j].mask, Clear(|leds[j].mask|), FORCED);
  }

  datatype SetCall = SetCall(led: nat, on: bool)

  predicate ForLeds(leds: seq<Led>, calls: seq<SetCall>) {
    forall k :: 0 <= k < |calls| ==> calls[k].led < |leds|
  }

  /** The registers after a sequence of set calls. */
  function SetAll(regs: Regs, leds: seq<Led>, calls: seq<SetCall>): (r: Regs)
    requires AllFit(regs, leds) && ForLeds(leds, calls)
    ensures |r| == |regs|
    decreases |calls|
  {
    if calls == [] then regs else
      var regs' := SetLed(regs, leds[calls[0].led], calls[0].on);
      SetKeepsFit(regs, leds, calls[0].led, calls[0].on);
      SetAll(regs', leds, calls[1..])
  }

  /** The value an LED was last set to, or what it showed before. */
  predicate LastSet(calls: seq<SetCall>, i: nat, before: bool) {
    if calls == [] then before
    else LastSet(calls[1..], i, if calls[0].led == i then calls[0].on else before)
  }

  lemma OwnBits(r: Word, led: Led, on: bool)
    requires |r| == |led.mask| && NonZero(led.mask)
    ensures |NewReg(r, led, on)| == |r| && NonZero(And(NewReg(r, led, on), led.mask)) == (on != led.activeLow)
  {
    var value := if on == led.activeLow then Clear(|led.mask|) else led.mask;
    WriteBits(r, led.mask, value, FORCED);
    var r' := NewReg(r, led, on);
    if on != led.activeLow {
      var i :| 0 <= i < |led.mask| && led.mask[i];
      assert And(r', led.mask)[i];
    }
  }

  lemma OtherBits(r: Word, led: Led, on: bool, other: Word)
    requires |r| == |led.mask| == |other| && !NonZero(And(other, led.mask))
    ensures |NewReg(r, led, on)| == |r| && And(NewReg(r, led, on), other) == And(r, other)
  {
    WriteBits(r, led.mask, if on == led.activeLow then Clear(|led.mask|) else led.mask, FORCED);
    assert forall i :: 0 <= i < |other| ==> !And(other, led.mask)[i];
  }

  /** A disabled LED cannot be set, and reads as its polarity makes of bits that are clear. */
  lemma DisabledLed(regs: Regs, led: Led, on: bool)
    requires Fits(regs, led) && led.disabled
    ensures SetLed(regs, led, on) == regs && ReadsFull(regs, led) == led.activeLow
  {
  }

  /** Setting one LED sets that LED, unless it is disabled, and no other. */
  lemma SetOne(regs: Regs, leds: seq<Led>, i: nat, j: nat, on: bool)
    requires Separate(regs, leds) && i < |leds| && j < |leds|
    ensures Fits(SetLed(regs, leds[j], on), leds[i])
    ensures ReadsFull(SetLed(regs, leds[j], on), leds[i])
         == if leds[i].disabled then leds[i].activeLow else if i == j then on else ReadsFull(regs, leds[i])
  {
    SetKeepsFit(regs, leds, j, on);
    var led, r := leds[j], regs[leds[j].reg];
    if leds[i].disabled || led.disabled {
      return;
    }
    if i == j {
      OwnBits(r, led, on);
    } else if leds[i].reg == led.reg {
      OtherBits(r, led, on, leds[i].mask);
    }
  }

  /** After any sequence of set calls each LED shows its own last value, for either polarity; a
      disabled one shows what its polarity makes of clear bits. */
  lemma {:induction false} EachLedShowsItsLastValue(regs: Regs, leds: seq<Led>, calls: seq<SetCall>, i: nat)
    requires Separate(regs, leds) && ForLeds(leds, calls) && i < |leds|
    ensures Fits(SetAll(regs, leds, calls), leds[i])
    ensures ReadsFull(SetAll(regs, leds, calls), leds[i])
         == if leds[i].disabled then leds[i].activeLow else LastSet(calls, i, ReadsFull(regs, leds[i]))
    decreases |calls|
  {
    if calls != [] {
      var c := calls[0];
      SetOne(regs, leds, i, c.led, c.on);
      SetKeepsFit(regs, leds, c.led, c.on);
      EachLedShowsItsLastValue(SetLed(regs, leds[c.led], c.on), leds, calls[1..], i);
    }
  }

  // The work queue: callers append work items while a worker takes them from the front.

  datatype Queued = Queued(regs: Regs, queue: seq<SetCall>)

  datatype QueueAction = Submit(call: SetCall) | Work

  function QueueStep(s: Queued, leds: seq<Led>, a: QueueAction): Queued {
    match a
    case Submit(call) => Queued(s.regs, s.queue + [call])
    case Work =>
      if s.queue == [] || s.queue[0].led >= |leds| || !Fits(s.regs, leds[s.queue[0].led]) then s
      else Queued(SetLed(s.regs, leds[s.queue[0].led], s.queue[0].on), s.queue[1..])
  }

  function QueueRun(s: Queued, leds: seq<Led>, actions: seq<QueueAction>): Queued
    decreases |actions|
  {
    if actions == [] then s else QueueRun(QueueStep(s, leds, actions[0]), leds, actions[1..])
  }

  /** The calls submitted, in order. */
  function Submitted(actions: seq<QueueAction>): seq<SetCall> {
    if actions == [] then []
    else if actions[0].Submit? then [actions[0].call] + Submitted(actions[1..])
    else Submitted(actions[1..])
  }

  /** However callers and worker interleave, what is in the registers plus what is still queued
      amounts to the direct calls; so once the queue is empty the registers are the same. */
  lemma {:induction false} QueueEqualsDirect(s: Queued, leds: seq<Led>, actions: seq<QueueAction>)
    requires AllFit(s.regs, leds) && ForLeds(leds, s.queue) && ForLeds(leds, Submitted(actions))
    ensures var end := QueueRun(s, leds, actions);
      && AllFit(end.regs, leds) && ForLeds(leds, end.queue)
      && SetAll(end.regs, leds, end.queue) == SetAll(s.regs, leds, s.queue + Submitted(actions))
    decreases |actions|
  {
    if actions == [] {
      assert s.queue + Submitted(actions) == s.queue;
    } else {
      var s' := QueueStep(s, leds, actions[0]);
      var rest := Submitted(actions[1..]);
      assert ForLeds(leds, rest) by {
        if actions[0].Submit? {
          assert rest == Submitted(actions)[1..];
        }
      }
      if actions[0].Submit? {
        assert actions[0].call == Submitted(actions)[0];
        assert s'.queue + rest == s.queue + Submitted(actions);
        assert ForLeds(leds, s'.queue);
      } else if s.queue != [] {
        assert s.queue[0].led < |leds|;
        SetKeepsFit(s.regs, leds, s.queue[0].led, s.queue[0].on);
        assert (s.queue + rest)[1..] == s'.queue + rest;
      }
      QueueEqualsDirect(s', leds, actions[1..]);
    }
  }

  /** The LED driver: registers in place, and a queue when one is configured. */
  class LedDriver {
    const leds: seq<Led>
    const useWorkqueue: bool
    var regs: Regs
    var queue: seq<SetCall>

    ghost predicate Valid()
      reads this
    {
      AllFit(regs, leds) && ForLeds(leds, queue)
    }

    constructor (regs: Regs, leds: seq<Led>, useWorkqueue: bool)
      requires AllFit(regs, leds)
      ensures Valid() && this.regs == regs && this.leds == leds && this.useWorkqueue == useWorkqueue && queue == []
    {
      this.regs, this.leds, this.useWorkqueue, queue := regs, leds, useWorkqueue, [];
    }

    /** _dev_leds_brightness_set. */
    method SetNow(call: SetCall)
      requires Valid() && call.led < |leds|
      modifies this`regs
      ensures Valid() && regs == SetLed(old(regs), leds[call.led], call.on)
    {
      SetKeepsFit(regs, leds, call.led, call.on);
      var led := leds[call.led];
      if !led.disabled {
        if (call.on && led.activeLow) || (!call.on && !led.activeLow) {
          regs := regs[led.reg := Write(regs[led.reg], led.mask, Clear(|led.mask|), FORCED).0];
        } else {
          regs := regs[led.reg := Write(regs[led.reg], led.mask, led.mask, FORCED).0];
        }
      }
    }

    /** dev_leds_brightness_set: at once, or queued; either way the registers with everything
        queued applied change by exactly this call, unless earlier work is still waiting. */
    method BrightnessSet(call: SetCall)
      requires Valid() && call.led < |leds|
      modifies this`regs, this`queue
      ensures Valid()
      ensures useWorkqueue ==> regs == old(regs) && queue == old(queue) + [call]
      ensures !useWorkqueue ==> regs == SetLed(old(regs), leds[call.led], call.on) && queue == old(queue)
      ensures useWorkqueue || old(queue) == []
              ==> SetAll(regs, leds, queue) == SetAll(old(regs), leds, old(queue) + [call])
    {
      if useWorkqueue {
        queue := queue + [call];
      } else {
        SetNow(call);
      }
    }

    /** The worker runs dev_led_set_work until the queue is empty. */
    method Flush()
      requires Valid()
      modifies this`regs, this`queue
      ensures Valid() && queue == [] && regs == SetAll(old(regs), leds, old(queue))
    {
      while queue != []
        invariant Valid()
        invariant SetAll(regs, leds, queue) == SetAll(old(regs), leds, old(queue))
        decreases |queue|
      {
        var call := queue[0];
        queue := queue[1..];
        SetNow(call);
      }
    }
  }
}
