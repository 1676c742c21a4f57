/**
 The bodies of the gfifo file operations between mutex_lock and mutex_unlock, on
 the device's own buffer: an array updated in place. Each is one effect of the
 atomic queue.
 */
module GfifoDevice {
  import opened Common
  import opened GfifoQueue

  class Device {
    var mem: array<Byte>
    var curLen: nat

    ghost predicate Valid()
      reads this
    {
      curLen <= mem.Length
    }

    ghost function Contents(): seq<Byte>
      reads this, mem
      requires Valid()
    {
      mem[..curLen]
    }

    /** kzalloc of the device: an empty queue. */
    constructor (capacity: nat)
      ensures Valid() && fresh(mem) && mem.Length == capacity && Contents() == []
    {
      mem := new Byte[capacity](_ => 0);
      curLen := 0;
    }

    /** memcpy(mem, mem + count, curLen - count) as a forward byte loop over overlapping ranges. */
    method ShiftDown(count: nat)
      requires Valid() && count <= curLen
      modifies mem
      ensures mem[..curLen - count] == old(mem[count..curLen])
    {
      var i := 0;
      while i < curLen - count
        invariant 0 <= i <= curLen - count
        invariant mem[..i] == old(mem[count..count + i])
        invariant mem[i..] == old(mem[i..])
      {
        assert mem[count + i] == mem[i..][count] == old(mem[i..])[count];
        mem[i] := mem[count + i];
        assert mem[i + 1..] == old(mem[i + 1..]) by {
          assert forall k :: i + 1 <= k < mem.Length ==> mem[k] == old(mem[k]);
        }
        i := i + 1;
      }
    }

    /** gfifo_read under the mutex; None is the branch that goes to sleep. */
    method Read(size: nat, nonblock: bool, fault: bool) returns (res: Option<Result>)
      requires Valid()
      modifies this`curLen, mem
      ensures Valid()
      ensures res == None <==> old(curLen) == 0 && !nonblock
      ensures res == None ==> Contents() == old(Contents())
      ensures res.Some? ==> Effect(mem.Length, old(Contents()), GfifoQueue.Read(size, nonblock), res.value, Contents())
      ensures old(curLen) != 0 ==> res.Some? && (res.value.Bytes? <==> !fault || size % TWO_32 == 0)
    {
      if curLen == 0 {
        return if nonblock then Some(Failed(EAGAIN)) else None;
      }
      var count := Truncate32(size);
      if count > curLen {
        count := curLen;
      }
      if fault && count > 0 {
        return Some(Failed(EFAULT));
      }
      var got := mem[..count];
      ghost var q := Contents();
      ShiftDown(count);
      curLen := curLen - count;
      assert q == got + Contents();
      return Some(Bytes(got));
    }

    /** gfifo_write under the mutex; only the first `good` bytes of the user buffer are accessible. */
    method Write(data: seq<Byte>, nonblock: bool, good: nat) returns (res: Option<Result>)
      requires Valid()
      modifies this`curLen, mem
      ensures Valid()
      ensures res == None <==> old(curLen) == mem.Length && !nonblock
      ensures res == None ==> Contents() == old(Contents())
      ensures res.Some? ==> Effect(mem.Length, old(Contents()), GfifoQueue.Write(data, nonblock), res.value, Contents())
      ensures old(curLen) != mem.Length && WriteCount(|data|, mem.Length - old(curLen)) <= good
              ==> res.Some? && res.value.Count?
    {
      if curLen == mem.Length {
        return if nonblock then Some(Failed(EAGAIN)) else None;
      }
      var count := Truncate32(|data|);
      if count > mem.Length - curLen {
        count := mem.Length - curLen;
      }
      var i := 0;
      while i < count && i < good
        modifies mem
        invariant 0 <= i <= count && i <= good
        invariant mem[..curLen + i] == old(Contents()) + data[..i]
      {
        mem[curLen + i] := data[i];
        i := i + 1;
      }
      if i < count {
        assert Contents() == mem[..curLen + i][..curLen];
        return Some(Failed(EFAULT));
      }
      curLen := curLen + count;
      return Some(Count(count));
    }

    /** ioctl MEM_CLEAR under the mutex: the bytes become zero and stay pending. */
    method MemClear()
      requires Valid()
      modifies mem
      ensures Effect(mem.Length, old(Contents()), Clear, Ack, Contents())
      ensures mem[..] == Zeros(mem.Length)
    {
      var i := 0;
      while i < mem.Length
        invariant 0 <= i <= mem.Length && forall k :: 0 <= k < i ==> mem[k] == 0
      {
        mem[i] := 0;
        i := i + 1;
      }
    }

    /** gfifo_poll under the mutex. */
    method PollMask() returns (readable: bool, writable: bool)
      requires Valid()
      ensures Effect(mem.Length, Contents(), Poll, Mask(readable, writable), Contents())
    {
      readable := curLen != 0;
      writable := curLen != mem.Length;
    }
  }
}
