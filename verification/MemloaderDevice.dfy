/** The memloader as the driver runs it: physical memory and its byte count change in place. */
module MemloaderDevice {
  import opened Common
  import opened MemloaderCore

  class Memloader {
    var mem: array<Byte>
    var infoCount: int

    /** memloader_load: map and copy forward, or refuse. */
    method Load(at: nat, data: seq<Byte>, count: int, granted: bool) returns (ret: int)
      requires count <= |data|
      modifies mem
      ensures (mem[..], ret) == LoadPiece(old(mem[..]), at, data, count, granted)
    {
      if count <= 0 {
        return -EINVAL;
      }
      if !granted || at + count > mem.Length {
        return -EBUSY;
      }
      Copy(mem, at, data[..count]);
      return count;
    }

    /** One round of the page loop: it leaves a page less to write, or gives up. */
    method CopyPage(image: seq<Byte>, base: nat, count: int, left: nat, ghost copied: nat, ghost goal: Outcome)
      returns (ret: int)
      requires count != 0 && PageLoopIs(image, base, mem[..], infoCount, count, left, copied, goal)
      requires PageStart(infoCount) < |image|
      modifies this`infoCount, mem
      ensures ret > 0 ==> && left > 0 && infoCount == old(infoCount) + ret
                          && PageLoopIs(image, base, mem[..], infoCount, count - ret, left - 1, copied + ret, goal)
      ensures ret <= 0 ==> goal == Outcome(mem[..], infoCount, -ENOMEM)
    {
      var n := PageCount(count);
      ret := Load(base + infoCount, PageBytes(image, infoCount, n), n, left > 0);
      PageRound(image, base, old(mem[..]), infoCount, count, left, copied, mem[..], ret);
      if ret > 0 {
        infoCount := infoCount + ret;
      }
    }

    /** The page loop of memloader_write; None when it goes beyond the pages. */
    method WritePages(image: seq<Byte>, base: nat, chunk: int, grants: nat) returns (ret: Option<int>)
      requires 0 <= infoCount && (chunk >= 0 ==> infoCount + chunk <= |image|)
      modifies this`infoCount, mem
      ensures ret == None ==> PageLoop(image, base, old(mem[..]), old(infoCount), chunk, grants, 0) == Astray
      ensures ret.Some? ==> Outcome(mem[..], infoCount, ret.value)
                            == PageLoop(image, base, old(mem[..]), old(infoCount), chunk, grants, 0)
    {
      ghost var goal := PageLoop(image, base, mem[..], infoCount, chunk, grants, 0);
      var count: int, left: nat, totalCopy: nat := chunk, grants, 0;
      while count != 0
        invariant PageLoopIs(image, base, mem[..], infoCount, count, left, totalCopy, goal)
        decreases |image| + PAGE_SIZE - infoCount
      {
        if PageStart(infoCount) >= |image| {
          PageLoopEnds(image, base, mem[..], infoCount, count, left, totalCopy);
          return None;
        }
        var r := CopyPage(image, base, count, left, totalCopy, goal);
        if r <= 0 {
          return Some(-ENOMEM);
        }
        count, totalCopy, left := count - r, totalCopy + r, left - 1;
      }
      PageLoopEnds(image, base, mem[..], infoCount, count, left, totalCopy);
      return Some(totalCopy);
    }

    /** memloader_write. */
    method Write(src: Source, image: seq<Byte>, base: nat, current: int, total: int, blocksize: int, grants: nat)
      returns (ret: Option<int>)
      requires WriteReady(image, infoCount, current, total)
      modifies this`infoCount, mem
      ensures var o := WriteChunk(src, image, base, old(mem[..]), old(infoCount), current, total, blocksize, grants);
        match ret case None => o == Astray case Some(r) => o == Outcome(mem[..], infoCount, r)
    {
      var remaint := total - current;
      var count := remaint;
      if blocksize != 0 {
        count := blocksize;
      }
      if count > remaint {
        count := remaint;
      }
      match src
      case Mapped =>
        var r := Load(base + current, image[current..], count, grants > 0);
        if r > 0 {
          infoCount := infoCount + r;
        }
        ret := Some(r);
      case Pages =>
        ret := WritePages(image, base, count, grants);
      case Absent =>
        ret := Some(-EINVAL);
    }

    /** One round of the load loop at full grants. */
    method LoadBlock(src: Source, image: seq<Byte>, base: nat, current: nat, blocksize: nat, ghost mem0: seq<Byte>)
      returns (ret: int)
      requires src != Absent && infoCount == current < |image| && base + |image| <= |mem0|
      requires Loaded(mem0, base, image, current, mem[..]) && Regular(src, |image|, current, blocksize)
      modifies this`infoCount, mem
      ensures 0 < ret <= |image| - current && infoCount == current + ret
      ensures Loaded(mem0, base, image, current + ret, mem[..]) && Regular(src, |image|, current + ret, blocksize)
    {
      LoadRound(src, mem0, image, base, mem[..], current, blocksize);
      var r := Write(src, image, base, current, |image|, blocksize, |image|);
      ret := r.value;
    }

    /** The load loop of fw_load_device_firmware when no mapping is refused and nobody cancels:
        it ends, with the whole image at `base` and nothing else changed, from one piece or from
        pages whenever every block starts on a page boundary. */
    method LoadFirmware(src: Source, image: seq<Byte>, base: nat, blocksize: nat) returns (current: nat)
      requires src != Absent && base + |image| <= mem.Length
      requires Regular(src, |image|, 0, blocksize)
      modifies this`infoCount, mem
      ensures current == infoCount == |image|
      ensures mem[..] == Overwrite(old(mem[..]), base, image)
    {
      infoCount := 0;
      current := 0;
      ghost var mem0 := mem[..];
      while current < |image|
        modifies this`infoCount, mem
        invariant infoCount == current <= |image|
        invariant Loaded(mem0, base, image, current, mem[..])
        invariant Regular(src, |image|, current, blocksize)
        decreases |image| - current
      {
        var ret := LoadBlock(src, image, base, current, blocksize, mem0);
        current := current + ret;
      }
      assert image[..|image|] == image;
    }
  }
}
