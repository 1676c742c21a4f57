/**
 The memloader callbacks: copying a firmware image into physical memory in one
 piece or page by page. Physical memory is a byte string; ioremap fails outside
 it, and `grants` says how many mappings succeed before one is refused.
 */
module MemloaderCore {
  import opened Common

  const PAGE_SIZE: nat := 4096

  const EIO: int := 5
  const ENOMEM: int := 12
  const EBUSY: int := 16
  const EINVAL: int := 22

  /** Where request_firmware left the image: one mapped range, single pages, or nothing usable. */
  datatype Source = Mapped | Pages | Absent

  /** Memory, the driver's own byte count, and a callback's return value; or the callback reads
      beyond the pages of the image, and nothing is known any more. */
  datatype Outcome = Outcome(mem: seq<Byte>, info: int, ret: int) | Astray

  /** Bytes to write in one callback. */
  function ChunkSize(blocksize: int, remaining: int): int {
    Min(if blocksize != 0 then blocksize else remaining, remaining)
  }

  /** memloader_load: map `count` bytes and copy. */
  function LoadPiece(mem: seq<Byte>, at: nat, data: seq<Byte>, count: int, granted: bool): (r: (seq<Byte>, int))
    requires count <= |data|
    ensures |r.0| == |mem|
    ensures r.1 > 0 <==> count > 0 && granted && at + count <= |mem|
    ensures r.1 > 0 ==> r.1 == count
    ensures r.1 <= 0 ==> r.1 < 0 && r.0 == mem
  {
    if count <= 0 then (mem, -EINVAL)
    else if !granted || at + count > |mem| then (mem, -EBUSY)
    else (Overwrite(mem, at, data[..count]), count)
  }

  /** A positive count that is granted a mapping is stored, byte for byte, and no other byte
      changes; otherwise there is an error and nothing changes. */
  lemma LoadPieceStores(mem: seq<Byte>, at: nat, data: seq<Byte>, count: int, granted: bool)
    requires count <= |data|
    ensures var (m, r) := LoadPiece(mem, at, data, count, granted);
      if 0 < count && granted && at + count <= |mem|
      then && r == count && |m| == |mem| && m[at..at + count] == data[..count]
           && m[..at] == mem[..at] && m[at + count..] == mem[at + count..]
      else m == mem && r == if count <= 0 then -EINVAL else -EBUSY
  {
  }

  /** Where the page that byte `info` lies in starts. */
  function PageStart(info: nat): (r: nat)
    ensures r <= info < r + PAGE_SIZE
  {
    info / PAGE_SIZE * PAGE_SIZE
  }

  /** n bytes from the start of the page that byte `info` lies in; what the last page holds behind
      the image counts as zeros. */
  function PageBytes(image: seq<Byte>, info: nat, n: nat): (r: seq<Byte>)
    requires n <= PAGE_SIZE && PageStart(info) <= |image|
    ensures |r| == n
  {
    var page := PageStart(info);
    if page + n <= |image| then image[page..page + n] else (image + Zeros(PAGE_SIZE))[page..page + n]
  }

  /** `min_t(size_t, PAGE_SIZE, count)`: as a size_t, a negative count is larger than a page. */
  function PageCount(count: int): (n: nat)
    requires count != 0
    ensures 0 < n <= PAGE_SIZE
  {
    if count < 0 then PAGE_SIZE else Min(PAGE_SIZE, count)
  }

  /** Two memories agree below an address. */
  predicate SameBelow(a: seq<Byte>, b: seq<Byte>, n: nat) {
    |a| == |b| && (if n <= |a| then a[..n] == b[..n] else a == b)
  }

  lemma SameBelowTwice(a: seq<Byte>, b: seq<Byte>, c: seq<Byte>, n: nat, m: nat)
    requires n <= m && SameBelow(a, b, n) && SameBelow(b, c, m)
    ensures SameBelow(a, c, n)
  {
    if m <= |b| {
      assert b[..n] == b[..m][..n] && c[..n] == c[..m][..n];
    }
  }

  /** Copying a piece changes nothing below it. */
  lemma LoadPieceKeeps(mem: seq<Byte>, at: nat, data: seq<Byte>, count: int, granted: bool)
    requires count <= |data|
    ensures SameBelow(mem, LoadPiece(mem, at, data, count, granted).0, at)
  {
  }

  /** The page loop of memloader_write: each round copies from the start of a page. */
  function PagedWrite(image: seq<Byte>, base: nat, mem: seq<Byte>, info: nat, count: nat, grants: nat,
                      copied: nat): (o: Outcome)
    requires info + count <= |image|
    ensures o.Outcome? && SameBelow(mem, o.mem, base + info) && (o.ret == -ENOMEM || o.ret == copied + count)
    decreases count
  {
    if count == 0 then Outcome(mem, info, copied) else
      var n := PageCount(count);
      var (m, r) := LoadPiece(mem, base + info, PageBytes(image, info, n), n, grants > 0);
      if r > 0 then
        var o := PagedWrite(image, base, m, info + n, count - n, grants - 1, copied + n);
        LoadPieceKeeps(mem, base + info, PageBytes(image, info, n), n, grants > 0);
        SameBelowTwice(mem, m, o.mem, base + info, base + info + n);
        o
      else Outcome(mem, info, -ENOMEM)
  }

  /** The page loop with a negative count: it never counts down to zero. */
  function Overrun(image: seq<Byte>, base: nat, mem: seq<Byte>, info: nat, grants: nat): (o: Outcome)
    ensures o.Astray? || (o.ret == -ENOMEM && |o.mem| == |mem|)
    decreases |image| + PAGE_SIZE - info
  {
    if PageStart(info) >= |image| then Astray else
      var (m, r) := LoadPiece(mem, base + info, PageBytes(image, info, PAGE_SIZE), PAGE_SIZE, grants > 0);
      if r > 0 then Overrun(image, base, m, info + PAGE_SIZE, grants - 1)
      else Outcome(mem, info, -ENOMEM)
  }

  /** The page loop for a count of either sign. */
  function PageLoop(image: seq<Byte>, base: nat, mem: seq<Byte>, info: nat, count: int, grants: nat,
                    copied: nat): (o: Outcome)
    requires count >= 0 ==> info + count <= |image|
    ensures count >= 0 ==> o.Outcome?
    ensures o.Outcome? ==> |o.mem| == |mem| && (count >= 0 ==> SameBelow(mem, o.mem, base + info))
  {
    if count >= 0 then PagedWrite(image, base, mem, info, count, grants, copied)
    else Overrun(image, base, mem, info, grants)
  }

  predicate PageLoopIs(image: seq<Byte>, base: nat, mem: seq<Byte>, info: int, count: int, grants: nat, copied: nat,
                       o: Outcome) {
    && info >= 0 && (count >= 0 ==> info + count <= |image|)
    && o == PageLoop(image, base, mem, info, count, grants, copied)
  }

  /** What one round of the page loop leaves to do. */
  lemma PageRound(image: seq<Byte>, base: nat, mem: seq<Byte>, info: nat, count: int, grants: nat, copied: nat,
                  m: seq<Byte>, r: int)
    requires count != 0 && (count > 0 ==> info + count <= |image|) && PageStart(info) < |image|
    requires var n := PageCount(count);
      (m, r) == LoadPiece(mem, base + info, PageBytes(image, info, n), n, grants > 0)
    ensures PageLoop(image, base, mem, info, count, grants, copied)
         == if r > 0 then PageLoop(image, base, m, info + r, count - r, grants - 1, copied + r)
            else Outcome(mem, info, -ENOMEM)
  {
  }

  /** The loop is over when there is nothing left to count, or no page left to read. */
  lemma PageLoopEnds(image: seq<Byte>, base: nat, mem: seq<Byte>, info: nat, count: int, grants: nat, copied: nat)
    requires count <= 0 && (count == 0 ==> info <= |image|)
    ensures count == 0 ==> PageLoop(image, base, mem, info, count, grants, copied) == Outcome(mem, info, copied)
    ensures count < 0 && PageStart(info) >= |image|
            ==> PageLoop(image, base, mem, info, count, grants, copied) == Astray
  {
  }

  predicate WriteReady(image: seq<Byte>, info: int, current: int, total: int) {
    0 <= current < total <= |image| && info == current
  }

  /** memloader_write. */
  function WriteChunk(src: Source, image: seq<Byte>, base: nat, mem: seq<Byte>, info: int, current: int, total: int,
                      blocksize: int, grants: nat): (o: Outcome)
    requires WriteReady(image, info, current, total)
    ensures src != Pages || blocksize >= 0 ==> o.Outcome? && SameBelow(mem, o.mem, base + current)
    ensures o.Outcome? ==> |o.mem| == |mem|
  {
    var count := ChunkSize(blocksize, total - current);
    LoadPieceKeeps(mem, base + current, image[current..], count, grants > 0);
    match src
    case Mapped =>
      var (m, r) := LoadPiece(mem, base + current, image[current..], count, grants > 0);
      Outcome(m, if r > 0 then info + r else info, r)
    case Pages => PageLoop(image, base, mem, info, count, grants, 0)
    case Absent => Outcome(mem, info, -EINVAL)
  }

  /** memloader_end. */
  function End(info: int, current: int): int {
    if info != current then -EIO else 0
  }

  /** The first n bytes of the image are at `base`, everything else is as in mem0. */
  predicate Loaded(mem0: seq<Byte>, base: nat, image: seq<Byte>, n: nat, mem: seq<Byte>) {
    n <= |image| && (if n == 0 then mem == mem0 else base + n <= |mem0| && mem == Overwrite(mem0, base, image[..n]))
  }

  lemma LoadedExtends(mem0: seq<Byte>, base: nat, image: seq<Byte>, n: nat, mem: seq<Byte>, count: nat)
    requires Loaded(mem0, base, image, n, mem) && 0 < count && n + count <= |image| && base + n + count <= |mem|
    ensures Loaded(mem0, base, image, n + count, Overwrite(mem, base + n, image[n..n + count]))
  {
    var mem' := Overwrite(mem, base + n, image[n..n + count]);
    assert mem' == Overwrite(mem0, base, image[..n + count]);
  }

  predicate Aligned(n: int) {
    n >= 0 && n % PAGE_SIZE == 0
  }

  /** The page loop from byte `info` on has outcome o. */
  predicate PagesEndWith(image: seq<Byte>, base: nat, mem: seq<Byte>, info: nat, count: nat, grants: nat, copied: nat,
                         o: Outcome) {
    info + count <= |image| && o == PagedWrite(image, base, mem, info, count, grants, copied)
  }

  /** One round of the page loop from a page boundary copies the bytes that belong there. */
  lemma AlignedRound(image: seq<Byte>, base: nat, mem: seq<Byte>, info: nat, count: nat, grants: nat, copied: nat,
                     o: Outcome)
    returns (m: seq<Byte>)
    requires 0 < count && Aligned(info) && PagesEndWith(image, base, mem, info, count, grants, copied, o)
    ensures var n := PageCount(count);
      if grants > 0 && base + info + n <= |mem|
      then && m == Overwrite(mem, base + info, image[info..info + n])
           && PagesEndWith(image, base, m, info + n, count - n, grants - 1, copied + n, o)
      else o == Outcome(mem, info, -ENOMEM)
  {
    var n := PageCount(count);
    AlignedPage(image, info, n);
    assert image[info..info + n][..n] == image[info..info + n];
    m := LoadPiece(mem, base + info, PageBytes(image, info, n), n, grants > 0).0;
  }

  /** At a page boundary the start of the page is the byte that is due. */
  lemma AlignedPage(image: seq<Byte>, info: nat, n: nat)
    requires n <= PAGE_SIZE && info + n <= |image| && Aligned(info)
    ensures PageBytes(image, info, n) == image[info..info + n]
  {
    assert PageStart(info) == info;
  }

  lemma OverwriteTwice(mem: seq<Byte>, at: nat, image: seq<Byte>, from: nat, n: nat, count: nat)
    requires n <= count && from + count <= |image| && at + count <= |mem|
    ensures Overwrite(Overwrite(mem, at, image[from..from + n]), at + n, image[from + n..from + count])
         == Overwrite(mem, at, image[from..from + count])
  {
  }

  /** The outcome of copying `count` bytes of the image from byte `info` on, unless it fails. */
  predicate Copied(image: seq<Byte>, base: nat, mem: seq<Byte>, info: nat, count: nat, copied: nat, o: Outcome)
    requires info + count <= |image|
  {
    o.Outcome? && o.ret >= 0 ==>
      && o.ret == copied + count && o.info == info + count && base + info + count <= |mem|
      && o.mem == Overwrite(mem, base + info, image[info..info + count])
  }

  lemma CopiedTwice(image: seq<Byte>, base: nat, mem: seq<Byte>, info: nat, n: nat, count: nat, copied: nat, o: Outcome)
    requires n <= count && info + count <= |image| && base + info + n <= |mem|
    requires Copied(image, base, Overwrite(mem, base + info, image[info..info + n]), info + n, count - n, copied + n, o)
    ensures Copied(image, base, mem, info, count, copied, o)
  {
    if o.Outcome? && o.ret >= 0 {
      assert base + (info + n) == base + info + n && info + n + (count - n) == info + count;
      OverwriteTwice(mem, base + info, image, info, n, count);
    }
  }

  /** The last round, or one that fails. */
  lemma LastRoundCopies(image: seq<Byte>, base: nat, mem: seq<Byte>, info: nat, count: nat, grants: nat, copied: nat,
                        o: Outcome)
    requires 0 < count && Aligned(info) && PagesEndWith(image, base, mem, info, count, grants, copied, o)
    requires count <= PAGE_SIZE || grants == 0 || base + info + PAGE_SIZE > |mem|
    ensures Copied(image, base, mem, info, count, copied, o)
  {
    var m := AlignedRound(image, base, mem, info, count, grants, copied, o);
  }

  /** From a page boundary, the page loop fails or copies exactly the bytes it counts. */
  lemma {:induction false} PagedWriteCopies(image: seq<Byte>, base: nat, mem: seq<Byte>, info: nat, count: nat,
                                            grants: nat, copied: nat, o: Outcome)
    requires 0 < count && Aligned(info) && PagesEndWith(image, base, mem, info, count, grants, copied, o)
    ensures Copied(image, base, mem, info, count, copied, o)
    decreases count
  {
    if count <= PAGE_SIZE || grants == 0 || base + info + PAGE_SIZE > |mem| {
      LastRoundCopies(image, base, mem, info, count, grants, copied, o);
    } else {
      var m := AlignedRound(image, base, mem, info, count, grants, copied, o);
      AlignedSum(info, PAGE_SIZE);
      PagedWriteCopies(image, base, m, info + PAGE_SIZE, count - PAGE_SIZE, grants - 1, copied + PAGE_SIZE, o);
      CopiedTwice(image, base, mem, info, PAGE_SIZE, count, copied, o);
    }
  }

  /** From a page boundary, the page loop extends the loaded prefix by every byte it counts. */
  lemma PagedWriteLoads(mem0: seq<Byte>, image: seq<Byte>, base: nat, mem: seq<Byte>, info: nat, count: nat,
                        grants: nat, copied: nat)
    requires 0 < count && info + count <= |image| && Loaded(mem0, base, image, info, mem) && Aligned(info)
    ensures var o := PagedWrite(image, base, mem, info, count, grants, copied);
      || (o.ret == copied + count && o.info == info + count && Loaded(mem0, base, image, info + count, o.mem))
      || o.ret < 0
  {
    PagedWriteCopies(image, base, mem, info, count, grants, copied,
                     PagedWrite(image, base, mem, info, count, grants, copied));
    if PagedWrite(image, base, mem, info, count, grants, copied).ret >= 0 {
      LoadedExtends(mem0, base, image, info, mem, count);
    }
  }

  /** A granted range extends the loaded prefix. */
  lemma RangeLoads(mem0: seq<Byte>, image: seq<Byte>, base: nat, mem: seq<Byte>, current: nat, count: int,
                   granted: bool)
    requires current <= |image| && count <= |image| - current && Loaded(mem0, base, image, current, mem)
    ensures var copy := LoadPiece(mem, base + current, image[current..], count, granted);
      copy.1 > 0 ==> Loaded(mem0, base, image, current + count, copy.0)
  {
    var (m, r) := LoadPiece(mem, base + current, image[current..], count, granted);
    if r > 0 {
      assert image[current..][..count] == image[current..current + count];
      LoadedExtends(mem0, base, image, current, mem, count);
    }
  }

  /** A granted page at a page boundary extends the loaded prefix. */
  lemma AlignedPageLoads(mem0: seq<Byte>, image: seq<Byte>, base: nat, mem: seq<Byte>, info: nat, n: nat, granted: bool)
    requires 0 < n <= PAGE_SIZE && info + n <= |image| && Aligned(info) && Loaded(mem0, base, image, info, mem)
    ensures var copy := LoadPiece(mem, base + info, PageBytes(image, info, n), n, granted);
      copy.1 > 0 ==> Loaded(mem0, base, image, info + n, copy.0)
  {
    AlignedPage(image, info, n);
    var (m, r) := LoadPiece(mem, base + info, PageBytes(image, info, n), n, granted);
    if r > 0 {
      assert image[info..info + n][..n] == image[info..info + n];
      LoadedExtends(mem0, base, image, info, mem, n);
    }
  }

  /** One callback: it fails, or it extends the loaded prefix by the bytes it reports. */
  lemma WriteChunkLoads(src: Source, mem0: seq<Byte>, image: seq<Byte>, base: nat, mem: seq<Byte>, current: nat,
                        total: nat, blocksize: int, grants: nat)
    requires WriteReady(image, current, current, total)
    requires Loaded(mem0, base, image, current, mem)
    requires src == Pages ==> Aligned(current) && blocksize >= 0
    ensures var o := WriteChunk(src, image, base, mem, current, current, total, blocksize, grants);
      || (&& 0 < o.ret == ChunkSize(blocksize, total - current) && o.info == current + o.ret
          && Loaded(mem0, base, image, current + o.ret, o.mem))
      || o.ret < 0
  {
    var count := ChunkSize(blocksize, total - current);
    match src
    case Mapped => RangeLoads(mem0, image, base, mem, current, count, grants > 0);
    case Pages => PagedWriteLoads(mem0, image, base, mem, current, count, grants, 0);
    case Absent =>
  }

  /** What a callback wants to move: a block, or everything when there is no block size, but no more
      than is left. */
  function Wanted(blocksize: int, left: int): int {
    if blocksize == 0 || blocksize > left then left else blocksize
  }

  /** The callback, source by source: without a usable source it refuses; from one mapped range it
      moves all it wants or nothing, and says why; by pages it moves all it wants, fails with
      -ENOMEM, or goes astray, which takes a negative block size. */
  lemma WriteChunkExact(src: Source, image: seq<Byte>, base: nat, mem: seq<Byte>, current: nat, total: nat,
                        blocksize: int, grants: nat)
    requires WriteReady(image, current, current, total)
    ensures var o, n := WriteChunk(src, image, base, mem, current, current, total, blocksize, grants),
                        Wanted(blocksize, total - current);
      match src
      case Absent => o == Outcome(mem, current, -22)
      case Mapped =>
        if n <= 0 then o == Outcome(mem, current, -22)
        else if grants == 0 || base + current + n > |mem| then o == Outcome(mem, current, -16)
        else o == Outcome(Overwrite(mem, base + current, image[current..current + n]), current + n, n)
      case Pages => if o.Outcome? then o.ret == -12 || o.ret == n > 0 else n < 0
  {
    var n := Wanted(blocksize, total - current);
    if src == Mapped && n > 0 {
      assert image[current..][..n] == image[current..current + n];
    }
  }

  // The whole load loop when every mapping is granted and nobody cancels.

  /** How the loop ends: with all bytes of the image counted and 0, or with the outcome of the
      callback that failed or went astray. */
  function LoadLoop(src: Source, image: seq<Byte>, base: nat, mem: seq<Byte>, current: nat, blocksize: int)
    : (r: Outcome)
    requires src != Absent && current <= |image|
    ensures blocksize >= 0 ==> r.Outcome? && SameBelow(mem, r.mem, base + current)
    decreases |image| - current
  {
    if current == |image| then Outcome(mem, current, 0) else
      var o := WriteChunk(src, image, base, mem, current, current, |image|, blocksize, |image|);
      if o.Outcome? && 0 < o.ret <= |image| - current then
        var r := LoadLoop(src, image, base, o.mem, current + o.ret, blocksize);
        if blocksize >= 0 then
          SameBelowTwice(mem, o.mem, r.mem, base + current, base + current + o.ret);
          r
        else r
      else o
  }

  /** The loop from `current` on ends with r. */
  predicate EndsWith(src: Source, image: seq<Byte>, base: nat, mem: seq<Byte>, current: nat, blocksize: int,
                     r: Outcome) {
    src != Absent && current <= |image| && r == LoadLoop(src, image, base, mem, current, blocksize)
  }

  predicate Completed(image: seq<Byte>, r: Outcome) {
    r.Outcome? && r.info == |image| && r.ret == 0
  }

  /** The loop completes with the image in place and every other byte as in mem. */
  predicate Loads(src: Source, image: seq<Byte>, base: nat, mem: seq<Byte>, blocksize: int)
    requires src != Absent
  {
    var r := LoadLoop(src, image, base, mem, 0, blocksize);
    Completed(image, r) && Loaded(mem, base, image, |image|, r.mem)
  }

  /** Enough grants and enough memory: the page loop writes every byte. */
  lemma {:induction false} PagedWriteSucceeds(image: seq<Byte>, base: nat, mem: seq<Byte>, info: nat, count: nat,
                                              grants: nat, copied: nat)
    requires info + count <= |image| && base + info + count <= |mem| && count <= grants
    ensures var o := PagedWrite(image, base, mem, info, count, grants, copied);
      o.ret == copied + count && o.info == info + count && |o.mem| == |mem|
    decreases count
  {
    if count > 0 {
      var n := PageCount(count);
      var (m, r) := LoadPiece(mem, base + info, PageBytes(image, info, n), n, grants > 0);
      PagedWriteSucceeds(image, base, m, info + n, count - n, grants - 1, copied + n);
    }
  }

  /** A callback at full grants writes all of its chunk. */
  lemma ChunkSucceeds(src: Source, mem0: seq<Byte>, image: seq<Byte>, base: nat, mem: seq<Byte>, current: nat,
                      blocksize: nat)
    requires src != Absent && current < |image| && base + |image| <= |mem0|
    requires Loaded(mem0, base, image, current, mem)
    requires src == Pages ==> Aligned(current)
    ensures var o := WriteChunk(src, image, base, mem, current, current, |image|, blocksize, |image|);
      && o.ret == ChunkSize(blocksize, |image| - current) && o.info == current + o.ret
      && Loaded(mem0, base, image, current + o.ret, o.mem)
  {
    var count := ChunkSize(blocksize, |image| - current);
    if src == Pages {
      PagedWriteSucceeds(image, base, mem, current, count, |image|, 0);
      PagedWriteLoads(mem0, image, base, mem, current, count, |image|, 0);
    } else {
      WriteChunkLoads(src, mem0, image, base, mem, current, |image|, blocksize, |image|);
    }
  }

  lemma AlignedSum(a: nat, b: nat)
    requires a % PAGE_SIZE == 0 && b % PAGE_SIZE == 0
    ensures Aligned(a + b)
  {
  }

  /** Every callback from `current` on starts where the source can be copied from. */
  predicate Regular(src: Source, n: nat, current: nat, blocksize: nat) {
    src == Pages && current < n ==> Aligned(current) && (blocksize % PAGE_SIZE == 0 || current + blocksize >= n)
  }

  lemma RegularNext(src: Source, n: nat, current: nat, blocksize: nat)
    requires current < n && Regular(src, n, current, blocksize)
    ensures Regular(src, n, current + ChunkSize(blocksize, n - current), blocksize)
  {
    if src == Pages && 0 < blocksize < n - current {
      AlignedSum(current, blocksize);
    }
  }

  /** One callback at full grants extends the loaded prefix. */
  lemma LoadRound(src: Source, mem0: seq<Byte>, image: seq<Byte>, base: nat, mem: seq<Byte>, current: nat,
                  blocksize: nat)
    requires src != Absent && current < |image| && base + |image| <= |mem0|
    requires Loaded(mem0, base, image, current, mem) && Regular(src, |image|, current, blocksize)
    ensures var o := WriteChunk(src, image, base, mem, current, current, |image|, blocksize, |image|);
      && 0 < o.ret <= |image| - current && o.info == current + o.ret
      && Loaded(mem0, base, image, current + o.ret, o.mem) && Regular(src, |image|, current + o.ret, blocksize)
  {
    RegularNext(src, |image|, current, blocksize);
    ChunkSucceeds(src, mem0, image, base, mem, current, blocksize);
  }

  lemma LoopUnfolds(src: Source, image: seq<Byte>, base: nat, mem: seq<Byte>, current: nat, blocksize: int, o: Outcome,
                    r: Outcome)
    requires current < |image| && EndsWith(src, image, base, mem, current, blocksize, r)
    requires o == WriteChunk(src, image, base, mem, current, current, |image|, blocksize, |image|)
    ensures if o.Outcome? && 0 < o.ret <= |image| - current
            then EndsWith(src, image, base, o.mem, current + o.ret, blocksize, r) else r == o
  {
  }

  /** One callback of the loop, and what it leaves to the rest of the loop. */
  lemma LoopRound(src: Source, mem0: seq<Byte>, image: seq<Byte>, base: nat, mem: seq<Byte>, current: nat,
                  blocksize: nat, r: Outcome)
    returns (m: seq<Byte>, next: nat)
    requires current < |image| && base + |image| <= |mem0| && EndsWith(src, image, base, mem, current, blocksize, r)
    requires Loaded(mem0, base, image, current, mem) && Regular(src, |image|, current, blocksize)
    ensures current < next <= |image| && Loaded(mem0, base, image, next, m) && Regular(src, |image|, next, blocksize)
    ensures EndsWith(src, image, base, m, next, blocksize, r)
  {
    LoadRound(src, mem0, image, base, mem, current, blocksize);
    var o := WriteChunk(src, image, base, mem, current, current, |image|, blocksize, |image|);
    LoopUnfolds(src, image, base, mem, current, blocksize, o, r);
    m, next := o.mem, current + o.ret;
  }

  /** The contiguous path loads the image for every block size; the page path does so when
      every callback starts on a page boundary. */
  lemma {:induction false} LoadLoopLoads(src: Source, mem0: seq<Byte>, image: seq<Byte>, base: nat, mem: seq<Byte>,
                                         current: nat, blocksize: nat, r: Outcome)
    requires base + |image| <= |mem0| && EndsWith(src, image, base, mem, current, blocksize, r)
    requires Loaded(mem0, base, image, current, mem)
    requires Regular(src, |image|, current, blocksize)
    ensures Completed(image, r) && Loaded(mem0, base, image, |image|, r.mem)
    decreases |image| - current
  {
    if current < |image| {
      var m, next := LoopRound(src, mem0, image, base, mem, current, blocksize, r);
      LoadLoopLoads(src, mem0, image, base, m, next, blocksize, r);
    }
  }

  lemma RegularLoads(src: Source, image: seq<Byte>, base: nat, mem: seq<Byte>, blocksize: nat)
    requires src != Absent && base + |image| <= |mem| && Regular(src, |image|, 0, blocksize)
    ensures Loads(src, image, base, mem, blocksize)
  {
    LoadLoopLoads(src, mem, image, base, mem, 0, blocksize, LoadLoop(src, image, base, mem, 0, blocksize));
  }

  /** A negative block size loads nothing: the contiguous path refuses it and changes nothing, the
      page path ends in a refused mapping or beyond the pages. */
  lemma NegativeBlocksFail(image: seq<Byte>, base: nat, mem: seq<Byte>, blocksize: int)
    requires image != [] && blocksize < 0
    ensures LoadLoop(Mapped, image, base, mem, 0, blocksize) == Outcome(mem, 0, -EINVAL)
    ensures LoadLoop(Pages, image, base, mem, 0, blocksize) == Overrun(image, base, mem, 0, |image|)
    ensures var r := LoadLoop(Pages, image, base, mem, 0, blocksize); r.Astray? || r.ret == -ENOMEM
  {
    var mapped := WriteChunk(Mapped, image, base, mem, 0, 0, |image|, blocksize, |image|);
    var paged := WriteChunk(Pages, image, base, mem, 0, 0, |image|, blocksize, |image|);
    assert mapped == Outcome(mem, 0, -EINVAL) && paged == Overrun(image, base, mem, 0, |image|);
  }

  /** Page by page or in one piece, the whole loop ends alike, memory, count and result, whenever
      the block size is a multiple of the page size and not negative. */
  lemma PagesWriteWhatMappedWrites(image: seq<Byte>, base: nat, mem: seq<Byte>, blocksize: int)
    requires base + |image| <= |mem| && Aligned(blocksize)
    ensures LoadLoop(Pages, image, base, mem, 0, blocksize) == LoadLoop(Mapped, image, base, mem, 0, blocksize)
  {
    RegularLoads(Pages, image, base, mem, blocksize);
    RegularLoads(Mapped, image, base, mem, blocksize);
  }

  /** The contiguous path loads an image exactly when there is nothing to load or the block size
      is not negative. */
  lemma MappedPathExact(image: seq<Byte>, base: nat, mem: seq<Byte>, blocksize: int)
    requires base + |image| <= |mem|
    ensures Loads(Mapped, image, base, mem, blocksize) <==> image == [] || blocksize >= 0
  {
    if blocksize >= 0 {
      RegularLoads(Mapped, image, base, mem, blocksize);
    } else if image != [] {
      NegativeBlocksFail(image, base, mem, blocksize);
    }
  }

  /** A callback that fails has moved the driver's byte count exactly when its first page went
      through. */
  lemma {:induction false} PagedWriteStays(image: seq<Byte>, base: nat, mem: seq<Byte>, info: nat, count: nat,
                                           grants: nat, copied: nat)
    requires info + count <= |image|
    ensures var o := PagedWrite(image, base, mem, info, count, grants, copied);
      && o.info >= info
      && (o.info == info <==> count == 0 || grants == 0 || base + info + PageCount(count) > |mem|)
    decreases count
  {
    if count > 0 {
      var n := PageCount(count);
      var (m, r) := LoadPiece(mem, base + info, PageBytes(image, info, n), n, grants > 0);
      if r > 0 {
        PagedWriteStays(image, base, m, info + n, count - n, grants - 1, copied + n);
      }
    }
  }

  lemma {:induction false} OverrunStays(image: seq<Byte>, base: nat, mem: seq<Byte>, info: nat, grants: nat)
    ensures var o := Overrun(image, base, mem, info, grants);
      o.Outcome? ==> && o.info >= info
                     && (o.info == info <==> grants == 0 || base + info + PAGE_SIZE > |mem|)
    decreases |image| + PAGE_SIZE - info
  {
    if PageStart(info) < |image| {
      var (m, r) := LoadPiece(mem, base + info, PageBytes(image, info, PAGE_SIZE), PAGE_SIZE, grants > 0);
      if r > 0 {
        OverrunStays(image, base, m, info + PAGE_SIZE, grants - 1);
      }
    }
  }

  /** A negative block size ends in a refused mapping or beyond the pages, and the latter
      whenever no mapping is refused. */
  lemma {:induction false} OverrunExact(image: seq<Byte>, base: nat, mem: seq<Byte>, info: nat, grants: nat)
    ensures var rounds := if PageStart(info) >= |image| then 0 else (|image| - PageStart(info) - 1) / PAGE_SIZE + 1;
      Overrun(image, base, mem, info, grants).Astray?
      <==> rounds == 0 || (rounds <= grants && base + info + rounds * PAGE_SIZE <= |mem|)
    decreases |image| + PAGE_SIZE - info
  {
    if PageStart(info) < |image| {
      var (m, r) := LoadPiece(mem, base + info, PageBytes(image, info, PAGE_SIZE), PAGE_SIZE, grants > 0);
      assert PageStart(info + PAGE_SIZE) == PageStart(info) + PAGE_SIZE;
      if r > 0 {
        OverrunExact(image, base, m, info + PAGE_SIZE, grants - 1);
      }
    }
  }

  // Without an in-page offset, any other block size can go wrong.

  /** The first byte of a callback comes from the start of the page, wherever the callback starts. */
  lemma FirstByteOfCallback(image: seq<Byte>, base: nat, mem: seq<Byte>, current: nat, count: nat, grants: nat)
    requires 0 < count <= grants && current + count <= |image| && base + |image| <= |mem|
    ensures var o := PagedWrite(image, base, mem, current, count, grants, 0);
      o.mem[base + current] == image[PageStart(current)]
  {
    var n := PageCount(count);
    var data := PageBytes(image, current, n);
    var (m, r) := LoadPiece(mem, base + current, data, n, grants > 0);
    assert m[base + current] == data[0] == image[PageStart(current)];
    var o := PagedWrite(image, base, m, current + n, count - n, grants - 1, n);
    ByteBelow(m, o.mem, base + current + n, base + current);
  }

  lemma ByteBelow(a: seq<Byte>, b: seq<Byte>, n: nat, k: nat)
    requires SameBelow(a, b, n) && k < n && k < |a|
    ensures b[k] == a[k]
  {
    if n <= |a| {
      assert a[..n][k] == b[..n][k];
    }
  }

  /** An image that the page path corrupts when a second callback starts inside a page. */
  function Marked(n: nat, at: nat): seq<Byte> {
    seq(n, i => if i == at then 1 else 0)
  }

  /** A callback in the middle of the image, and the byte it writes first. */
  lemma CallbackInside(image: seq<Byte>, base: nat, mem: seq<Byte>, blocksize: nat) returns (o: Outcome)
    requires base + |image| <= |mem| && 0 < blocksize < |image|
    ensures o == WriteChunk(Pages, image, base, mem, blocksize, blocksize, |image|, blocksize, |image|)
    ensures o.Outcome? && 0 < o.ret <= |image| - blocksize && |o.mem| == |mem|
    ensures o.mem[base + blocksize] == image[PageStart(blocksize)]
  {
    var count := ChunkSize(blocksize, |image| - blocksize);
    o := PagedWrite(image, base, mem, blocksize, count, |image|, 0);
    FirstByteOfCallback(image, base, mem, blocksize, count, |image|);
    PagedWriteSucceeds(image, base, mem, blocksize, count, |image|, 0);
  }

  /** What a callback has written is not written again. */
  lemma WrittenOnce(image: seq<Byte>, base: nat, mem: seq<Byte>, current: nat, blocksize: nat, o: Outcome, r: Outcome)
    requires current < |image| && EndsWith(Pages, image, base, mem, current, blocksize, r)
    requires o == WriteChunk(Pages, image, base, mem, current, current, |image|, blocksize, |image|)
    requires o.Outcome? && 0 < o.ret <= |image| - current
    ensures r.Outcome? && SameBelow(o.mem, r.mem, base + current + o.ret)
  {
    var rest := LoadLoop(Pages, image, base, o.mem, current + o.ret, blocksize);
    assert r == rest;
  }

  lemma SecondCallback(image: seq<Byte>, base: nat, mem: seq<Byte>, blocksize: nat, r: Outcome)
    requires base + |image| <= |mem| && 0 < blocksize < |image|
    requires EndsWith(Pages, image, base, mem, blocksize, blocksize, r)
    ensures r.Outcome? && |r.mem| == |mem| && r.mem[base + blocksize] == image[PageStart(blocksize)]
  {
    var o := CallbackInside(image, base, mem, blocksize);
    WrittenOnce(image, base, mem, blocksize, blocksize, o, r);
    ByteBelow(o.mem, r.mem, base + blocksize + o.ret, base + blocksize);
  }

  lemma FirstCallback(image: seq<Byte>, base: nat, mem: seq<Byte>, blocksize: nat) returns (o: Outcome)
    requires base + |image| <= |mem| && 0 < blocksize < |image|
    ensures o == WriteChunk(Pages, image, base, mem, 0, 0, |image|, blocksize, |image|)
    ensures o.Outcome? && o.ret == blocksize && |o.mem| == |mem|
  {
    o := PagedWrite(image, base, mem, 0, blocksize, |image|, 0);
    PagedWriteSucceeds(image, base, mem, 0, blocksize, |image|, 0);
  }

  lemma MisalignedBlocksCorrupt(n: nat, base: nat, mem: seq<Byte>, blocksize: nat)
    requires base + n <= |mem| && 0 < blocksize < n && blocksize % PAGE_SIZE != 0
    ensures !Loads(Pages, Marked(n, blocksize), base, mem, blocksize)
  {
    var image := Marked(n, blocksize);
    var r := LoadLoop(Pages, image, base, mem, 0, blocksize);
    var o := FirstCallback(image, base, mem, blocksize);
    LoopUnfolds(Pages, image, base, mem, 0, blocksize, o, r);
    SecondCallback(image, base, o.mem, blocksize, r);
    assert PageStart(blocksize) != blocksize;
    assert Overwrite(mem, base, image[..n])[base + blocksize] == image[blocksize];
  }

  /** An image of n bytes that the page path does not load, unless it loads them all. */
  lemma NotLoaded(n: nat, base: nat, mem: seq<Byte>, blocksize: int) returns (image: seq<Byte>)
    requires base + n <= |mem| && !(n == 0 || blocksize >= n || Aligned(blocksize))
    ensures |image| == n && !Loads(Pages, image, base, mem, blocksize)
  {
    image := Marked(n, if blocksize > 0 then blocksize else 0);
    if blocksize > 0 {
      MisalignedBlocksCorrupt(n, base, mem, blocksize);
    } else {
      NegativeBlocksFail(image, base, mem, blocksize);
    }
  }

  /** The page path loads every image of n bytes exactly when there is nothing to load, the whole
      image goes in one callback, or the block size is a multiple of the page size and not
      negative. */
  lemma PagePathExact(n: nat, base: nat, mem: seq<Byte>, blocksize: int)
    requires base + n <= |mem|
    ensures (forall image: seq<Byte> :: |image| == n ==> Loads(Pages, image, base, mem, blocksize))
            <==> n == 0 || blocksize >= n || Aligned(blocksize)
  {
    if n == 0 || blocksize >= n || Aligned(blocksize) {
      forall image: seq<Byte> | |image| == n ensures Loads(Pages, image, base, mem, blocksize) {
        if n > 0 {
          RegularLoads(Pages, image, base, mem, blocksize);
        }
      }
    } else {
      var image := NotLoaded(n, base, mem, blocksize);
    }
  }

  predicate PathsAgree(image: seq<Byte>, base: nat, mem: seq<Byte>, blocksize: int) {
    LoadLoop(Pages, image, base, mem, 0, blocksize) == LoadLoop(Mapped, image, base, mem, 0, blocksize)
  }

  /** The two paths end alike, in memory, count and result, for every image of n bytes exactly when
      the page path loads them all; with a negative block size they never do. */
  lemma PathsAgreeExact(n: nat, base: nat, mem: seq<Byte>, blocksize: int)
    requires base + n <= |mem|
    ensures (forall image: seq<Byte> :: |image| == n ==> PathsAgree(image, base, mem, blocksize))
            <==> n == 0 || blocksize >= n || Aligned(blocksize)
    ensures n > 0 && blocksize < 0 ==>
              forall image: seq<Byte> :: |image| == n ==> !PathsAgree(image, base, mem, blocksize)
  {
    if n > 0 && blocksize < 0 {
      forall image: seq<Byte> | |image| == n ensures !PathsAgree(image, base, mem, blocksize) {
        NegativeBlocksFail(image, base, mem, blocksize);
      }
    }
    if n == 0 || blocksize >= n || Aligned(blocksize) {
      forall image: seq<Byte> | |image| == n ensures PathsAgree(image, base, mem, blocksize) {
        if n > 0 {
          RegularLoads(Pages, image, base, mem, blocksize);
          RegularLoads(Mapped, image, base, mem, blocksize);
        }
      }
    } else {
      var image := NotLoaded(n, base, mem, blocksize);
      MappedPathExact(image, base, mem, blocksize);
      assert !PathsAgree(image, base, mem, blocksize);
    }
  }
}
