/** memutil: mapping a physical region by pages, and moving it to and from a file. */
module MemUtil {
  import opened Common
  import opened Bits
  import opened Transfer

  lemma Shl64()
    ensures Shl(1, 64) == TWO_64
  {
    assert Shl(1, 8) == 256;
    ShlTwice(1, 8, 8);
    ShlIsProduct(256, 8);
    ShlTwice(1, 16, 16);
    ShlIsProduct(65536, 16);
    ShlTwice(1, 32, 32);
    ShlIsProduct(TWO_32, 32);
  }

  lemma {:induction false} ShlGrows(a: nat, n: nat)
    requires n > 0
    ensures Shl(a, n) >= 2 * a
  {
    if n > 1 {
      ShlGrows(a, n - 1);
    }
  }

  lemma PageFits(k: nat)
    requires k < 64
    ensures 0 < Shl(1, k) && 2 * Shl(1, k) <= TWO_64
  {
    ShlPositive(k);
    Shl64();
    ShlTwice(1, k, 64 - k);
    ShlGrows(Shl(1, k), 64 - k);
  }

  /** The 64-bit value of the product of a quotient and its divisor. */
  function WholePages(sum: nat, page: nat): nat
    requires page > 0
  {
    sum / page * page % TWO_64
  }

  /** Rounding a length up to whole pages in 64-bit arithmetic. */
  function MapLength(want: nat, page: nat): nat
    requires page > 0
  {
    WholePages((want % TWO_64 + page - 1) % TWO_64, page)
  }

  /** map_memory's arithmetic on 64-bit unsigned values, for a page of 2^k bytes: the address and
      the length to map. */
  function MapWindow(start: nat, length: nat, k: nat): (nat, nat)
    requires k < 64
  {
    PageFits(k);
    var page := Shl(1, k);
    var base := BitAnd(start, TWO_64 - page);
    (base, MapLength(length + (start - base) % TWO_64, page))
  }

  lemma {:induction false} ShlOnes(m: nat, k: nat)
    ensures Shl(Ones(m) + 1, k) == Shl(Ones(m), k) + Shl(1, k)
    decreases k
  {
    if k > 0 {
      ShlOnes(m, k - 1);
    }
  }

  /** `~(page - 1)` is the ones above the page bits. */
  lemma PageMask(k: nat)
    requires k <= 64
    ensures TWO_64 - Shl(1, k) == Shl(Ones(64 - k), k)
  {
    Shl64();
    ShlTwice(1, 64 - k, k);
    LowBound(0, 64 - k);
    ShlOnes(64 - k, k);
  }

  lemma {:induction false} ShrBound(a: nat, m: nat, k: nat)
    requires a <= Ones(m + k)
    ensures Shr(a, k) <= Ones(m)
    decreases k
  {
    if k > 0 {
      ShrBound(a / 2, m, k - 1);
    }
  }

  /** Masking rounds the address down to its page. */
  lemma PageBase(start: nat, k: nat)
    requires start < TWO_64 && k < 64
    ensures 0 < Shl(1, k) < TWO_64 && BitAnd(start, TWO_64 - Shl(1, k)) == start - start % Shl(1, k)
  {
    PageFits(k);
    PageMask(k);
    PageMask(0);
    ShrBound(start, 64 - k, k);
    AndShl(start, Ones(64 - k), k);
    AndOnes(Shr(start, k), 64 - k);
    LowOfSmall(Shr(start, k), 64 - k);
    HighPlusLow(start, k);
    ShrIsQuotient(start, k);
  }

  /** The smallest multiple of d that is at least n. */
  lemma RoundUp(n: nat, d: nat)
    requires d > 0
    ensures var r := (n + d - 1) / d * d; n <= r < n + d && r % d == 0
  {
    var q, m := (n + d - 1) / d, (n + d - 1) % d;
    assert n + d - 1 == q * d + m;
    DivModUnique(q * d, d, q, 0);
  }

  lemma RoundDown(n: nat, d: nat)
    requires d > 0
    ensures n / d * d <= n && (n - n % d) % d == 0
  {
    assert n == n / d * d + n % d;
    DivModUnique(n / d * d, d, n / d, 0);
  }

  lemma PagesFit(sum: nat, page: nat)
    requires 0 < page && sum < TWO_64
    ensures WholePages(sum, page) == sum / page * page <= sum
  {
    RoundDown(sum, page);
    var len := sum / page * page;
    assert 0 <= len < TWO_64;
  }

  lemma MapLengthFits(want: nat, page: nat)
    requires 0 < page && want + page - 1 < TWO_64
    ensures want <= MapLength(want, page) < want + page && MapLength(want, page) % page == 0
  {
    var sum := want + page - 1;
    assert want % TWO_64 == want && sum % TWO_64 == sum;
    PagesFit(sum, page);
    RoundUp(want, page);
  }

  lemma ShortSum(want: nat, page: nat) returns (sum: nat)
    requires 0 < page && 2 * page <= TWO_64 && want < TWO_64 + page && want + page - 1 >= TWO_64
    ensures sum == (want % TWO_64 + page - 1) % TWO_64 && sum < want && sum < TWO_64
  {
    if want >= TWO_64 {
      sum := want - TWO_64 + page - 1;
      assert want % TWO_64 == want - TWO_64;
    } else {
      sum := want + page - 1 - TWO_64;
    }
  }

  lemma MapLengthShort(want: nat, page: nat)
    requires 0 < page && 2 * page <= TWO_64 && want < TWO_64 + page && want + page - 1 >= TWO_64
    ensures MapLength(want, page) < want
  {
    var sum := ShortSum(want, page);
    assert WholePages(sum, page) <= sum by {
      PagesFit(sum, page);
    }
  }

  /** [base, base + len) is the least page-aligned window that covers [start, start + length). */
  predicate LeastWindow(start: nat, length: nat, page: nat, base: nat, len: nat)
    requires page > 0
  {
    && base % page == 0 && len % page == 0
    && base <= start < base + page
    && start + length <= base + len < start + length + page
  }

  lemma WindowExact(start: nat, length: nat, page: nat)
    requires 0 < page && 2 * page <= TWO_64 && length < TWO_64
    ensures var off := start % page;
      LeastWindow(start, length, page, start - off, MapLength(length + off, page)) <==> length + off + page - 1 < TWO_64
  {
    var off := start % page;
    assert (start - off) % page == 0 by {
      RoundDown(start, page);
    }
    if length + off + page - 1 < TWO_64 {
      MapLengthFits(length + off, page);
    } else {
      MapLengthShort(length + off, page);
    }
  }

  lemma WindowValue(start: nat, length: nat, k: nat)
    requires start < TWO_64 && k < 64 && Shl(1, k) > 0
    ensures var off := start % Shl(1, k);
      off <= start && MapWindow(start, length, k) == (start - off, MapLength(length + off, Shl(1, k)))
  {
    PageBase(start, k);
    SmallOffset(start, Shl(1, k));
  }

  lemma SmallOffset(start: nat, page: nat)
    requires 0 < page < TWO_64
    ensures var off := start % page; 0 <= off <= start && (start - (start - off)) % TWO_64 == off
  {
    var off := start % page;
    assert 0 <= off < page && start - (start - off) == off;
  }

  /** The mapping is the least covering window exactly when the sum that map_memory rounds up
      fits 64 bits. */
  lemma MapWindowExact(start: nat, length: nat, k: nat)
    requires start < TWO_64 && length < TWO_64 && k < 64
    ensures Shl(1, k) > 0
    ensures var w := MapWindow(start, length, k);
      LeastWindow(start, length, Shl(1, k), w.0, w.1) <==> length + start % Shl(1, k) + Shl(1, k) - 1 < TWO_64
  {
    PageFits(k);
    WindowValue(start, length, k);
    WindowExact(start, length, Shl(1, k));
  }

  // Moving the region.

  /** The bytes that reads move into `len` from a file that has `avail` bytes left. */
  function ReadDrain(len: nat, avail: nat, calls: seq<Outcome>): (r: (nat, Status))
    ensures r.0 <= len && r.0 <= avail
    ensures r.1 == Complete <==> r.0 == len
    decreases |calls|
  {
    if len == 0 then (0, Complete)
    else if calls == [] then (0, Waiting)
    else match calls[0]
      case Took(n) =>
        var moved := Min(n, Min(len, avail));
        if moved == 0 then (0, Ended) else
          var rest := ReadDrain(len - moved, avail - moved, calls[1..]);
          (moved + rest.0, rest.1)
      case Again => ReadDrain(len, avail, calls[1..])
      case Broken => (0, Failed)
  }

  /** A read after which the loop does not go on, when the calls before it have offered `before`
      bytes of a file of `avail`: at the end of the file any read returns 0. */
  predicate FinalRead(c: Outcome, before: nat, avail: nat) {
    Final(c) || (c.Took? && before >= avail)
  }

  function ReadsBefore(avail: nat, calls: seq<Outcome>): (k: nat)
    ensures k <= |calls|
    decreases |calls|
  {
    if calls == [] || FinalRead(calls[0], 0, avail) then 0
    else 1 + ReadsBefore(if calls[0].Took? then avail - Min(calls[0].n, avail) else avail, calls[1..])
  }

  /** The first final read is found where it is. */
  lemma {:induction false} FirstFinalRead(avail: nat, calls: seq<Outcome>, i: nat)
    requires i <= ReadsBefore(avail, calls) && i < |calls|
    ensures FinalRead(calls[i], Sum(calls[..i]), avail) <==> i == ReadsBefore(avail, calls)
    decreases |calls|
  {
    if i > 0 {
      FirstFinalRead(if calls[0].Took? then avail - Min(calls[0].n, avail) else avail, calls[1..], i - 1);
      assert calls[..i][1..] == calls[1..][..i - 1];
    }
  }

  /** Why a read loop that still has room ends. */
  function ReadReason(avail: nat, calls: seq<Outcome>): Status {
    var k := ReadsBefore(avail, calls);
    if k == |calls| then Waiting else if calls[k] == Broken then Failed else Ended
  }

  /** The loop moves all that the calls offer, the file has and the region takes, and is complete
      exactly when calls and file have enough. */
  lemma {:induction false} ReadDrainExact(len: nat, avail: nat, calls: seq<Outcome>)
    ensures ReadDrain(len, avail, calls).0 == Min(len, Min(avail, Total(calls)))
    ensures ReadDrain(len, avail, calls).1 == Complete <==> len <= avail && len <= Total(calls)
    decreases |calls|
  {
    if len > 0 && calls != [] && !FinalRead(calls[0], 0, avail) {
      OneCall(calls);
      var moved := if calls[0].Took? then Min(calls[0].n, Min(len, avail)) else 0;
      ReadDrainExact(len - moved, avail - moved, calls[1..]);
    }
  }

  /** Otherwise the first final read says why it ends. */
  lemma {:induction false} ReadEndsBy(len: nat, avail: nat, calls: seq<Outcome>)
    requires ReadDrain(len, avail, calls).1 != Complete
    ensures ReadDrain(len, avail, calls).1 == ReadReason(avail, calls)
    decreases |calls|
  {
    if calls != [] && !FinalRead(calls[0], 0, avail) {
      var moved := if calls[0].Took? then Min(calls[0].n, Min(len, avail)) else 0;
      ReadEndsBy(len - moved, avail - moved, calls[1..]);
      OneRead(avail, calls, moved);
    }
  }

  lemma OneRead(avail: nat, calls: seq<Outcome>, moved: nat)
    requires calls != [] && !FinalRead(calls[0], 0, avail)
    requires moved == if calls[0].Took? then Min(calls[0].n, avail) else 0
    ensures ReadReason(avail, calls) == ReadReason(avail - moved, calls[1..])
  {
  }

  /** safe_read into the mapped memory: what has arrived is a prefix of the file, in place. */
  method SafeRead(file: seq<Byte>, mem: array<Byte>, at: nat, count: nat, calls: seq<Outcome>)
    returns (got: nat, status: Status)
    requires at + count <= mem.Length
    modifies mem
    ensures (got, status) == ReadDrain(count, |file|, calls)
    ensures mem[..] == Overwrite(old(mem[..]), at, file[..got])
  {
    got := 0;
    var k := 0;
    while got < count
      invariant 0 <= k <= |calls| && 0 <= got <= count && got <= |file|
      invariant mem[..] == Overwrite(old(mem[..]), at, file[..got])
      invariant var rest := ReadDrain(count - got, |file| - got, calls[k..]);
        (got + rest.0, rest.1) == ReadDrain(count, |file|, calls)
      decreases |calls| - k
    {
      if k == |calls| {
        return got, Waiting;
      }
      assert calls[k..][1..] == calls[k + 1..];
      match calls[k] {
        case Took(n) =>
          var ret := Min(n, Min(count - got, |file| - got));
          if ret == 0 {
            return got, Ended;
          }
          ReadMore(file, mem, at, got, ret, old(mem[..]));
          got := got + ret;
        case Again =>
        case Broken =>
          return got, Failed;
      }
      k := k + 1;
    }
    status := Complete;
  }

  lemma Extended(mem: seq<Byte>, at: nat, file: seq<Byte>, got: nat, ret: nat)
    requires got + ret <= |file| && at + got + ret <= |mem|
    ensures Overwrite(Overwrite(mem, at, file[..got]), at + got, file[got..got + ret])
         == Overwrite(mem, at, file[..got + ret])
  {
  }

  /** One read that continues where the last one ended. */
  method ReadMore(file: seq<Byte>, mem: array<Byte>, at: nat, got: nat, ret: nat, ghost mem0: seq<Byte>)
    requires |mem0| == mem.Length && got + ret <= |file| && at + got + ret <= mem.Length
    requires mem[..] == Overwrite(mem0, at, file[..got])
    modifies mem
    ensures mem[..] == Overwrite(mem0, at, file[..got + ret])
  {
    Copy(mem, at + got, file[got..got + ret]);
    Extended(mem0, at, file, got, ret);
  }

  /** save_mem_region_to_file: the file holds what the calls let through of the region; that it is
      all of it is success. */
  method Save(mem: array<Byte>, at: nat, length: nat, calls: seq<Outcome>) returns (ok: bool, file: seq<Byte>)
    requires at + length <= mem.Length
    ensures file == mem[at..at + length][..Min(length, Total(calls))]
    ensures ok <==> Total(calls) >= length
  {
    var status;
    file, status := WriteLoop(mem[at..at + length], calls);
    ok := status != Failed && |file| == length;
  }

  /** load_mem_region_from_file: it succeeds exactly when file and calls have enough, and then the
      region is the first `length` bytes of the file; nothing outside the region changes in any
      case. */
  method Load(file: seq<Byte>, mem: array<Byte>, at: nat, length: nat, calls: seq<Outcome>) returns (ok: bool)
    requires at + length <= mem.Length
    modifies mem
    ensures ok ==> length <= |file| && mem[..] == Overwrite(old(mem[..]), at, file[..length])
    ensures ok <==> length <= |file| && length <= Total(calls)
    ensures forall i :: 0 <= i < mem.Length && !(at <= i < at + length) ==> mem[i] == old(mem[i])
  {
    ReadDrainExact(length, |file|, calls);
    var got, status := SafeRead(file, mem, at, length, calls);
    ok := status != Failed && got == length;
    assert forall i :: 0 <= i < mem.Length ==> mem[i] == mem[..][i] && old(mem[i]) == old(mem[..])[i];
  }

  /** Saving and loading the same length reproduces the region, whatever happens to memory in
      between and however the transfers are cut up or interrupted. */
  method SaveThenLoad(mem: array<Byte>, at: nat, length: nat, meanwhile: seq<Byte>, writes: seq<Outcome>,
                      loads: seq<Outcome>)
    returns (ok: bool)
    requires at + length <= mem.Length && |meanwhile| == mem.Length
    modifies mem
    ensures ok <==> length <= Total(writes) && length <= Total(loads)
    ensures ok ==> mem[..] == Overwrite(meanwhile, at, old(mem[at..at + length]))
  {
    var saved, file := Save(mem, at, length, writes);
    if !saved {
      return false;
    }
    Copy(mem, 0, meanwhile);
    assert mem[..] == meanwhile;
    ok := Load(file, mem, at, length, loads);
    assert file[..length] == file;
  }
}
