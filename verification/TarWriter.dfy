/** smemcap's writer: a header filled in place, and files buffered as a list of blocks. */
module TarWriter {
  import opened Common
  import opened TarOctal
  import opened Tar
  import opened TarReader

  /** sprintf into the header at a position. */
  method PrintAt(h: array<Byte>, at: nat, s: seq<Byte>)
    requires at + |s| + 1 <= h.Length
    modifies h
    ensures h[..] == PutString(old(h[..]), at, s)
  {
    Copy(h, at, s + [0]);
  }

  /** The checksum loop. */
  method Checksum(c: Char, h: array<Byte>) returns (sum: int)
    ensures sum == CharSum(c, h[..])
  {
    sum := 0;
    var i := 0;
    while i < h.Length
      invariant 0 <= i <= h.Length && sum == CharSum(c, h[..i])
    {
      assert h[..i + 1][..i] == h[..i];
      sum := sum + CharValue(c, h[i]);
      i := i + 1;
    }
    assert h[..i] == h[..];
  }

  /** The fields of the header up to gid. */
  method PrintOwner(h: array<Byte>, e: Entry)
    requires Printable(e) && h[..] == Zeros(BLOCK)
    modifies h
    ensures h[..] == Head(e)
  {
    PermissionsLength(e.mode);
    OctalLength(e.uid, 7);
    OctalLength(e.gid, 7);
    PrintAt(h, 0, e.path);
    PrintAt(h, 100, Octal(Permissions(e.mode), 7));
    PrintAt(h, 108, Octal(e.uid, 7));
    PrintAt(h, 116, Octal(e.gid, 7));
  }

  /** Size and time. */
  method PrintNumbers(h: array<Byte>, e: Entry)
    requires Printable(e) && h[..] == Head(e)
    modifies h
    ensures h[..] == Numbers(e)
  {
    OctalLength(|e.content|, 11);
    OctalLength(e.mtime, 7);
    PrintAt(h, 124, Octal(|e.content|, 11));
    PrintAt(h, 136, Octal(e.mtime, 7));
  }

  /** Every field, and blanks for the checksum. */
  method PrintDraft(h: array<Byte>, e: Entry)
    requires Printable(e) && h.Length == BLOCK && forall i :: 0 <= i < BLOCK ==> h[i] == 0
    modifies h
    ensures h[..] == Draft(e)
  {
    assert h[..] == Zeros(BLOCK);
    PrintOwner(h, e);
    PrintNumbers(h, e);
    PrintAt(h, 148, Blanks() + [ZERO + e.kind]);
  }

  /** writeheader. */
  method WriteHeader(c: Char, e: Entry) returns (header: seq<Byte>)
    requires Printable(e)
    ensures header == Header(c, e)
  {
    var h := new Byte[BLOCK](_ => 0);
    PrintDraft(h, e);
    var sum := Checksum(c, h);
    ChecksumLength(c, e);
    PrintAt(h, 148, Octal(sum % TWO_32, 6));
    header := h[..];
  }

  /** What successive reads of up to 512 bytes capture: everything up to the first short one. */
  function Captured(replies: seq<seq<Byte>>): seq<Byte> {
    if replies == [] then []
    else if |replies[0]| == BLOCK then replies[0] + Captured(replies[1..])
    else replies[0]
  }

  /** Full blocks are taken as long as they come, then what comes next. */
  lemma {:induction false} CapturedExact(replies: seq<seq<Byte>>, k: nat)
    requires k < |replies| && |replies[k]| != 512 && forall i :: 0 <= i < k ==> |replies[i]| == 512
    ensures Captured(replies) == Chain(replies[..k + 1])
  {
    assert replies[..k + 1][..k] == replies[..k];
    if k > 0 {
      CapturedExact(replies[1..], k - 1);
      ChainFront(replies[..k + 1]);
      assert replies[..k + 1][1..] == replies[1..][..k];
    }
  }

  lemma {:induction false} ChainFront(blocks: seq<seq<Byte>>)
    requires blocks != []
    ensures Chain(blocks) == blocks[0] + Chain(blocks[1..])
  {
    if |blocks| > 1 {
      var n := |blocks| - 1;
      ChainFront(blocks[..n]);
      assert blocks[..n][1..] == blocks[1..][..n - 1];
    }
  }

  predicate AtMostBlocks(replies: seq<seq<Byte>>) {
    forall i :: 0 <= i < |replies| ==> |replies[i]| <= BLOCK
  }

  function Chain(blocks: seq<seq<Byte>>): seq<Byte> {
    if blocks == [] then [] else Chain(blocks[..|blocks| - 1]) + blocks[|blocks| - 1]
  }

  lemma {:induction false} ChainPrefix(blocks: seq<seq<Byte>>, i: nat)
    requires i <= |blocks| && forall k :: 0 <= k < |blocks| ==> |blocks[k]| == BLOCK
    ensures |Chain(blocks)| == BLOCK * |blocks| && Chain(blocks[..i]) == Chain(blocks)[..BLOCK * i]
  {
    if i < |blocks| {
      var n := |blocks| - 1;
      ChainPrefix(blocks[..n], i);
      assert blocks[..n][..i] == blocks[..i];
      ChainLength(blocks[..n]);
    } else {
      ChainLength(blocks);
      assert blocks[..i] == blocks && Chain(blocks)[..BLOCK * i] == Chain(blocks);
    }
  }

  lemma {:induction false} ChainLength(blocks: seq<seq<Byte>>)
    requires forall k :: 0 <= k < |blocks| ==> |blocks[k]| == BLOCK
    ensures |Chain(blocks)| == BLOCK * |blocks|
  {
    if blocks != [] {
      ChainLength(blocks[..|blocks| - 1]);
    }
  }

  /** A list of blocks holds these bytes, and zeros after them. */
  predicate Holds(blocks: seq<seq<Byte>>, bytes: seq<Byte>) {
    && (forall k :: 0 <= k < |blocks| ==> |blocks[k]| == BLOCK)
    && BLOCK * (|blocks| - 1) <= |bytes| <= BLOCK * |blocks|
    && Chain(blocks) == bytes + Zeros(BLOCK * |blocks| - |bytes|)
  }

  lemma AddBlock(blocks: seq<seq<Byte>>, bytes: seq<Byte>, data: seq<Byte>)
    requires Holds(blocks, bytes) && |bytes| == BLOCK * |blocks| && |data| <= BLOCK
    ensures Holds(blocks + [data + Zeros(BLOCK - |data|)], bytes + data)
  {
    var block := data + Zeros(BLOCK - |data|);
    assert (blocks + [block])[..|blocks|] == blocks;
    assert Chain(blocks) == bytes;
    assert Chain(blocks + [block]) == bytes + block == bytes + data + Zeros(BLOCK - |data|);
  }

  lemma CapturedStep(bytes: seq<Byte>, replies: seq<seq<Byte>>, k: nat)
    requires k < |replies| && |replies[k]| == BLOCK
    ensures bytes + Captured(replies[k..]) == bytes + replies[k] + Captured(replies[k + 1..])
  {
    assert replies[k..][1..] == replies[k + 1..];
  }

  /** The buffering loop of archivefile: a list of zero-filled blocks and the bytes read. */
  method BufferFile(replies: seq<seq<Byte>>) returns (blocks: seq<seq<Byte>>, size: nat)
    requires AtMostBlocks(replies)
    ensures size == |Captured(replies)| && Holds(blocks, Captured(replies))
  {
    blocks, size := [], 0;
    ghost var got: seq<Byte> := [];
    var k, r := 0, BLOCK;
    while r == BLOCK
      invariant 0 <= k && 0 <= r <= BLOCK && (r == BLOCK ==> k <= |replies|)
      invariant size == |got| && Holds(blocks, got)
      invariant r == BLOCK ==> |got| == BLOCK * |blocks| && got + Captured(replies[k..]) == Captured(replies)
      invariant r != BLOCK ==> got == Captured(replies)
      decreases r == BLOCK, |replies| - k
    {
      var data := if k < |replies| then replies[k] else [];
      r := |data|;
      AddBlock(blocks, got, data);
      if r == BLOCK {
        CapturedStep(got, replies, k);
      }
      blocks := blocks + [data + Zeros(BLOCK - r)];
      got := got + data;
      size := size + r;
      k := k + 1;
    }
  }

  /** archivefile: the header with the bytes captured, then whole blocks while bytes remain. */
  method ArchiveFile(c: Char, path: seq<Byte>, mode: nat, uid: nat, gid: nat, mtime: nat, replies: seq<seq<Byte>>)
    returns (out: seq<Byte>)
    requires AtMostBlocks(replies) && Printable(Entry(path, mode, uid, gid, mtime, 0, Captured(replies)))
    ensures out == WriteEntry(c, Entry(path, mode, uid, gid, mtime, 0, Captured(replies)))
    ensures Storable(c, Entry(path, mode, uid, gid, mtime, 0, Captured(replies))) ==>
              ReadEntry(out) == Good(Entry(path, mode % 512, uid, gid, mtime, 0, Captured(replies)), [])
  {
    var blocks, size := BufferFile(replies);
    ghost var e := Entry(path, mode, uid, gid, mtime, 0, Captured(replies));
    var header := WriteHeader(c, Entry(path, mode, uid, gid, mtime, 0, Captured(replies)));
    out := header;
    var left: int, i := size, 0;
    while left > 0
      invariant 0 <= i <= |blocks| && left == size - BLOCK * i && left + BLOCK > 0
      invariant out == header + Chain(blocks[..i])
      decreases left
    {
      assert blocks[..i + 1][..i] == blocks[..i];
      out := out + blocks[i];
      i := i + 1;
      left := left - BLOCK;
    }
    DumpIsBody(e.content, blocks, i);
    FileBack(c, e);
  }

  lemma FileBack(c: Char, e: Entry)
    requires Printable(e)
    ensures Storable(c, e) ==> ReadEntry(WriteEntry(c, e)) == Good(AsRead(e), [])
  {
    if Storable(c, e) {
      EntryBack(c, e, []);
      assert WriteEntry(c, e) + [] == WriteEntry(c, e);
    }
  }

  /** The blocks written are the content, zero-padded to whole blocks. */
  lemma DumpIsBody(content: seq<Byte>, blocks: seq<seq<Byte>>, i: nat)
    requires i <= |blocks| && forall k :: 0 <= k < |blocks| ==> |blocks[k]| == BLOCK
    requires BLOCK * i - BLOCK < |content| <= BLOCK * i
    requires |content| <= BLOCK * |blocks| && Chain(blocks) == content + Zeros(BLOCK * |blocks| - |content|)
    ensures Chain(blocks[..i]) == Body(content)
  {
    ChainPrefix(blocks, i);
    assert Padded(|content|) == BLOCK * i;
    assert Chain(blocks)[..BLOCK * i] == content + Zeros(BLOCK * i - |content|);
  }
}
