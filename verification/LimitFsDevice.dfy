/** limitfs as it runs: the tree and the cached size change in place, and the walk is a loop. */
module LimitFsDevice {
  import opened Common
  import opened LimitFsTree
  import opened LimitFs

  /** __get_dir_size: the loop over a directory, adding to the caller's counter; a subdirectory
      adds to `curFilesize`, which the previous entry left behind. */
  method AddDirSize(entries: seq<Entry>, filesize: nat) returns (r: nat)
    ensures r == filesize + Walk(entries, 0)
    decreases entries
  {
    r := filesize;
    var curFilesize := 0;
    var i := 0;
    while i < |entries|
      invariant 0 <= i <= |entries|
      invariant r + Walk(entries[i..], curFilesize) == filesize + Walk(entries, 0)
    {
      match entries[i].node {
        case Dir(sub) => curFilesize := AddDirSize(sub, curFilesize);
        case File(size) => curFilesize := size;
      }
      assert entries[i..][1..] == entries[i + 1..];
      r := r + curFilesize;
      i := i + 1;
    }
  }

  class Quota {
    var root: seq<Entry>
    var curSize: nat
    const maxSize: nat

    ghost function Value(): Fs
      reads this
    {
      Fs(root, curSize, maxSize)
    }

    /** The cached size covers the bytes stored. */
    ghost predicate Valid()
      reads this
    {
      UsageAll(root) <= curSize < TWO_64
    }

    /** main: count the source directory first. The count covers what is stored, and is exact if and
        only if the directory is tidy. */
    constructor (root: seq<Entry>, maxSize: nat)
      ensures this.root == root && this.maxSize == maxSize && curSize == Walk(root, 0) % TWO_64
      ensures Walk(root, 0) < TWO_64 ==> Valid() && (curSize == UsageAll(root) <==> Tidy(root, true))
    {
      this.root := root;
      this.maxSize := maxSize;
      var total := AddDirSize(root, 0);
      curSize := total % TWO_64;
      WalkExact(root, 0);
    }

    /** get_dir_size on the source directory: a successful walk makes the cached size cover what is
        stored, whatever it was before. */
    method Recompute(walk: Option<nat>)
      modifies this`curSize
      ensures curSize == Recomputed(root, walk) % TWO_64
      ensures walk.Some? ==> curSize == walk.value % TWO_64
      ensures walk == None && Walk(root, 0) < TWO_64 ==> Valid() && (curSize == UsageAll(root) <==> Tidy(root, true))
    {
      var total := 0;
      match walk {
        case Some(partial) => total := partial;
        case None => total := AddDirSize(root, 0);
      }
      curSize := total % TWO_64;
      WalkExact(root, 0);
    }

    /** limitfs_write: a write is admitted only while the bytes stored are within the limit, and the
        cached size changes by what was stored. */
    method DoWrite(path: Path, end: nat, ok: bool) returns (admitted: bool)
      requires curSize < TWO_64
      modifies this
      ensures Value() == Step(old(Value()), Write(path, end, ok))
      ensures admitted <==> !Reserved(path) && old(curSize) <= maxSize
      ensures old(Valid()) && admitted ==> UsageAll(old(root)) <= maxSize
      ensures old(Valid()) && Sound(old(Value()), Write(path, end, ok)) ==>
                Valid() && curSize - old(curSize) == UsageAll(root) - UsageAll(old(root))
    {
      ghost var fs, op := Value(), Write(path, end, ok);
      admitted := !Reserved(path) && curSize <= maxSize;
      if admitted {
        var before := Lookup(root, path);
        if before.Some? && before.value.File? {
          root := AfterWrite(root, path, end, ok);
          var after := Lookup(root, path);
          if after.Some? && after.value.File? {
            var oldSize, newSize := before.value.size, after.value.size;
            curSize := (if curSize >= oldSize then curSize - oldSize + newSize else newSize) % TWO_64;
          }
        }
      }
      assert Value() == Step(fs, op);
      if Covered(fs) && Sound(fs, op) {
        WriteCounts(fs, op, Step(fs, op));
      }
    }

    /** limitfs_truncate: unless the path is reserved the size is counted again, so that it covers
        what is stored even if it did not before. */
    method DoTruncate(path: Path, size: nat, ok: bool, walk: Option<nat>)
      requires curSize < TWO_64
      modifies this
      ensures Value() == Step(old(Value()), Truncate(path, size, ok, walk))
      ensures !Reserved(path) && walk == None && Walk(root, 0) < TWO_64 ==>
                Valid() && (curSize == UsageAll(root) <==> Tidy(root, true))
    {
      if !Reserved(path) {
        root := AfterTruncate(root, path, size, ok);
        Recompute(walk);
      }
    }

    /** limitfs_unlink. */
    method DoUnlink(path: Path, ok: bool, walk: Option<nat>)
      requires curSize < TWO_64
      modifies this
      ensures Value() == Step(old(Value()), Unlink(path, ok, walk))
      ensures !Reserved(path) && walk == None && Walk(root, 0) < TWO_64 ==>
                Valid() && (curSize == UsageAll(root) <==> Tidy(root, true))
    {
      if !Reserved(path) {
        root := AfterUnlink(root, path, ok);
        Recompute(walk);
      }
    }

    /** limitfs_rmdir. */
    method DoRmdir(path: Path, ok: bool, walk: Option<nat>)
      requires curSize < TWO_64
      modifies this
      ensures Value() == Step(old(Value()), Rmdir(path, ok, walk))
      ensures !Reserved(path) && walk == None && Walk(root, 0) < TWO_64 ==>
                Valid() && (curSize == UsageAll(root) <==> Tidy(root, true))
    {
      if !Reserved(path) {
        root := AfterRmdir(root, path, ok);
        Recompute(walk);
      }
    }

    /** limitfs_mknod: a new node is empty, so neither the bytes stored nor the cached size change;
        where it is created it is found. */
    method DoMknod(path: Path, ok: bool) returns (admitted: bool)
      requires curSize < TWO_64
      modifies this
      ensures Value() == Step(old(Value()), Mknod(path, ok))
      ensures admitted <==> !Reserved(path) && old(curSize) <= maxSize
      ensures curSize == old(curSize) && UsageAll(root) == UsageAll(old(root)) && (Valid() <==> old(Valid()))
      ensures old(Valid()) && admitted ==> UsageAll(old(root)) <= maxSize
      ensures root != old(root) ==> admitted && Lookup(old(root), path) == None && Lookup(root, path) == Some(File(0))
    {
      ghost var before := root;
      admitted := curSize <= maxSize && !Reserved(path);
      if admitted {
        root := AfterCreate(root, path, File(0), ok);
        CreateUsage(before, path, File(0), ok);
        if ok && Lookup(before, path) == None && Put(before, path, Some(File(0))).Some? {
          LookupAfterPut(before, path, File(0));
        }
      }
    }

    /** limitfs_rename: no byte is added, the bytes of a replaced file go, and the cached size does
        not follow, so that it goes on covering what is stored. */
    method DoRename(from: Path, to: Path, ok: bool)
      requires curSize < TWO_64
      modifies this
      ensures Value() == Step(old(Value()), Rename(from, to, ok))
      ensures curSize == old(curSize) && UsageAll(root) <= UsageAll(old(root)) && (old(Valid()) ==> Valid())
      ensures root != old(root) ==> UsageAll(root) == UsageAll(old(root)) - Discarded(old(root), from, to)
    {
      ghost var before := root;
      if !Reserved(from) && !Reserved(to) {
        root := AfterRename(root, from, to, ok);
        RenameUsage(before, from, to, ok);
      }
    }
  }

  /** What a write adds to the counter it adds to the bytes stored. */
  lemma WriteCounts(fs: Fs, op: Op, fs': Fs)
    requires op.Write? && Covered(fs) && Sound(fs, op) && fs' == Step(fs, op)
    ensures fs'.cur - fs.cur == UsageAll(fs'.root) - UsageAll(fs.root) && UsageAll(fs'.root) <= fs'.cur < TWO_64
  {
    QuietStep(fs, op);
  }
}
