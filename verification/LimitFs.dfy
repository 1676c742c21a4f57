/**
 limitfs: a cached size that is adjusted on every write, recomputed by a walk
 after removals and truncations, and compared with a limit to admit writes.
 */
module LimitFs {
  import opened Common
  import opened LimitFsTree

  type Path = seq<string>

  datatype Fs = Fs(root: seq<Entry>, cur: nat, max: nat)

  /** The file operations, with what the underlying file system does: `ok` says whether the call
      below succeeds, `end` is where the bytes written end, `walk` is the sum that a failed walk
      leaves behind (None: the walk succeeds). */
  datatype Op =
    | Write(path: Path, end: nat, ok: bool)
    | Truncate(path: Path, size: nat, ok: bool, walk: Option<nat>)
    | Mknod(path: Path, ok: bool)
    | Mkdir(path: Path, ok: bool)
    | Unlink(path: Path, ok: bool, walk: Option<nat>)
    | Rmdir(path: Path, ok: bool, walk: Option<nat>)
    | Rename(from: Path, to: Path, ok: bool)
    | Reorder(i: nat)            // readdir order of the root changes by itself
    | ReorderIn(path: Path, i: nat)

  /** The two virtual files that show the counters. */
  predicate Reserved(path: Path) {
    path == ["cur_size"] || path == ["max_size"]
  }

  function PutOr(root: seq<Entry>, path: Path, n: Option<Node>): seq<Entry> {
    match Put(root, path, n)
    case None => root
    case Some(root') => root'
  }

  // The tree after the call below.

  function AfterWrite(root: seq<Entry>, path: Path, end: nat, ok: bool): seq<Entry> {
    match Lookup(root, path)
    case Some(File(size)) => if ok then PutOr(root, path, Some(File(if end > size then end else size))) else root
    case _ => root
  }

  function AfterTruncate(root: seq<Entry>, path: Path, size: nat, ok: bool): seq<Entry> {
    match Lookup(root, path)
    case Some(File(_)) => if ok then PutOr(root, path, Some(File(size))) else root
    case _ => root
  }

  function AfterCreate(root: seq<Entry>, path: Path, n: Node, ok: bool): seq<Entry> {
    if ok && Lookup(root, path) == None then PutOr(root, path, Some(n)) else root
  }

  function AfterUnlink(root: seq<Entry>, path: Path, ok: bool): seq<Entry> {
    match Lookup(root, path)
    case Some(File(_)) => if ok then PutOr(root, path, None) else root
    case _ => root
  }

  function AfterRmdir(root: seq<Entry>, path: Path, ok: bool): seq<Entry> {
    if ok && Lookup(root, path) == Some(Dir([])) then PutOr(root, path, None) else root
  }

  /** rename(2): the node is detached and put at the target, replacing a file by a file or an
      empty directory by a directory; a directory is not replaced by anything inside it. */
  function AfterRename(root: seq<Entry>, from: Path, to: Path, ok: bool): seq<Entry> {
    var node := Lookup(root, from);
    var detached := PutOr(root, from, None);
    if !ok || to <= from || node == None || !Replaceable(node.value, Lookup(detached, to)) then root
    else match Put(detached, to, node)
      case None => root
      case Some(root') => root'
  }

  predicate Replaceable(node: Node, target: Option<Node>) {
    match target
    case None => true
    case Some(File(_)) => node.File?
    case Some(Dir(entries)) => node.Dir? && entries == []
  }

  /** The bytes that a rename discards with the file it replaces. */
  function Discarded(root: seq<Entry>, from: Path, to: Path): nat {
    UsageAt(Lookup(PutOr(root, from, None), to))
  }

  function AfterReorder(root: seq<Entry>, i: nat): seq<Entry> {
    if i + 1 < |root| then SwapAt(root, i) else root
  }

  function AfterReorderIn(root: seq<Entry>, path: Path, i: nat): seq<Entry> {
    match Lookup(root, path)
    case Some(Dir(entries)) => PutOr(root, path, Some(Dir(AfterReorder(entries, i))))
    case _ => root
  }

  // The counter. Values are unsigned 64-bit.

  /** The sum a recomputation leaves in cur_size, before it is cut to 64 bits. */
  function Recomputed(root: seq<Entry>, walk: Option<nat>): nat {
    if walk.Some? then walk.value else Walk(root, 0)
  }

  /** `cur_size >= old_size ? cur_size - old_size + new_size : new_size`, before the cut. */
  function Adjusted(cur: nat, oldSize: nat, newSize: nat): nat {
    if cur >= oldSize then cur - oldSize + newSize else newSize
  }

  function TreeAfter(fs: Fs, op: Op): seq<Entry> {
    match op
    case Write(path, end, ok) => if Admitted(fs, op) then AfterWrite(fs.root, path, end, ok) else fs.root
    case Truncate(path, size, ok, _) => if Reserved(path) then fs.root else AfterTruncate(fs.root, path, size, ok)
    case Mknod(path, ok) => if Admitted(fs, op) then AfterCreate(fs.root, path, File(0), ok) else fs.root
    case Mkdir(path, ok) => if Reserved(path) then fs.root else AfterCreate(fs.root, path, Dir([]), ok)
    case Unlink(path, ok, _) => if Reserved(path) then fs.root else AfterUnlink(fs.root, path, ok)
    case Rmdir(path, ok, _) => if Reserved(path) then fs.root else AfterRmdir(fs.root, path, ok)
    case Rename(from, to, ok) => if Reserved(from) || Reserved(to) then fs.root else AfterRename(fs.root, from, to, ok)
    case Reorder(i) => AfterReorder(fs.root, i)
    case ReorderIn(path, i) => AfterReorderIn(fs.root, path, i)
  }

  /** Writes and new nodes are admitted while the cached size does not exceed the limit. */
  predicate Admitted(fs: Fs, op: Op)
    requires op.Write? || op.Mknod?
  {
    !Reserved(op.path) && fs.cur <= fs.max
  }

  /** The new cached size before it is cut to 64 bits. */
  function CounterAfter(fs: Fs, op: Op): nat {
    var root' := TreeAfter(fs, op);
    match op
    case Write(path, _, _) =>
      if !Admitted(fs, op) then fs.cur else
        (match (Lookup(fs.root, path), Lookup(root', path))
         case (Some(File(old_)), Some(File(new_))) => Adjusted(fs.cur, old_, new_)
         case _ => fs.cur)
    case Truncate(path, _, _, walk) => if Reserved(path) then fs.cur else Recomputed(root', walk)
    case Unlink(path, _, walk) => if Reserved(path) then fs.cur else Recomputed(root', walk)
    case Rmdir(path, _, walk) => if Reserved(path) then fs.cur else Recomputed(root', walk)
    case _ => fs.cur
  }

  function Step(fs: Fs, op: Op): Fs {
    Fs(TreeAfter(fs, op), CounterAfter(fs, op) % TWO_64, fs.max)
  }

  /** The operation recomputes the cached size. */
  predicate Recomputes(op: Op) {
    (op.Truncate? || op.Unlink? || op.Rmdir?) && !Reserved(op.path)
  }

  /** Recomputations succeed and no sum exceeds 64 bits. */
  predicate Sound(fs: Fs, op: Op) {
    (Recomputes(op) ==> op.walk == None) && CounterAfter(fs, op) < TWO_64
  }

  // The tree operations in terms of usage.

  lemma LookupAfterPut(es: seq<Entry>, path: Path, n: Node)
    requires Put(es, path, Some(n)).Some?
    ensures Lookup(Put(es, path, Some(n)).value, path) == Some(n)
    decreases |path|
  {
    var es' := Put(es, path, Some(n)).value;
    var i := IndexOf(es, path[0]);
    IndexAfterPut(es, es', path[0], i);
    if |path| > 1 {
      LookupAfterPut(es[i].node.entries, path[1..], n);
    }
  }

  lemma {:induction false} IndexAfterPut(es: seq<Entry>, es': seq<Entry>, name: string, i: nat)
    requires i == IndexOf(es, name) && i < |es'| && es'[i].name == name && es'[..i] == es[..i]
    ensures IndexOf(es', name) == i
  {
    if i > 0 {
      assert es'[0] == es'[..i][0] == es[..i][0] == es[0];
      assert es'[1..][..i - 1] == es'[..i][1..] == es[..i][1..] == es[1..][..i - 1];
      IndexAfterPut(es[1..], es'[1..], name, i - 1);
    }
  }

  lemma {:induction false} PutExisting(es: seq<Entry>, path: Path, n: Option<Node>)
    requires Lookup(es, path).Some?
    ensures Put(es, path, n).Some?
    decreases |path|
  {
    if |path| > 1 {
      var i := IndexOf(es, path[0]);
      PutExisting(es[i].node.entries, path[1..], n);
    }
  }

  lemma RenameUsage(root: seq<Entry>, from: Path, to: Path, ok: bool)
    ensures UsageAll(AfterRename(root, from, to, ok)) <= UsageAll(root)
    ensures AfterRename(root, from, to, ok) != root ==>
              UsageAll(AfterRename(root, from, to, ok)) == UsageAll(root) - Discarded(root, from, to)
  {
    var node := Lookup(root, from);
    if ok && !(to <= from) && node.Some? {
      PutExisting(root, from, None);
      PutUsage(root, from, None);
      var detached := Put(root, from, None).value;
      if Put(detached, to, node).Some? {
        PutUsage(detached, to, node);
      }
    }
  }

  lemma WriteUsage(fs: Fs, op: Op)
    requires op.Write? && Admitted(fs, op) && Lookup(fs.root, op.path).Some? && Lookup(fs.root, op.path).value.File?
    ensures var old_, new_ := Lookup(fs.root, op.path), Lookup(TreeAfter(fs, op), op.path);
      && new_.Some? && new_.value.File? && UsageAll(fs.root) >= old_.value.size
      && UsageAll(TreeAfter(fs, op)) == UsageAll(fs.root) - old_.value.size + new_.value.size
  {
    var File(size) := Lookup(fs.root, op.path).value;
    var n := File(if op.end > size then op.end else size);
    PutExisting(fs.root, op.path, Some(n));
    PutUsage(fs.root, op.path, Some(n));
    LookupAfterPut(fs.root, op.path, n);
  }

  lemma CreateUsage(root: seq<Entry>, path: Path, n: Node, ok: bool)
    requires Usage(n) == 0
    ensures UsageAll(AfterCreate(root, path, n, ok)) == UsageAll(root)
  {
    if Put(root, path, Some(n)).Some? {
      PutUsage(root, path, Some(n));
    }
  }

  lemma ReorderUsage(es: seq<Entry>, i: nat)
    ensures UsageAll(AfterReorder(es, i)) == UsageAll(es)
  {
    if i + 1 < |es| {
      SwapUsage(es, i);
    }
  }

  lemma ReorderInUsage(root: seq<Entry>, path: Path, i: nat)
    ensures UsageAll(AfterReorderIn(root, path, i)) == UsageAll(root)
  {
    match Lookup(root, path)
    case Some(Dir(entries)) =>
      ReorderUsage(entries, i);
      var n := Some(Dir(AfterReorder(entries, i)));
      PutExisting(root, path, n);
      PutUsage(root, path, n);
    case _ =>
  }

  // The quota.

  /** The cached size never falls below the bytes really stored. */
  predicate Covered(fs: Fs) {
    fs.cur >= UsageAll(fs.root)
  }

  /** Without a walk or a rename, the counter and the stored bytes change by the same amount. */
  lemma QuietStep(fs: Fs, op: Op)
    requires Covered(fs) && !Recomputes(op) && !op.Rename?
    ensures CounterAfter(fs, op) - fs.cur == UsageAll(TreeAfter(fs, op)) - UsageAll(fs.root)
  {
    match op
    case Write(path, _, _) =>
      if Admitted(fs, op) && Lookup(fs.root, path).Some? && Lookup(fs.root, path).value.File? {
        WriteUsage(fs, op);
      }
    case Mknod(path, ok) => CreateUsage(fs.root, path, File(0), ok);
    case Mkdir(path, ok) => CreateUsage(fs.root, path, Dir([]), ok);
    case Reorder(i) => ReorderUsage(fs.root, i);
    case ReorderIn(path, i) => ReorderInUsage(fs.root, path, i);
    case _ =>
  }

  lemma CounterCovers(fs: Fs, op: Op, root': seq<Entry>, counter: nat)
    requires Covered(fs) && Sound(fs, op) && root' == TreeAfter(fs, op) && counter == CounterAfter(fs, op)
    ensures counter >= UsageAll(root')
  {
    if Recomputes(op) {
      WalkExact(root', 0);
    } else if op.Rename? {
      RenameUsage(fs.root, op.from, op.to, op.ok);
    } else {
      QuietStep(fs, op);
    }
  }

  lemma StepKeepsCovered(fs: Fs, op: Op)
    requires Covered(fs) && Sound(fs, op)
    ensures Covered(Step(fs, op))
  {
    CounterCovers(fs, op, TreeAfter(fs, op), CounterAfter(fs, op));
  }

  /** A run starts with a walk over the source directory. */
  ghost predicate IsRun(states: seq<Fs>, ops: seq<Op>) {
    && |states| == |ops| + 1
    && states[0].cur == Walk(states[0].root, 0) < TWO_64
    && forall i :: 0 <= i < |ops| ==> Sound(states[i], ops[i]) && states[i + 1] == Step(states[i], ops[i])
  }

  lemma {:induction false} RunKeepsCovered(states: seq<Fs>, ops: seq<Op>, i: nat)
    requires IsRun(states, ops) && i <= |ops|
    ensures Covered(states[i]) && states[i].max == states[0].max
  {
    if i == 0 {
      WalkExact(states[0].root, 0);
    } else {
      RunKeepsCovered(states, ops, i - 1);
      assert Sound(states[i - 1], ops[i - 1]);
      StepKeepsCovered(states[i - 1], ops[i - 1]);
    }
  }

  /** In every run, whatever the tree and the order of readdir, a write or a new node is admitted
      only while the bytes really stored are within the limit; and it then adds to the cached size
      exactly what it adds to the stored bytes. */
  lemma AdmittedWithinLimit(states: seq<Fs>, ops: seq<Op>, i: nat)
    requires IsRun(states, ops) && i < |ops| && (ops[i].Write? || ops[i].Mknod?) && Admitted(states[i], ops[i])
    ensures UsageAll(states[i].root) <= states[0].max
    ensures states[i + 1].cur - states[i].cur == UsageAll(states[i + 1].root) - UsageAll(states[i].root)
  {
    RunKeepsCovered(states, ops, i);
    assert Sound(states[i], ops[i]) && states[i + 1] == Step(states[i], ops[i]);
    QuietStep(states[i], ops[i]);
  }

  /** The cached size is the stored size. */
  predicate Exact(fs: Fs) {
    fs.cur == UsageAll(fs.root)
  }

  /** The one thing that makes an exact counter inexact: a walk over an untidy tree, or a rename
      that discards bytes. */
  predicate KeepsExact(fs: Fs, op: Op) {
    if Recomputes(op) then Tidy(TreeAfter(fs, op), true)
    else op.Rename? && TreeAfter(fs, op) != fs.root ==> Discarded(fs.root, op.from, op.to) == 0
  }

  /** Every recomputation heals the counter, or not, depending on the tree alone. */
  lemma RecomputeExact(fs: Fs, op: Op)
    requires Recomputes(op) && Sound(fs, op)
    ensures Exact(Step(fs, op)) <==> Tidy(TreeAfter(fs, op), true)
  {
    WalkExact(TreeAfter(fs, op), 0);
  }

  lemma StaysExact(fs: Fs, op: Op)
    requires Exact(fs) && Sound(fs, op)
    ensures Exact(Step(fs, op)) <==> KeepsExact(fs, op)
  {
    if Recomputes(op) {
      RecomputeExact(fs, op);
    } else if op.Rename? {
      assert CounterAfter(fs, op) == fs.cur;
      RenameUsage(fs.root, op.from, op.to, op.ok);
    } else {
      assert KeepsExact(fs, op);
      QuietStep(fs, op);
    }
  }

  /** On one-level directories, as long as no rename that takes effect discards bytes, the counter
      is the sum. */
  lemma {:induction false} FlatRunIsExact(states: seq<Fs>, ops: seq<Op>, i: nat)
    requires IsRun(states, ops) && i <= |ops|
    requires forall k, j :: 0 <= k <= i && 0 <= j < |states[k].root| ==> states[k].root[j].node.File?
    requires forall k :: 0 <= k < i && ops[k].Rename? ==> KeepsExact(states[k], ops[k])
    ensures Exact(states[i])
  {
    FlatIsTidy(states[i].root, true);
    if i == 0 {
      WalkExact(states[0].root, 0);
    } else {
      FlatRunIsExact(states, ops, i - 1);
      assert Sound(states[i - 1], ops[i - 1]) && states[i] == Step(states[i - 1], ops[i - 1]);
      StaysExact(states[i - 1], ops[i - 1]);
    }
  }
}
