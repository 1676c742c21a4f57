/**
 What the tree operations of limitfs do, told path by path: a tree is what is
 found at each path, and every operation changes exactly the paths it should.
 */
module LimitFsNames {
  import opened Common
  import opened LimitFsTree
  import opened LimitFs

  /** No two entries of a directory have the same name, at every level. */
  predicate Distinct(es: seq<Entry>)
    decreases es, 0
  {
    Unique(es) && forall i :: 0 <= i < |es| ==> DistinctNode(es[i].node)
  }

  predicate Unique(es: seq<Entry>) {
    forall i, j :: 0 <= i < j < |es| ==> es[i].name != es[j].name
  }

  predicate DistinctNode(n: Node)
    decreases n, 1
  {
    n.Dir? ==> Distinct(n.entries)
  }

  /** The entry called `name`. */
  function Named(es: seq<Entry>, name: string): Option<Node> {
    var i := IndexOf(es, name);
    if i < |es| then Some(es[i].node) else None
  }

  /** What is found at a path below a node. */
  function Below(n: Option<Node>, rest: Path): Option<Node> {
    if rest == [] || n == None then n
    else match n.value
      case File(_) => None
      case Dir(sub) => Lookup(sub, rest)
  }

  lemma LookupByName(es: seq<Entry>, path: Path)
    requires path != []
    ensures Lookup(es, path) == Below(Named(es, path[0]), path[1..])
  {
  }

  lemma {:induction false} LookupTwice(es: seq<Entry>, path: Path, rest: Path)
    requires path != []
    ensures Lookup(es, path + rest) == Below(Lookup(es, path), rest)
    decreases |path|
  {
    var n := Named(es, path[0]);
    assert (path + rest)[1..] == path[1..] + rest;
    LookupByName(es, path);
    LookupByName(es, path + rest);
    if |path| > 1 {
      if n.Some? && n.value.Dir? {
        LookupTwice(n.value.entries, path[1..], rest);
      }
    } else {
      assert path[1..] + rest == rest;
    }
  }

  lemma NameIsUnique(es: seq<Entry>, i: nat)
    requires Unique(es) && i < |es|
    ensures Named(es, es[i].name) == Some(es[i].node)
  {
    var j := IndexOf(es, es[i].name);
    assert j <= i;
  }

  lemma NoSuchName(es: seq<Entry>, name: string)
    requires forall i :: 0 <= i < |es| ==> es[i].name != name
    ensures Named(es, name) == None
  {
  }

  /** The directory with the entry called `name` set or removed. */
  function PutName(es: seq<Entry>, name: string, n: Option<Node>): seq<Entry> {
    var i := IndexOf(es, name);
    if n.Some? then if i < |es| then es[i := Entry(name, n.value)] else es + [Entry(name, n.value)]
    else if i < |es| then es[..i] + es[i + 1..] else es
  }

  lemma PutNameUnique(es: seq<Entry>, name: string, n: Option<Node>)
    requires Unique(es)
    ensures Unique(PutName(es, name, n))
  {
  }

  lemma PutNameDistinct(es: seq<Entry>, name: string, n: Option<Node>)
    requires Distinct(es) && (n.Some? ==> DistinctNode(n.value))
    ensures Distinct(PutName(es, name, n))
  {
    var i, es' := IndexOf(es, name), PutName(es, name, n);
    PutNameUnique(es, name, n);
    if n.None? && i < |es| {
      assert forall k :: 0 <= k < |es'| ==> es'[k] == es[if k < i then k else k + 1];
    }
  }

  /** Exactly that name is changed. */
  lemma PutNameFound(es: seq<Entry>, name: string, n: Option<Node>, other: string)
    requires Unique(es)
    ensures Named(PutName(es, name, n), other) == if other == name then n else Named(es, other)
  {
    PutNameUnique(es, name, n);
    if other == name {
      PutSameName(es, name, n, PutName(es, name, n));
    } else {
      PutOtherName(es, name, n, other, PutName(es, name, n));
    }
  }

  lemma PutSameName(es: seq<Entry>, name: string, n: Option<Node>, es': seq<Entry>)
    requires Unique(es) && Unique(es') && es' == PutName(es, name, n)
    ensures Named(es', name) == n
  {
    var i := IndexOf(es, name);
    if n.Some? {
      NameIsUnique(es', i);
    } else {
      assert forall k :: 0 <= k < |es'| ==> es'[k] == es[if k < i then k else k + 1];
      NoSuchName(es', name);
    }
  }

  lemma PutOtherName(es: seq<Entry>, name: string, n: Option<Node>, other: string, es': seq<Entry>)
    requires Unique(es) && Unique(es') && es' == PutName(es, name, n) && other != name
    ensures Named(es', other) == Named(es, other)
  {
    var i, j := IndexOf(es, name), IndexOf(es, other);
    if j < |es| {
      var k := if n.None? && i < j then j - 1 else j;
      assert es'[k] == es[j];
      NameIsUnique(es', k);
    } else {
      StillNoSuchName(es, name, n, other, es');
    }
  }

  lemma StillNoSuchName(es: seq<Entry>, name: string, n: Option<Node>, other: string, es': seq<Entry>)
    requires es' == PutName(es, name, n) && other != name && IndexOf(es, other) == |es|
    ensures Named(es', other) == None
  {
    var i := IndexOf(es, name);
    forall k | 0 <= k < |es'| ensures es'[k].name != other {
      assert es'[k].name == name || es'[k] == es[if n.None? && i <= k then k + 1 else k];
    }
    NoSuchName(es', other);
  }

  /** Setting a node deep in the tree sets its directory one level up. */
  lemma PutByName(es: seq<Entry>, path: Path, n: Option<Node>)
    requires path != []
    ensures |path| == 1 ==> Put(es, path, n) == Some(PutName(es, path[0], n))
    ensures |path| > 1 ==>
      var dir := Named(es, path[0]);
      Put(es, path, n) ==
      if dir.Some? && dir.value.Dir? && Put(dir.value.entries, path[1..], n).Some?
      then Some(PutName(es, path[0], Some(Dir(Put(dir.value.entries, path[1..], n).value)))) else None
  {
  }

  lemma {:induction false} PutDistinct(es: seq<Entry>, path: Path, n: Option<Node>)
    requires Distinct(es) && (n.Some? ==> DistinctNode(n.value)) && Put(es, path, n).Some?
    ensures Distinct(Put(es, path, n).value)
    decreases |path|
  {
    PutByName(es, path, n);
    if |path| == 1 {
      PutNameDistinct(es, path[0], n);
    } else {
      var sub := NamedDir(es, path[0]);
      PutDistinct(sub, path[1..], n);
      PutNameDistinct(es, path[0], Some(Dir(Put(sub, path[1..], n).value)));
    }
  }

  lemma NamedDir(es: seq<Entry>, name: string) returns (sub: seq<Entry>)
    requires Distinct(es) && Named(es, name).Some? && Named(es, name).value.Dir?
    ensures Named(es, name) == Some(Dir(sub)) && Distinct(sub)
  {
    sub := Named(es, name).value.entries;
    assert DistinctNode(es[IndexOf(es, name)].node);
  }

  /** At the path and below it there is the new node. */
  lemma {:induction false} PutFound(es: seq<Entry>, path: Path, n: Option<Node>)
    requires Distinct(es) && (n.Some? ==> DistinctNode(n.value)) && Put(es, path, n).Some?
    ensures Lookup(Put(es, path, n).value, path) == n
    decreases |path|
  {
    var es' := Put(es, path, n).value;
    PutByName(es, path, n);
    LookupByName(es', path);
    if |path| == 1 {
      PutNameFound(es, path[0], n, path[0]);
    } else {
      var sub := NamedDir(es, path[0]);
      var sub' := Put(sub, path[1..], n).value;
      PutDistinct(sub, path[1..], n);
      PutNameFound(es, path[0], Some(Dir(sub')), path[0]);
      PutFound(sub, path[1..], n);
    }
  }

  lemma PrefixTails(p: Path, q: Path)
    requires p != [] && q != [] && p[0] == q[0]
    ensures p[1..] <= q[1..] <==> p <= q
  {
    assert p == [p[0]] + p[1..] && q == [q[0]] + q[1..];
  }

  /** Anywhere else nothing changes, except what directories above it contain. */
  lemma {:induction false} PutElsewhere(es: seq<Entry>, path: Path, n: Option<Node>, q: Path)
    requires Distinct(es) && (n.Some? ==> DistinctNode(n.value)) && Put(es, path, n).Some? && !(path <= q)
    ensures var before, after := Lookup(es, q), Lookup(Put(es, path, n).value, q);
      if q < path && q != [] then before.Some? && before.value.Dir? && after.Some? && after.value.Dir?
      else after == before
    decreases |path|
  {
    var es' := Put(es, path, n).value;
    if q != [] {
      PutByName(es, path, n);
      LookupByName(es, q);
      LookupByName(es', q);
      if |path| == 1 {
        PutNameFound(es, path[0], n, q[0]);
      } else {
        var sub := NamedDir(es, path[0]);
        var sub' := Put(sub, path[1..], n).value;
        PutDistinct(sub, path[1..], n);
        PutNameFound(es, path[0], Some(Dir(sub')), q[0]);
        if q[0] == path[0] && |q| > 1 {
          PrefixTails(path, q);
          PrefixTails(q, path);
          PutElsewhere(sub, path[1..], n, q[1..]);
        }
      }
    }
  }

  // What a caller sees at a path.

  datatype Sight = Nothing | Regular(size: nat) | Directory

  function SightOf(n: Option<Node>): Sight {
    match n
    case None => Nothing
    case Some(File(size)) => Regular(size)
    case Some(Dir(_)) => Directory
  }

  function Look(es: seq<Entry>, q: Path): Sight {
    SightOf(Lookup(es, q))
  }

  /** Setting a node changes what is seen at its path and below, and nowhere else. */
  lemma PutLook(es: seq<Entry>, path: Path, n: Option<Node>, q: Path)
    requires Distinct(es) && (n.Some? ==> DistinctNode(n.value)) && Put(es, path, n).Some?
    ensures Look(Put(es, path, n).value, q)
         == if path <= q then SightOf(Below(n, q[|path|..])) else Look(es, q)
  {
    if path <= q {
      PutFound(es, path, n);
      assert q == path + q[|path|..];
      LookupTwice(Put(es, path, n).value, path, q[|path|..]);
    } else {
      PutElsewhere(es, path, n, q);
    }
  }

  /** There is a directory in which the path can be. */
  predicate HasParent(es: seq<Entry>, path: Path) {
    path != [] && (|path| == 1 || Look(es, path[..|path| - 1]) == Directory)
  }

  lemma {:induction false} PutSucceeds(es: seq<Entry>, path: Path, n: Option<Node>)
    ensures Put(es, path, n).Some? <==> HasParent(es, path)
    decreases |path|
  {
    if path != [] {
      PutByName(es, path, n);
      if |path| > 1 {
        var dir, parent := Named(es, path[0]), path[..|path| - 1];
        LookupByName(es, parent);
        assert parent[1..] == path[1..][..|path| - 2];
        if dir.Some? && dir.value.Dir? {
          PutSucceeds(dir.value.entries, path[1..], n);
        }
      }
    }
  }

  lemma {:induction false} LookupDistinct(es: seq<Entry>, path: Path)
    requires Distinct(es) && Lookup(es, path).Some?
    ensures DistinctNode(Lookup(es, path).value)
    decreases |path|
  {
    var i := IndexOf(es, path[0]);
    assert DistinctNode(es[i].node);
    if |path| > 1 {
      LookupDistinct(es[i].node.entries, path[1..]);
    }
  }

  // The operations, path by path.

  /** The rename takes effect: there is something to move, it does not move into or onto what
      contains it, and the target is free, a file for a file, or an empty directory for a directory. */
  predicate Moves(root: seq<Entry>, from: Path, to: Path, ok: bool) {
    && ok && Look(root, from) != Nothing && !(to <= from) && !(from <= to) && HasParent(root, to)
    && match Look(root, to)
       case Nothing => true
       case Regular(_) => Look(root, from).Regular?
       case Directory => Look(root, from) == Directory && Lookup(root, to) == Some(Dir([]))
  }

  /** Not one of the two virtual files. */
  predicate Open(path: Path) {
    path != ["cur_size"] && path != ["max_size"]
  }

  /** What is seen at q after an operation on what was seen before. */
  function Expected(fs: Fs, op: Op, q: Path): Sight {
    var now := Look(fs.root, q);
    var open := op.Rename? || op.Reorder? || Open(op.path);
    match op
    case Write(path, end, ok) =>
      if q == path && open && ok && fs.cur <= fs.max && now.Regular? then Regular(Max(end, now.size)) else now
    case Truncate(path, size, ok, _) => if q == path && open && ok && now.Regular? then Regular(size) else now
    case Mknod(path, ok) =>
      if q == path && open && ok && fs.cur <= fs.max && now == Nothing && HasParent(fs.root, q) then Regular(0) else now
    case Mkdir(path, ok) =>
      if q == path && open && ok && now == Nothing && HasParent(fs.root, q) then Directory else now
    case Unlink(path, ok, _) => if q == path && open && ok && now.Regular? then Nothing else now
    case Rmdir(path, ok, _) =>
      if q == path && open && ok && Lookup(fs.root, q) == Some(Dir([])) then Nothing else now
    case Rename(from, to, ok) =>
      if !Open(from) || !Open(to) || !Moves(fs.root, from, to, ok) then now
      else if to <= q then Look(fs.root, from + q[|to|..])
      else if from <= q then Nothing
      else now
    case Reorder(_) => now
    case ReorderIn(_, _) => now
  }

  function Max(a: nat, b: nat): nat {
    if a < b then b else a
  }

  /** Nothing is below it. */
  predicate Leaf(n: Option<Node>) {
    n.Some? && n.value.Dir? ==> n.value.entries == []
  }

  lemma NothingBelow(root: seq<Entry>, path: Path, q: Path)
    requires path != [] && path <= q && q != path && Leaf(Lookup(root, path))
    ensures Look(root, q) == Nothing
  {
    assert q == path + q[|path|..];
    LookupTwice(root, path, q[|path|..]);
  }

  /** A leaf is set where a leaf was: it is seen there, and everything else is seen as before. */
  lemma SetLook(root: seq<Entry>, path: Path, n: Option<Node>, q: Path, root': seq<Entry>)
    requires root' == PutOr(root, path, n) && Distinct(root) && HasParent(root, path)
    requires Leaf(n) && Leaf(Lookup(root, path))
    ensures Distinct(root') && Look(root', q) == if q == path then SightOf(n) else Look(root, q)
  {
    PutSucceeds(root, path, n);
    assert root' == Put(root, path, n).value;
    PutDistinct(root, path, n);
    PutFound(root, path, n);
    if path <= q && q != path {
      NothingBelow(root, path, q);
      NothingBelow(root', path, q);
    } else if q != path {
      PutElsewhere(root, path, n, q);
    }
  }

  lemma {:induction false} ParentOfExisting(es: seq<Entry>, path: Path)
    requires Lookup(es, path).Some?
    ensures HasParent(es, path)
  {
    PutExisting(es, path, None);
    PutSucceeds(es, path, None);
  }

  lemma WriteLook(fs: Fs, op: Op, q: Path, root': seq<Entry>)
    requires Distinct(fs.root) && op.Write? && root' == TreeAfter(fs, op)
    ensures Distinct(root') && Look(root', q) == Expected(fs, op, q)
  {
    var node := Lookup(fs.root, op.path);
    if Open(op.path) && fs.cur <= fs.max && op.ok && node.Some? && node.value.File? {
      var size := node.value.size;
      ParentOfExisting(fs.root, op.path);
      SetLook(fs.root, op.path, Some(File(if op.end > size then op.end else size)), q, root');
    }
  }

  lemma TruncateLook(fs: Fs, op: Op, q: Path, root': seq<Entry>)
    requires Distinct(fs.root) && op.Truncate? && root' == TreeAfter(fs, op)
    ensures Distinct(root') && Look(root', q) == Expected(fs, op, q)
  {
    var node := Lookup(fs.root, op.path);
    if Open(op.path) && op.ok && node.Some? && node.value.File? {
      ParentOfExisting(fs.root, op.path);
      SetLook(fs.root, op.path, Some(File(op.size)), q, root');
    }
  }

  lemma UnlinkLook(fs: Fs, op: Op, q: Path, root': seq<Entry>)
    requires Distinct(fs.root) && op.Unlink? && root' == TreeAfter(fs, op)
    ensures Distinct(root') && Look(root', q) == Expected(fs, op, q)
  {
    var node := Lookup(fs.root, op.path);
    if Open(op.path) && op.ok && node.Some? && node.value.File? {
      ParentOfExisting(fs.root, op.path);
      SetLook(fs.root, op.path, None, q, root');
    }
  }

  lemma CreateLook(fs: Fs, op: Op, q: Path, root': seq<Entry>)
    requires Distinct(fs.root) && (op.Mknod? || op.Mkdir?) && root' == TreeAfter(fs, op)
    ensures Distinct(root') && Look(root', q) == Expected(fs, op, q)
  {
    var n := Some(if op.Mknod? then File(0) else Dir([]));
    PutSucceeds(fs.root, op.path, n);
    if Open(op.path) && (op.Mkdir? || fs.cur <= fs.max) && op.ok && Lookup(fs.root, op.path) == None
       && HasParent(fs.root, op.path) {
      SetLook(fs.root, op.path, n, q, root');
    }
  }

  lemma RmdirLook(fs: Fs, op: Op, q: Path, root': seq<Entry>)
    requires Distinct(fs.root) && op.Rmdir? && root' == TreeAfter(fs, op)
    ensures Distinct(root') && Look(root', q) == Expected(fs, op, q)
  {
    if Open(op.path) && op.ok && Lookup(fs.root, op.path) == Some(Dir([])) {
      ParentOfExisting(fs.root, op.path);
      SetLook(fs.root, op.path, None, q, root');
    }
  }

  /** The tree without what is at `from`. */
  lemma Detached(root: seq<Entry>, from: Path, q: Path)
    requires Distinct(root) && Lookup(root, from).Some?
    ensures var d := PutOr(root, from, None);
      && Distinct(d) && Look(d, q) == (if from <= q then Nothing else Look(root, q))
      && (!(from <= q) && !(q <= from) ==> Lookup(d, q) == Lookup(root, q))
  {
    PutExisting(root, from, None);
    PutDistinct(root, from, None);
    PutLook(root, from, None, q);
    if !(from <= q) {
      PutElsewhere(root, from, None, q);
    }
  }

  lemma ParentKept(root: seq<Entry>, from: Path, to: Path)
    requires Distinct(root) && Lookup(root, from).Some? && !(to <= from)
    ensures HasParent(PutOr(root, from, None), to) <==> HasParent(root, to) && !(from <= to)
  {
    if |to| > 1 {
      var parent := to[..|to| - 1];
      Detached(root, from, parent);
      assert from <= parent <==> from <= to;
    }
  }

  /** When the rename takes effect, and what the tree is then. */
  lemma RenameEffect(root: seq<Entry>, from: Path, to: Path, ok: bool)
    requires Distinct(root)
    ensures Moves(root, from, to, ok) ==>
      var d := PutOr(root, from, None);
      Put(d, to, Lookup(root, from)).Some? && AfterRename(root, from, to, ok) == Put(d, to, Lookup(root, from)).value
    ensures !Moves(root, from, to, ok) ==> AfterRename(root, from, to, ok) == root
  {
    if ok && Lookup(root, from).Some? && !(to <= from) {
      Detached(root, from, to);
      ParentKept(root, from, to);
      PutSucceeds(PutOr(root, from, None), to, Lookup(root, from));
    }
  }

  lemma RenameLook(root: seq<Entry>, from: Path, to: Path, ok: bool, q: Path)
    requires Distinct(root)
    ensures Distinct(AfterRename(root, from, to, ok))
    ensures Look(AfterRename(root, from, to, ok), q)
         == if !Moves(root, from, to, ok) then Look(root, q)
            else if to <= q then Look(root, from + q[|to|..]) else if from <= q then Nothing else Look(root, q)
  {
    RenameEffect(root, from, to, ok);
    if Moves(root, from, to, ok) {
      var node, d := Lookup(root, from), PutOr(root, from, None);
      LookupDistinct(root, from);
      Detached(root, from, q);
      PutDistinct(d, to, node);
      PutLook(d, to, node, q);
      if to <= q {
        LookupTwice(root, from, q[|to|..]);
      }
    }
  }

  lemma ReorderNamed(es: seq<Entry>, i: nat, name: string)
    requires Distinct(es)
    ensures Distinct(AfterReorder(es, i)) && Named(AfterReorder(es, i), name) == Named(es, name)
  {
    var es', j := AfterReorder(es, i), IndexOf(es, name);
    if i + 1 < |es| {
      assert forall k :: 0 <= k < |es| ==> es'[k] == es[if k == i then i + 1 else if k == i + 1 then i else k];
      if j < |es| {
        NameIsUnique(es', if j == i then i + 1 else if j == i + 1 then i else j);
      } else {
        NoSuchName(es', name);
      }
    }
  }

  lemma ReorderLook(es: seq<Entry>, i: nat, q: Path)
    requires Distinct(es)
    ensures Distinct(AfterReorder(es, i)) && Lookup(AfterReorder(es, i), q) == Lookup(es, q)
  {
    ReorderNamed(es, i, if q == [] then "" else q[0]);
    if q != [] {
      LookupByName(es, q);
      LookupByName(AfterReorder(es, i), q);
    }
  }

  lemma ReorderInLook(root: seq<Entry>, path: Path, i: nat, q: Path)
    requires Distinct(root)
    ensures Distinct(AfterReorderIn(root, path, i)) && Look(AfterReorderIn(root, path, i), q) == Look(root, q)
  {
    match Lookup(root, path)
    case Some(Dir(entries)) =>
      var n := Some(Dir(AfterReorder(entries, i)));
      LookupDistinct(root, path);
      PutExisting(root, path, n);
      ReorderLook(entries, i, []);
      PutDistinct(root, path, n);
      PutLook(root, path, n, q);
      if path <= q {
        assert q == path + q[|path|..];
        LookupTwice(root, path, q[|path|..]);
        ReorderLook(entries, i, q[|path|..]);
      }
    case _ =>
  }

  /** Every operation changes what is seen at exactly the paths it should, and names stay distinct. */
  lemma OperationExact(fs: Fs, op: Op, q: Path)
    requires Distinct(fs.root)
    ensures Distinct(TreeAfter(fs, op)) && Look(TreeAfter(fs, op), q) == Expected(fs, op, q)
  {
    match op
    case Write(_, _, _) => WriteLook(fs, op, q, TreeAfter(fs, op));
    case Truncate(_, _, _, _) => TruncateLook(fs, op, q, TreeAfter(fs, op));
    case Unlink(_, _, _) => UnlinkLook(fs, op, q, TreeAfter(fs, op));
    case Mknod(_, _) => CreateLook(fs, op, q, TreeAfter(fs, op));
    case Mkdir(_, _) => CreateLook(fs, op, q, TreeAfter(fs, op));
    case Rmdir(_, _, _) => RmdirLook(fs, op, q, TreeAfter(fs, op));
    case Rename(from, to, ok) => RenameLook(fs.root, from, to, ok, q);
    case Reorder(i) => ReorderLook(fs.root, i, q);
    case ReorderIn(path, i) => ReorderInLook(fs.root, path, i, q);
  }

  /** In every run that starts with distinct names, every operation does so. */
  lemma {:induction false} RunIsExact(states: seq<Fs>, ops: seq<Op>, i: nat, q: Path)
    requires IsRun(states, ops) && i <= |ops| && Distinct(states[0].root)
    ensures Distinct(states[i].root)
    ensures i < |ops| ==> Look(states[i + 1].root, q) == Expected(states[i], ops[i], q)
  {
    if i > 0 {
      RunIsExact(states, ops, i - 1, q);
      assert states[i] == Step(states[i - 1], ops[i - 1]);
      OperationExact(states[i - 1], ops[i - 1], q);
    }
    if i < |ops| {
      assert states[i + 1] == Step(states[i], ops[i]);
      OperationExact(states[i], ops[i], q);
    }
  }
}
