/**
 The directory tree below the limitfs source directory, what it really holds,
 and what the size walk of limitfs makes of it.
 */
module LimitFsTree {
  import opened Common

  /** Directory entries in the order readdir returns them; fifos and device nodes count as empty files. */
  datatype Node = File(size: nat) | Dir(entries: seq<Entry>)
  datatype Entry = Entry(name: string, node: Node)

  /** The bytes in all files of a node. */
  function Usage(n: Node): nat
    decreases n, 1
  {
    match n
    case File(size) => size
    case Dir(entries) => UsageAll(entries)
  }

  function UsageAll(es: seq<Entry>): nat
    decreases es, 0
  {
    if es == [] then 0 else Usage(es[0].node) + UsageAll(es[1..])
  }

  /** `cur_filesize` after one entry: a file overwrites it, a directory adds to what was left in it. */
  function EntryCount(e: Entry, left: nat): nat
    decreases e, 1
  {
    match e.node
    case File(size) => size
    case Dir(entries) => left + Walk(entries, 0)
  }

  /** What the walk over es adds to the caller's counter when `cur_filesize` holds `left`. */
  function Walk(es: seq<Entry>, left: nat): nat
    decreases es, 0
  {
    if es == [] then 0 else
      var count := EntryCount(es[0], left);
      count + Walk(es[1..], count)
  }

  /** Whatever was counted just before each subdirectory is empty, at every level. */
  predicate Tidy(es: seq<Entry>, nothingLeft: bool)
    decreases es, 0
  {
    es == [] ||
    (&& (es[0].node.Dir? ==> nothingLeft && TidyNode(es[0].node))
     && Tidy(es[1..], Usage(es[0].node) == 0))
  }

  predicate TidyNode(n: Node)
    decreases n, 1
  {
    n.Dir? ==> Tidy(n.entries, true)
  }

  /** The walk never misses a byte, and is exact if and only if the tree is tidy. */
  lemma {:induction false} WalkExact(es: seq<Entry>, left: nat)
    ensures Walk(es, left) >= UsageAll(es)
    ensures Walk(es, left) == UsageAll(es) <==> Tidy(es, left == 0)
    decreases es
  {
    if es != [] {
      var count := EntryCount(es[0], left);
      match es[0].node {
        case File(_) =>
        case Dir(sub) => WalkExact(sub, 0);
      }
      WalkExact(es[1..], count);
      if count == Usage(es[0].node) {
        assert (count == 0) == (Usage(es[0].node) == 0);
      }
    }
  }

  /** A directory of plain files is counted exactly. */
  lemma {:induction false} FlatIsTidy(es: seq<Entry>, nothingLeft: bool)
    requires forall i :: 0 <= i < |es| ==> es[i].node.File?
    ensures Tidy(es, nothingLeft)
  {
    if es != [] {
      FlatIsTidy(es[1..], Usage(es[0].node) == 0);
    }
  }

  // Looking up and changing one place in the tree.

  /** Index of the entry called `name`, or the number of entries. */
  function IndexOf(es: seq<Entry>, name: string): (i: nat)
    ensures i <= |es|
    ensures i < |es| ==> es[i].name == name
    ensures forall j :: 0 <= j < i ==> es[j].name != name
  {
    if es == [] || es[0].name == name then 0 else 1 + IndexOf(es[1..], name)
  }

  function Lookup(es: seq<Entry>, path: seq<string>): Option<Node>
    decreases |path|
  {
    if path == [] then None else
      var i := IndexOf(es, path[0]);
      if i == |es| then None
      else if |path| == 1 then Some(es[i].node)
      else match es[i].node
        case File(_) => None
        case Dir(sub) => Lookup(sub, path[1..])
  }

  /** The tree with the node at `path` set or removed; None when the parent is not a directory. */
  function Put(es: seq<Entry>, path: seq<string>, n: Option<Node>): Option<seq<Entry>>
    decreases |path|
  {
    if path == [] then None else
      var i := IndexOf(es, path[0]);
      if |path| == 1 then
        if n.Some? then Some(if i < |es| then es[i := Entry(path[0], n.value)] else es + [Entry(path[0], n.value)])
        else Some(if i < |es| then es[..i] + es[i + 1..] else es)
      else if i == |es| then None
      else match es[i].node
        case File(_) => None
        case Dir(sub) =>
          match Put(sub, path[1..], n)
          case None => None
          case Some(sub') => Some(es[i := Entry(path[0], Dir(sub'))])
  }

  function UsageAt(n: Option<Node>): nat {
    if n.Some? then Usage(n.value) else 0
  }

  lemma {:induction false} UsageOfConcat(a: seq<Entry>, b: seq<Entry>)
    ensures UsageAll(a + b) == UsageAll(a) + UsageAll(b)
  {
    if a == [] {
      assert a + b == b;
    } else {
      UsageOfConcat(a[1..], b);
      assert (a + b)[1..] == a[1..] + b;
    }
  }

  lemma UsageOfSplit(es: seq<Entry>, i: nat)
    requires i < |es|
    ensures UsageAll(es) == UsageAll(es[..i]) + Usage(es[i].node) + UsageAll(es[i + 1..])
  {
    assert es == es[..i] + es[i..];
    UsageOfConcat(es[..i], es[i..]);
    assert es[i..][1..] == es[i + 1..];
  }

  lemma UsageOfUpdate(es: seq<Entry>, i: nat, e: Entry)
    requires i < |es|
    ensures UsageAll(es[i := e]) == UsageAll(es) - Usage(es[i].node) + Usage(e.node)
  {
    UsageOfSplit(es, i);
    UsageOfSplit(es[i := e], i);
    assert es[i := e][..i] == es[..i] && es[i := e][i + 1..] == es[i + 1..];
  }

  /** Changing one place changes the usage by exactly what left and what came. */
  lemma {:induction false} PutUsage(es: seq<Entry>, path: seq<string>, n: Option<Node>)
    requires Put(es, path, n).Some?
    ensures UsageAll(es) >= UsageAt(Lookup(es, path))
    ensures UsageAll(Put(es, path, n).value) == UsageAll(es) - UsageAt(Lookup(es, path)) + UsageAt(n)
    decreases |path|
  {
    var i := IndexOf(es, path[0]);
    if i < |es| {
      UsageOfSplit(es, i);
    }
    if |path| > 1 {
      var sub := es[i].node.entries;
      PutUsage(sub, path[1..], n);
      UsageOfUpdate(es, i, Entry(path[0], Dir(Put(sub, path[1..], n).value)));
    } else if n.Some? {
      if i < |es| {
        UsageOfUpdate(es, i, Entry(path[0], n.value));
      } else {
        UsageOfConcat(es, [Entry(path[0], n.value)]);
      }
    } else if i < |es| {
      UsageOfConcat(es[..i], es[i + 1..]);
    }
  }

  /** readdir may return two neighbours of a directory in the other order. */
  function SwapAt(es: seq<Entry>, i: nat): seq<Entry>
    requires i + 1 < |es|
  {
    es[i := es[i + 1]][i + 1 := es[i]]
  }

  lemma SwapUsage(es: seq<Entry>, i: nat)
    requires i + 1 < |es|
    ensures UsageAll(SwapAt(es, i)) == UsageAll(es)
  {
    UsageOfUpdate(es, i, es[i + 1]);
    UsageOfUpdate(es[i := es[i + 1]], i + 1, es[i]);
  }
}
