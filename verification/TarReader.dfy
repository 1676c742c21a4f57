/**
 The tar archive that smemcap writes, block by block, against a reader that
 takes the fields from the header layout of the "ustar Interchange Format" (pax
 utility, POSIX.1-2017). The writer emits no magic and no end-of-archive
 blocks, and the reader asks for neither.
 */
module TarReader {
  import opened Common
  import opened TarOctal
  import opened Tar

  datatype Parsed = Bad | End | Good(entry: Entry, rest: seq<Byte>)

  /** Bytes that a file of `size` bytes takes in the archive: whole blocks. */
  function Padded(size: nat): nat {
    (size + BLOCK - 1) / BLOCK * BLOCK
  }

  predicate ChecksumValid(h: seq<Byte>)
    requires |h| == BLOCK
  {
    Parse(h[148..156], 0) == Sum(Overwrite(h, 148, Blanks()))
  }

  /** One entry: header fields by position, then the content in whole blocks. */
  function ReadEntry(s: seq<Byte>): Parsed {
    if s == [] then End
    else if |s| < BLOCK then Bad
    else
      var h := s[..BLOCK];
      var size := Parse(h[124..136], 0);
      if !ChecksumValid(h) || h[156] < ZERO || BLOCK + Padded(size) > |s| || size > Padded(size) then Bad
      else Good(Entry(UpToNul(h[..100]), Parse(h[100..108], 0), Parse(h[108..116], 0), Parse(h[116..124], 0),
                      Parse(h[136..148], 0), h[156] - ZERO, s[BLOCK..BLOCK + size]),
                s[BLOCK + Padded(size)..])
  }

  function ReadArchive(s: seq<Byte>): Option<seq<Entry>>
    decreases |s|
  {
    match ReadEntry(s)
    case Bad => None
    case End => Some([])
    case Good(e, rest) =>
      if |rest| >= |s| then None else
        match ReadArchive(rest)
        case None => None
        case Some(es) => Some([e] + es)
  }

  // The writer.

  /** The content, zero-padded to whole blocks. */
  function Body(content: seq<Byte>): (r: seq<Byte>)
    ensures content <= r && |r| == Padded(|content|)
  {
    content + Zeros(Padded(|content|) - |content|)
  }

  function WriteEntry(c: Char, e: Entry): seq<Byte>
    requires Printable(e)
  {
    Header(c, e) + Body(e.content)
  }

  predicate AllPrintable(es: seq<Entry>) {
    forall i :: 0 <= i < |es| ==> Printable(es[i])
  }

  function WriteArchive(c: Char, es: seq<Entry>): seq<Byte>
    requires AllPrintable(es)
  {
    if es == [] then [] else WriteEntry(c, es[0]) + WriteArchive(c, es[1..])
  }

  /** What an archive can say about an entry so that a reader gets it back. */
  predicate Storable(c: Char, e: Entry) {
    Printable(e) && e.uid < Pow8(8) && e.gid < Pow8(8) && |e.path| <= 100 && 0 !in e.path
    && (c == Signed ==> Ascii(e.path))
  }

  /** What a reader can get back of it: of the mode only the low nine bits are written. */
  function AsRead(e: Entry): Entry {
    e.(mode := e.mode % 512)
  }

  function AllAsRead(es: seq<Entry>): seq<Entry> {
    seq(|es|, i requires 0 <= i < |es| => AsRead(es[i]))
  }

  lemma ReadsFirst(es: seq<Entry>)
    requires es != []
    ensures AllAsRead(es) == [AsRead(es[0])] + AllAsRead(es[1..])
  {
  }

  predicate AllStorable(c: Char, es: seq<Entry>) {
    forall i :: 0 <= i < |es| ==> Storable(c, es[i])
  }

  lemma {:induction false} NameBack(path: seq<Byte>, rest: seq<Byte>)
    requires 0 !in path && (rest == [] || rest[0] == 0)
    ensures UpToNul(path + rest) == path
  {
    if path != [] {
      NameBack(path[1..], rest);
      assert (path + rest)[1..] == path[1..] + rest;
    } else {
      assert path + rest == rest;
    }
  }

  /** The path is recovered exactly when it has at most 100 bytes. */
  lemma NameExact(c: Char, e: Entry)
    requires Printable(e) && 0 !in e.path
    ensures UpToNul(Header(c, e)[..100]) == e.path <==> |e.path| <= 100
  {
    NameBytes(c, e);
    if |e.path| <= 100 {
      var rest := Zeros(100 - |e.path|);
      assert (e.path + Zeros(BLOCK))[..100] == e.path + rest;
      NameBack(e.path, rest);
    }
  }

  /** The permissions are recovered, whatever type bits the mode has; an owner is recovered exactly
      when it has at most eight octal digits. */
  lemma OwnerExact(c: Char, e: Entry)
    requires Printable(e)
    ensures Parse(Header(c, e)[100..108], 0) == e.mode % 512
    ensures Parse(Header(c, e)[108..116], 0) == e.uid <==> e.uid < Pow8(8)
    ensures Parse(Header(c, e)[116..124], 0) == e.gid <==> e.gid < Pow8(8)
  {
    OwnerBytes(c, e);
    assert Pow8(3) == 512 && Pow8(8) == 32768 * Pow8(3);
    FieldRoundTrip(Permissions(e.mode), 7, 8);
    FieldRoundTrip(e.uid, 7, 8);
    FieldRoundTrip(e.gid, 7, 8);
  }

  /** A number is read back from a field in which its digits and a NUL come first. */
  lemma FieldBack(field: seq<Byte>, n: nat, width: nat)
    requires |Octal(n, width)| < |field| && field[..|Octal(n, width)| + 1] == Octal(n, width) + [0]
    ensures Parse(field, 0) == n
  {
    var o := Octal(n, width);
    var rest := field[|o|..];
    assert field == o + rest && rest[0] == 0 by {
      DigitsInFront(field, o);
    }
    ParseStops(o, rest, 0);
    ParseOctal(n, width);
  }

  lemma DigitsInFront(field: seq<Byte>, o: seq<Byte>)
    requires |o| < |field| && field[..|o| + 1] == o + [0]
    ensures field == o + field[|o|..] && field[|o|] == 0
  {
    assert field[..|o|] == field[..|o| + 1][..|o|] == o;
    assert field[|o|] == field[..|o| + 1][|o|];
  }

  /** Size and modification time are 32-bit, so they are always recovered. */
  lemma NumbersBack(c: Char, e: Entry)
    requires Printable(e)
    ensures Parse(Header(c, e)[124..136], 0) == |e.content|
    ensures Parse(Header(c, e)[136..148], 0) == e.mtime
  {
    SizeBack(Header(c, e), c, e);
    MtimeBack(Header(c, e), c, e);
  }

  lemma SizeBack(h: seq<Byte>, c: Char, e: Entry)
    requires Printable(e) && h == Header(c, e)
    ensures Parse(h[124..136], 0) == |e.content|
  {
    SizeBytes(c, e);
    var o := Octal(|e.content|, 11);
    assert h[124..136][..|o| + 1] == h[124..136];
    FieldBack(h[124..136], |e.content|, 11);
  }

  lemma MtimeBack(h: seq<Byte>, c: Char, e: Entry)
    requires Printable(e) && h == Header(c, e)
    ensures Parse(h[136..148], 0) == e.mtime
  {
    MtimeBytes(c, e);
    var m := Octal(e.mtime, 7);
    assert h[136..148][..|m| + 1] == h[136..136 + |m| + 1];
    FieldBack(h[136..148], e.mtime, 7);
  }

  /** A sum that is not negative is read back. */
  lemma SumBack(c: Char, e: Entry)
    requires Printable(e) && CharSum(c, Draft(e)) >= 0
    ensures Parse(Header(c, e)[148..156], 0) == CharSum(c, Draft(e))
    ensures Sum(Overwrite(Header(c, e), 148, Blanks())) == Sum(Draft(e))
  {
    ChecksumBytes(c, e);
    CharSumBound(c, Draft(e));
    var sum, h := CharSum(c, Draft(e)), Header(c, e);
    assert sum % TWO_32 == sum;
    assert h[148..156][..7] == h[148..155];
    FieldBack(h[148..156], sum, 6);
  }

  /** A negative sum is printed with eleven digits: the eight that a reader looks at are far more
      than any sum of bytes. */
  lemma NegativeSum(c: Char, e: Entry)
    requires Printable(e) && CharSum(c, Draft(e)) < 0
    ensures !ChecksumValid(Header(c, e))
  {
    ChecksumLength(c, e);
    var h, o := Header(c, e), CheckDigits(c, e);
    FirstBytes(Draft(e), 148, o, 8);
    assert h[148..156] == (o + [0])[..8] == o[..8];
    ParseLead(o[..8]);
    assert Pow8(3) == 512 && Pow8(7) == 4096 * Pow8(3);
    SumBound(Overwrite(h, 148, Blanks()));
  }

  /** The checksum that is printed is the one a reader computes if and only if chars are unsigned
      or no byte of the header is 128 or more. */
  lemma ChecksumBack(c: Char, e: Entry)
    requires Printable(e)
    ensures ChecksumValid(Header(c, e)) <==> c == Unsigned || Ascii(Draft(e))
  {
    CharSumExact(c, Draft(e));
    if CharSum(c, Draft(e)) >= 0 {
      SumBack(c, e);
    } else {
      NegativeSum(c, e);
    }
  }

  /** For paths that fit their field, that is a condition on the path. */
  lemma PathDecides(e: Entry)
    requires Printable(e) && |e.path| <= 100
    ensures Ascii(Draft(e)) <==> Ascii(e.path)
  {
    if Ascii(e.path) {
      DraftAscii(e);
    } else {
      var i :| 0 <= i < |e.path| && e.path[i] >= 128;
      NameBytes(Unsigned, e);
      ChecksumLength(Unsigned, e);
      Untouched(Draft(e), 148, CheckDigits(Unsigned, e), 0, 148);
      SameField(Header(Unsigned, e), Draft(e), 148, 0, 100);
      assert Draft(e)[i] == Draft(e)[0..100][i] == (e.path + Zeros(BLOCK))[..100][i];
    }
  }

  lemma PaddedSize(size: nat)
    ensures size <= Padded(size) < size + BLOCK && Padded(size) % BLOCK == 0
  {
  }

  /** What the reader makes of a header with a valid checksum and the content it announces. */
  lemma ReadShape(h: seq<Byte>, content: seq<Byte>, rest: seq<Byte>)
    requires |h| == BLOCK && ChecksumValid(h) && h[156] >= ZERO && Parse(h[124..136], 0) == |content|
    ensures ReadEntry(h + Body(content) + rest)
         == Good(Entry(UpToNul(h[..100]), Parse(h[100..108], 0), Parse(h[108..116], 0), Parse(h[116..124], 0),
                       Parse(h[136..148], 0), h[156] - ZERO, content), rest)
  {
    var s := h + Body(content) + rest;
    PaddedSize(|content|);
    assert s[..BLOCK] == h;
    assert s[BLOCK..BLOCK + |content|] == Body(content)[..|content|] == content;
    assert s[BLOCK + Padded(|content|)..] == rest;
  }

  /** Every field of a storable entry is read back from its header. */
  lemma FieldsBack(c: Char, e: Entry, h: seq<Byte>)
    requires Storable(c, e) && h == Header(c, e)
    ensures ChecksumValid(h) && h[156] == ZERO + e.kind && Parse(h[124..136], 0) == |e.content|
    ensures UpToNul(h[..100]) == e.path && Parse(h[108..116], 0) == e.uid
    ensures Parse(h[100..108], 0) == e.mode % 512
    ensures Parse(h[116..124], 0) == e.gid && Parse(h[136..148], 0) == e.mtime
  {
    assert ChecksumValid(h) && h[156] == ZERO + e.kind by {
      PathDecides(e);
      CharSumExact(c, Draft(e));
      ChecksumBytes(c, e);
      ChecksumBack(c, e);
    }
    assert Parse(h[124..136], 0) == |e.content| && Parse(h[136..148], 0) == e.mtime by {
      NumbersBack(c, e);
    }
    assert UpToNul(h[..100]) == e.path by {
      NameExact(c, e);
    }
    OwnerExact(c, e);
  }

  /** One entry followed by anything is read back with what follows it. */
  lemma EntryBack(c: Char, e: Entry, rest: seq<Byte>)
    requires Storable(c, e)
    ensures ReadEntry(WriteEntry(c, e) + rest) == Good(AsRead(e), rest)
  {
    var h := Header(c, e);
    FieldsBack(c, e, h);
    ReadShape(h, e.content, rest);
  }

  lemma ReadStep(s: seq<Byte>, e: Entry, rest: seq<Byte>, es: seq<Entry>)
    requires ReadEntry(s) == Good(e, rest) && |rest| < |s| && ReadArchive(rest) == Some(es)
    ensures ReadArchive(s) == Some([e] + es)
  {
  }

  lemma EntryLength(c: Char, e: Entry)
    requires Printable(e)
    ensures |WriteEntry(c, e)| >= BLOCK && |WriteEntry(c, e)| % BLOCK == 0
  {
    PaddedSize(|e.content|);
    WholeBlocks(BLOCK, Padded(|e.content|));
  }

  lemma WholeBlocks(a: nat, b: nat)
    requires a % BLOCK == 0 && b % BLOCK == 0
    ensures (a + b) % BLOCK == 0
  {
  }

  /** Every archive is a whole number of blocks. */
  lemma {:induction false} ArchiveBlocks(c: Char, es: seq<Entry>)
    requires AllPrintable(es)
    ensures |WriteArchive(c, es)| % BLOCK == 0
  {
    if es != [] {
      ArchiveBlocks(c, es[1..]);
      EntryLength(c, es[0]);
      WholeBlocks(|WriteEntry(c, es[0])|, |WriteArchive(c, es[1..])|);
    }
  }

  /** An entry in front of an archive that is read back. */
  lemma ReadFirst(c: Char, e: Entry, rest: seq<Byte>, es: seq<Entry>, s: seq<Byte>, read: Option<seq<Entry>>)
    requires Storable(c, e) && s == WriteEntry(c, e) + rest && ReadArchive(rest) == Some(es) && read == ReadArchive(s)
    ensures read == Some([AsRead(e)] + es)
  {
    EntryLength(c, e);
    EntryBack(c, e, rest);
    ReadStep(s, AsRead(e), rest, es);
  }

  lemma ReadNext(c: Char, es: seq<Entry>, s: seq<Byte>, rest: seq<Byte>, read: Option<seq<Entry>>)
    requires es != [] && AllStorable(c, es) && s == WriteArchive(c, es) && rest == WriteArchive(c, es[1..])
    requires ReadArchive(rest) == Some(AllAsRead(es[1..])) && read == ReadArchive(s)
    ensures read == Some(AllAsRead(es))
  {
    ReadFirst(c, es[0], rest, AllAsRead(es[1..]), s, read);
    ReadsFirst(es);
  }

  lemma {:induction false} ArchiveBack(c: Char, es: seq<Entry>, s: seq<Byte>, read: Option<seq<Entry>>)
    requires AllStorable(c, es) && s == WriteArchive(c, es) && read == ReadArchive(s)
    ensures read == Some(AllAsRead(es))
  {
    if es != [] {
      var rest := WriteArchive(c, es[1..]);
      var tail := ReadArchive(rest);
      ArchiveBack(c, es[1..], rest, tail);
      ReadNext(c, es, s, rest, read);
    } else {
      assert AllAsRead(es) == [];
    }
  }

  /** A reader gets back every entry of every archive of storable entries: paths, permissions,
      owners, times, types and contents, with valid checksums. */
  lemma ArchiveRoundTrip(c: Char, es: seq<Entry>)
    requires AllStorable(c, es)
    ensures ReadArchive(WriteArchive(c, es)) == Some(AllAsRead(es))
  {
    ArchiveBack(c, es, WriteArchive(c, es), ReadArchive(WriteArchive(c, es)));
  }
}
