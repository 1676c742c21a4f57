/** The header that smemcap writes in front of a file, column by column. */
module Tar {
  import opened Common
  import opened TarOctal

  const BLOCK: nat := 512
  const SPACE: Byte := 32

  /** What the archive says about one file. */
  datatype Entry = Entry(path: seq<Byte>, mode: nat, uid: nat, gid: nat, mtime: nat, kind: nat, content: seq<Byte>)

  /** sprintf(header + at, ...): the characters and their NUL. */
  function PutString(h: seq<Byte>, at: nat, s: seq<Byte>): (r: seq<Byte>)
    requires at + |s| + 1 <= |h|
    ensures |r| == |h|
  {
    Overwrite(h, at, s + [0])
  }

  /** The sum of all bytes. */
  function Sum(h: seq<Byte>): nat {
    if h == [] then 0 else Sum(h[..|h| - 1]) + h[|h| - 1]
  }

  /** What plain `char` is on the machine that runs the writer. */
  datatype Char = Signed | Unsigned

  function CharValue(c: Char, b: Byte): int {
    if c == Signed && b >= 128 then b - 256 else b
  }

  /** The sum that writeheader computes, of plain chars. */
  function CharSum(c: Char, h: seq<Byte>): int {
    if h == [] then 0 else CharSum(c, h[..|h| - 1]) + CharValue(c, h[|h| - 1])
  }

  /** How many bytes are 128 or more. */
  function High(h: seq<Byte>): nat {
    if h == [] then 0 else High(h[..|h| - 1]) + if h[|h| - 1] >= 128 then 1 else 0
  }

  predicate Ascii(s: seq<Byte>) {
    forall i :: 0 <= i < |s| ==> s[i] < 128
  }

  /** What writeheader can print without leaving the header: octal arguments are 32-bit, and the
      size is a signed int. */
  predicate Printable(e: Entry) {
    && |e.path| < BLOCK
    && e.uid < TWO_32 && e.gid < TWO_32 && e.mtime < TWO_32 && |e.content| < 0x8000_0000 && e.kind < 10
  }

  lemma OctalLength(n: nat, width: nat)
    requires n < TWO_32 && width <= 11
    ensures |Octal(n, width)| <= 11
  {
    DigitsFit(n, 11);
    assert Pow8(3) == 512 && Pow8(7) == 4096 * Pow8(3) && Pow8(11) == 4096 * Pow8(7);
  }

  /** `mode & 0777`. */
  function Permissions(mode: nat): nat {
    mode % 512
  }

  lemma PermissionsLength(mode: nat)
    ensures |Octal(Permissions(mode), 7)| == 7
  {
    DigitsFit(Permissions(mode), 3);
    assert Pow8(3) == 512;
  }

  /** The header up to gid. */
  function Head(e: Entry): (h: seq<Byte>)
    requires Printable(e)
    ensures |h| == BLOCK
  {
    PermissionsLength(e.mode);
    OctalLength(e.uid, 7);
    OctalLength(e.gid, 7);
    var h1 := PutString(Zeros(BLOCK), 0, e.path);
    var h2 := PutString(h1, 100, Octal(Permissions(e.mode), 7));
    var h3 := PutString(h2, 108, Octal(e.uid, 7));
    PutString(h3, 116, Octal(e.gid, 7))
  }

  /** The header up to mtime. */
  function Numbers(e: Entry): (h: seq<Byte>)
    requires Printable(e)
    ensures |h| == BLOCK
  {
    OctalLength(|e.content|, 11);
    OctalLength(e.mtime, 7);
    PutString(PutString(Head(e), 124, Octal(|e.content|, 11)), 136, Octal(e.mtime, 7))
  }

  function Blanks(): (r: seq<Byte>)
    ensures |r| == 8 && forall i :: 0 <= i < 8 ==> r[i] == SPACE
  {
    seq(8, i => SPACE)
  }

  /** The header as it is summed: blanks in place of the checksum, and the type behind them. */
  function Draft(e: Entry): (h: seq<Byte>)
    requires Printable(e)
    ensures |h| == BLOCK
  {
    PutString(Numbers(e), 148, Blanks() + [ZERO + e.kind])
  }

  lemma {:induction false} SumBound(h: seq<Byte>)
    ensures Sum(h) <= 255 * |h|
  {
    if h != [] {
      SumBound(h[..|h| - 1]);
    }
  }

  lemma {:induction false} CharSumBound(c: Char, h: seq<Byte>)
    ensures -128 * |h| <= CharSum(c, h) <= 255 * |h|
  {
    if h != [] {
      CharSumBound(c, h[..|h| - 1]);
    }
  }

  /** The sum of signed chars misses 256 for every high byte. */
  lemma {:induction false} CharSumIs(c: Char, h: seq<Byte>)
    ensures CharSum(c, h) == Sum(h) - if c == Signed then 256 * High(h) else 0
  {
    if h != [] {
      CharSumIs(c, h[..|h| - 1]);
    }
  }

  lemma {:induction false} NoneHigh(h: seq<Byte>)
    ensures High(h) == 0 <==> Ascii(h)
  {
    if h != [] {
      var init := h[..|h| - 1];
      NoneHigh(init);
      assert forall i :: 0 <= i < |init| ==> init[i] == h[i];
    }
  }

  /** The sum of plain chars is the reader's sum if and only if chars are unsigned or no byte is
      128 or more. */
  lemma CharSumExact(c: Char, h: seq<Byte>)
    ensures CharSum(c, h) == Sum(h) <==> c == Unsigned || Ascii(h)
  {
    CharSumIs(c, h);
    NoneHigh(h);
  }

  /** The digits printed for the sum: %06o takes it as an unsigned int. */
  function CheckDigits(c: Char, e: Entry): seq<Byte>
    requires Printable(e)
  {
    Octal(CharSum(c, Draft(e)) % TWO_32, 6)
  }

  lemma HeadAscii(e: Entry)
    requires Printable(e) && Ascii(e.path)
    ensures Ascii(Head(e))
  {
    PermissionsLength(e.mode);
    OctalLength(e.uid, 7);
    OctalLength(e.gid, 7);
    var h1 := PutString(Zeros(BLOCK), 0, e.path);
    PutAscii(Zeros(BLOCK), 0, e.path);
    var h2 := PutString(h1, 100, Octal(Permissions(e.mode), 7));
    PutAscii(h1, 100, Octal(Permissions(e.mode), 7));
    var h3 := PutString(h2, 108, Octal(e.uid, 7));
    PutAscii(h2, 108, Octal(e.uid, 7));
    PutAscii(h3, 116, Octal(e.gid, 7));
  }

  lemma NumbersAscii(e: Entry)
    requires Printable(e) && Ascii(e.path)
    ensures Ascii(Numbers(e))
  {
    HeadAscii(e);
    OctalLength(|e.content|, 11);
    OctalLength(e.mtime, 7);
    PutAscii(Head(e), 124, Octal(|e.content|, 11));
    PutAscii(PutString(Head(e), 124, Octal(|e.content|, 11)), 136, Octal(e.mtime, 7));
  }

  lemma DraftAscii(e: Entry)
    requires Printable(e) && Ascii(e.path)
    ensures Ascii(Draft(e))
  {
    NumbersAscii(e);
    PutAscii(Numbers(e), 148, Blanks() + [ZERO + e.kind]);
  }

  lemma PutAscii(h: seq<Byte>, at: nat, s: seq<Byte>)
    requires at + |s| + 1 <= |h| && Ascii(h) && Ascii(s)
    ensures Ascii(PutString(h, at, s))
  {
    var r := PutString(h, at, s);
    forall i | 0 <= i < |r| ensures r[i] < 128 {
      assert r[i] == if i < at then h[i] else if i < at + |s| then s[i - at] else if i == at + |s| then 0 else h[i];
    }
  }

  lemma ChecksumLength(c: Char, e: Entry)
    requires Printable(e)
    ensures |CheckDigits(c, e)| <= 11
    ensures CharSum(c, Draft(e)) >= 0 ==> |CheckDigits(c, e)| == 6
    ensures CharSum(c, Draft(e)) < 0 ==> |CheckDigits(c, e)| == 11 && CheckDigits(c, e)[0] != ZERO
  {
    var sum := CharSum(c, Draft(e));
    CharSumBound(c, Draft(e));
    assert Pow8(3) == 512 && Pow8(6) == 512 * Pow8(3);
    assert Pow8(7) == 4096 * Pow8(3) && Pow8(10) == 512 * Pow8(7) && Pow8(11) == 4096 * Pow8(7);
    if sum >= 0 {
      assert sum % TWO_32 == sum;
      DigitsFit(sum, 6);
    } else {
      assert sum % TWO_32 == sum + TWO_32;
      DigitsFit(sum + TWO_32, 10);
      DigitsFit(sum + TWO_32, 11);
      DigitsLead(sum + TWO_32);
    }
  }

  /** writeheader: the draft with its sum printed over the blanks. */
  function Header(c: Char, e: Entry): (h: seq<Byte>)
    requires Printable(e)
    ensures |h| == BLOCK
  {
    ChecksumLength(c, e);
    PutString(Draft(e), 148, CheckDigits(c, e))
  }

  // Which bytes of the header come from where.

  lemma Untouched(h: seq<Byte>, at: nat, s: seq<Byte>, from: nat, to: nat)
    requires at + |s| + 1 <= |h| && from <= to <= |h| && (to <= at || at + |s| + 1 <= from)
    ensures PutString(h, at, s)[from..to] == h[from..to]
  {
  }

  /** Headers that agree on their first n bytes agree on any field within. */
  lemma SameField(a: seq<Byte>, b: seq<Byte>, n: nat, from: nat, to: nat)
    requires n <= |a| && n <= |b| && a[..n] == b[..n] && from <= to <= n
    ensures a[from..to] == b[from..to]
  {
    assert a[from..to] == a[..n][from..to] && b[from..to] == b[..n][from..to];
  }

  /** The type and the checksum change nothing before byte 148. */
  lemma NumbersStay(c: Char, e: Entry)
    requires Printable(e)
    ensures Header(c, e)[..148] == Numbers(e)[..148]
  {
    ChecksumLength(c, e);
    Untouched(Numbers(e), 148, Blanks() + [ZERO + e.kind], 0, 148);
    Untouched(Draft(e), 148, CheckDigits(c, e), 0, 148);
  }

  /** From `size` on, nothing before byte 124 changes any more. */
  lemma HeadStays(c: Char, e: Entry)
    requires Printable(e)
    ensures Header(c, e)[..124] == Head(e)[..124]
  {
    NumbersStay(c, e);
    OctalLength(|e.content|, 11);
    OctalLength(e.mtime, 7);
    var h5 := PutString(Head(e), 124, Octal(|e.content|, 11));
    Untouched(Head(e), 124, Octal(|e.content|, 11), 0, 124);
    Untouched(h5, 136, Octal(e.mtime, 7), 0, 124);
    SameField(Header(c, e), Numbers(e), 148, 0, 124);
  }

  /** The name field: the path, cut to 100 bytes. */
  lemma NameBytes(c: Char, e: Entry)
    requires Printable(e)
    ensures Header(c, e)[..100] == (e.path + Zeros(BLOCK))[..100]
  {
    HeadStays(c, e);
    PermissionsLength(e.mode);
    OctalLength(e.uid, 7);
    OctalLength(e.gid, 7);
    var h1 := PutString(Zeros(BLOCK), 0, e.path);
    var h2 := PutString(h1, 100, Octal(Permissions(e.mode), 7));
    var h3 := PutString(h2, 108, Octal(e.uid, 7));
    Untouched(h1, 100, Octal(Permissions(e.mode), 7), 0, 100);
    Untouched(h2, 108, Octal(e.uid, 7), 0, 100);
    Untouched(h3, 116, Octal(e.gid, 7), 0, 100);
    SameField(Header(c, e), Head(e), 124, 0, 100);
    assert h1[..100] == (e.path + Zeros(BLOCK))[..100];
  }

  /** The first `len` bytes that a string and its NUL leave in a field. */
  function FieldBytes(s: seq<Byte>, len: nat): seq<Byte> {
    (s + [0])[..Min(|s| + 1, len)]
  }

  lemma OwnerBytes(c: Char, e: Entry)
    requires Printable(e)
    ensures Header(c, e)[100..108] == FieldBytes(Octal(Permissions(e.mode), 7), 8)
    ensures Header(c, e)[108..116] == FieldBytes(Octal(e.uid, 7), 8)
    ensures Header(c, e)[116..124] == FieldBytes(Octal(e.gid, 7), 8)
  {
    HeadStays(c, e);
    PermissionsLength(e.mode);
    OctalLength(e.uid, 7);
    OctalLength(e.gid, 7);
    var h1 := PutString(Zeros(BLOCK), 0, e.path);
    var h2 := PutString(h1, 100, Octal(Permissions(e.mode), 7));
    var h3 := PutString(h2, 108, Octal(e.uid, 7));
    Untouched(h2, 108, Octal(e.uid, 7), 100, 108);
    Untouched(h3, 116, Octal(e.gid, 7), 100, 108);
    Untouched(h3, 116, Octal(e.gid, 7), 108, 116);
    FirstBytes(h1, 100, Octal(Permissions(e.mode), 7), 8);
    FirstBytes(h2, 108, Octal(e.uid, 7), 8);
    FirstBytes(h3, 116, Octal(e.gid, 7), 8);
    SameField(Header(c, e), Head(e), 124, 100, 108);
    SameField(Header(c, e), Head(e), 124, 108, 116);
    SameField(Header(c, e), Head(e), 124, 116, 124);
  }

  lemma AllBytes(h: seq<Byte>, at: nat, s: seq<Byte>)
    requires at + |s| + 1 <= |h|
    ensures PutString(h, at, s)[at..at + |s| + 1] == s + [0]
  {
  }

  lemma FirstBytes(h: seq<Byte>, at: nat, s: seq<Byte>, len: nat)
    requires at + |s| + 1 <= |h| && len <= |s| + 1
    ensures PutString(h, at, s)[at..at + len] == FieldBytes(s, len)
  {
    var r := PutString(h, at, s);
    assert r[at..at + |s| + 1] == s + [0];
    assert r[at..at + len] == r[at..at + |s| + 1][..len];
  }

  lemma SizeBytes(c: Char, e: Entry)
    requires Printable(e)
    ensures Header(c, e)[124..136] == Octal(|e.content|, 11) + [0]
  {
    NumbersStay(c, e);
    OctalLength(|e.content|, 11);
    OctalLength(e.mtime, 7);
    var o := Octal(|e.content|, 11);
    var h5 := PutString(Head(e), 124, o);
    AllBytes(Head(e), 124, o);
    Untouched(h5, 136, Octal(e.mtime, 7), 124, 136);
    SameField(Header(c, e), Numbers(e), 148, 124, 136);
  }

  lemma MtimeBytes(c: Char, e: Entry)
    requires Printable(e)
    ensures |Octal(e.mtime, 7)| <= 11
    ensures Header(c, e)[136..136 + |Octal(e.mtime, 7)| + 1] == Octal(e.mtime, 7) + [0]
  {
    NumbersStay(c, e);
    OctalLength(|e.content|, 11);
    OctalLength(e.mtime, 7);
    var to := 136 + |Octal(e.mtime, 7)| + 1;
    AllBytes(PutString(Head(e), 124, Octal(|e.content|, 11)), 136, Octal(e.mtime, 7));
    SameField(Header(c, e), Numbers(e), 148, 136, to);
  }

  /** Printing six digits over eight blanks leaves the last blank and what follows. */
  lemma OverBlanks(h: seq<Byte>, kind: Byte, o: seq<Byte>)
    requires |h| == BLOCK && |o| == 6
    ensures var d := PutString(h, 148, Blanks() + [kind]);
      var r := PutString(d, 148, o);
      r[148..155] == o + [0] && r[156] == kind && Overwrite(r, 148, Blanks()) == d
  {
    var d := PutString(h, 148, Blanks() + [kind]);
    var r := PutString(d, 148, o);
    AllBytes(h, 148, Blanks() + [kind]);
    AllBytes(d, 148, o);
    assert d == h[..148] + Blanks() + [kind] + [0] + h[158..];
    assert r[155..] == d[155..] && r[..148] == h[..148];
    assert d[156] == kind && d[156..] == [kind, 0] + h[158..];
    assert r[156] == r[155..][1] == d[155..][1] == d[156];
    assert r[156..] == r[155..][1..] == d[155..][1..] == d[156..];
    assert Overwrite(r, 148, Blanks()) == r[..148] + Blanks() + r[156..];
  }

  lemma ChecksumBytes(c: Char, e: Entry)
    requires Printable(e) && CharSum(c, Draft(e)) >= 0
    ensures |CheckDigits(c, e)| == 6 && Header(c, e)[148..155] == CheckDigits(c, e) + [0]
    ensures Header(c, e)[156] == ZERO + e.kind
    ensures Overwrite(Header(c, e), 148, Blanks()) == Draft(e)
  {
    ChecksumLength(c, e);
    OverBlanks(Numbers(e), ZERO + e.kind, CheckDigits(c, e));
  }

  /** n octal digits and a NUL. */
  predicate DigitsAt(h: seq<Byte>, at: nat, n: nat) {
    at + n < |h| && (forall i :: at <= i < at + n ==> IsDigit(h[i])) && h[at + n] == 0
  }

  lemma DigitsShown(h: seq<Byte>, at: nat, o: seq<Byte>)
    requires at + |o| + 1 <= |h| && h[at..at + |o| + 1] == o + [0] && forall i :: 0 <= i < |o| ==> IsDigit(o[i])
    ensures DigitsAt(h, at, |o|)
  {
    assert forall i :: at <= i <= at + |o| ==> h[i] == (o + [0])[i - at];
  }

  lemma OwnerShown(h: seq<Byte>, at: nat, n: nat)
    requires at + 8 <= |h| && h[at..at + 8] == FieldBytes(Octal(n, 7), 8)
    ensures n < 2097152 ==> DigitsAt(h, at, 7)
  {
    if n < 2097152 {
      assert Pow8(3) == 512 && Pow8(7) == 4096 * Pow8(3);
      FixedWidth(n, 7);
      assert FieldBytes(Octal(n, 7), 8) == Octal(n, 7) + [0];
      DigitsShown(h, at, Octal(n, 7));
    }
  }

  /** The columns of the header: seven digits for the permissions, and for the owners as far as
      they fit; eleven for the size, six for a sum that is not negative, then a blank and the type. */
  lemma Columns(c: Char, e: Entry)
    requires Printable(e)
    ensures var h := Header(c, e);
      && DigitsAt(h, 100, 7) && DigitsAt(h, 124, 11)
      && (e.uid < 2097152 ==> DigitsAt(h, 108, 7)) && (e.gid < 2097152 ==> DigitsAt(h, 116, 7))
      && (e.mtime < 2097152 ==> DigitsAt(h, 136, 7))
      && (CharSum(c, Draft(e)) >= 0 ==> DigitsAt(h, 148, 6) && h[155] == 32 && h[156] == 48 + e.kind)
  {
    var h := Header(c, e);
    OwnerBytes(c, e);
    OwnerShown(h, 100, Permissions(e.mode));
    OwnerShown(h, 108, e.uid);
    OwnerShown(h, 116, e.gid);
    NumbersShown(c, e, h);
    if CharSum(c, Draft(e)) >= 0 {
      ChecksumBytes(c, e);
      DigitsShown(h, 148, CheckDigits(c, e));
      BlankShown(c, e);
    }
  }

  lemma NumbersShown(c: Char, e: Entry, h: seq<Byte>)
    requires Printable(e) && h == Header(c, e)
    ensures DigitsAt(h, 124, 11) && (e.mtime < 2097152 ==> DigitsAt(h, 136, 7))
  {
    assert Pow8(3) == 512 && Pow8(7) == 4096 * Pow8(3) && Pow8(11) == 4096 * Pow8(7);
    SizeBytes(c, e);
    FixedWidth(|e.content|, 11);
    DigitsShown(h, 124, Octal(|e.content|, 11));
    MtimeBytes(c, e);
    if e.mtime < 2097152 {
      FixedWidth(e.mtime, 7);
      DigitsShown(h, 136, Octal(e.mtime, 7));
    }
  }

  lemma BlankShown(c: Char, e: Entry)
    requires Printable(e) && CharSum(c, Draft(e)) >= 0
    ensures Header(c, e)[155] == 32
  {
    ChecksumLength(c, e);
    assert Draft(e)[155] == (Blanks() + [ZERO + e.kind] + [0])[7];
  }
}
