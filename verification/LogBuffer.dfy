/**
 The log buffer driver: a byte region is cut into pieces, each piece into lines,
 and every complete line is printed without carriage returns and cut to the size
 of a local buffer.
 */
module LogBuffer {
  import opened Common
  import opened Bits

  const LOGBUFF_LEN: nat := 0x8000
  const LOGBUFF_MASK: nat := 0x7fff
  const LOGBUFF_SIZE: nat := 2048
  const HEADER_SIZE: nat := 40    // sizeof(logbuff_t)

  const NUL: Byte := 0
  const NL: Byte := 10
  const CR: Byte := 13

  /** The longest part of a line that is printed in front of its newline. */
  const LINE_MAX: nat := LOGBUFF_SIZE - 2

  function NoCr(s: seq<Byte>): seq<Byte> {
    if s == [] then [] else
      var before := NoCr(s[..|s| - 1]);
      if s[|s| - 1] == CR then before else before + [s[|s| - 1]]
  }

  /** The newline-terminated segments of a text, and what follows the last newline. */
  datatype Text = Text(lines: seq<seq<Byte>>, tail: seq<Byte>)

  function Split(s: seq<Byte>): Text {
    if s == [] then Text([], []) else
      var before := Split(s[..|s| - 1]);
      var c := s[|s| - 1];
      if c == NL then Text(before.lines + [before.tail], []) else Text(before.lines, before.tail + [c])
  }

  /** The text that a list of lines and a tail come from. */
  function Unsplit(lines: seq<seq<Byte>>, tail: seq<Byte>): seq<Byte> {
    if lines == [] then tail else lines[0] + [NL] + Unsplit(lines[1..], tail)
  }

  lemma {:induction false} UnsplitAppend(lines: seq<seq<Byte>>, line: seq<Byte>, tail: seq<Byte>)
    ensures Unsplit(lines + [line], tail) == Unsplit(lines, line + [NL] + tail)
  {
    if lines == [] {
      assert [line][1..] == [];
    } else {
      assert (lines + [line])[1..] == lines[1..] + [line];
      UnsplitAppend(lines[1..], line, tail);
    }
  }

  lemma {:induction false} UnsplitTail(lines: seq<seq<Byte>>, tail: seq<Byte>, more: seq<Byte>)
    ensures Unsplit(lines, tail + more) == Unsplit(lines, tail) + more
  {
    if lines != [] {
      UnsplitTail(lines[1..], tail, more);
    }
  }

  /** Split reads a text as lines: it rebuilds the text and no part of it contains a newline. */
  lemma {:induction false} SplitIsLines(s: seq<Byte>)
    ensures Unsplit(Split(s).lines, Split(s).tail) == s
    ensures NL !in Split(s).tail && forall i :: 0 <= i < |Split(s).lines| ==> NL !in Split(s).lines[i]
  {
    if s != [] {
      var n := |s| - 1;
      SplitIsLines(s[..n]);
      var before := Split(s[..n]);
      assert s == s[..n] + [s[n]];
      if s[n] == NL {
        UnsplitAppend(before.lines, before.tail, []);
        assert before.tail + [NL] + [] == before.tail + [NL];
        UnsplitTail(before.lines, before.tail, [NL]);
      } else {
        UnsplitTail(before.lines, before.tail, [s[n]]);
      }
    }
  }

  /** A line as it is kept in the local buffer: cut, with its newline. */
  function Cut(line: seq<Byte>): seq<Byte> {
    line[..Min(|line|, LINE_MAX)] + [NL]
  }

  /** What %s prints of it. */
  function Print(line: seq<Byte>): seq<Byte> {
    UpToNul(Cut(line))
  }

  function PrintAll(lines: seq<seq<Byte>>): (r: seq<seq<Byte>>)
    ensures |r| == |lines|
    ensures forall i :: 0 <= i < |lines| ==> r[i] == Print(lines[i])
  {
    seq(|lines|, i requires 0 <= i < |lines| => Print(lines[i]))
  }

  /** What is printed for a region that is split into lines at once. */
  function PrintLines(s: seq<Byte>): seq<seq<Byte>> {
    PrintAll(Split(NoCr(s)).lines)
  }

  lemma IndexMask(i: nat)
    requires i < LOGBUFF_LEN
    ensures BitAnd(i, LOGBUFF_MASK) == i
  {
    assert Ones(15) == 0x7fff;
    AndOnes(i, 15);
    LowOfSmall(i, 15);
  }

  /** One more byte of the region, as seen by the line splitter. */
  lemma NextByte(buf: seq<Byte>, k: nat)
    requires k < |buf|
    ensures var t, t' := Split(NoCr(buf[..k])), Split(NoCr(buf[..k + 1]));
      t' == if buf[k] == CR then t
            else if buf[k] == NL then Text(t.lines + [t.tail], [])
            else Text(t.lines, t.tail + [buf[k]])
  {
    assert buf[..k + 1][..k] == buf[..k];
    var s := NoCr(buf[..k]);
    assert (s + [buf[k]])[..|s|] == s;
  }

  lemma PrintOneMore(lines: seq<seq<Byte>>, line: seq<Byte>)
    ensures PrintAll(lines + [line]) == PrintAll(lines) + [Print(line)]
  {
  }

  /** What %s prints of a buffer that holds a terminated line. */
  lemma PrintBuffer(buffer: seq<Byte>, n: nat)
    requires n < |buffer| && buffer[n] == NUL
    ensures UpToNul(buffer) == UpToNul(buffer[..n])
  {
    var r, q := UpToNul(buffer), UpToNul(buffer[..n]);
    assert |r| <= n && |q| <= |r|;
    assert r == q;
  }

  /** The local buffer holds what is kept of an unfinished line. */
  predicate Keeps(buffer: seq<Byte>, n: nat, tail: seq<Byte>) {
    n == Min(|tail|, LINE_MAX) && n <= |buffer| && buffer[..n] == tail[..n]
  }

  /** One byte stored behind an unfinished line: it is kept, or overwritten by the next one. */
  lemma KeepsByte(buffer: seq<Byte>, n: nat, tail: seq<Byte>, c: Byte)
    requires |buffer| == LOGBUFF_SIZE && Keeps(buffer, n, tail) && buffer[n] == c
    ensures Keeps(buffer, if n + 1 >= LOGBUFF_SIZE - 1 then n else n + 1, tail + [c])
  {
    assert |tail| < LINE_MAX ==> buffer[..n + 1] == tail + [c];
  }

  /** A newline stored behind it makes the line that is printed. */
  lemma KeepsLine(buffer: seq<Byte>, n: nat, tail: seq<Byte>)
    requires |buffer| == LOGBUFF_SIZE && Keeps(buffer, n, tail) && buffer[n] == NL
    ensures buffer[..n + 1] == Cut(tail)
  {
  }

  /** The end of a line: terminate the local buffer and print it. */
  method FinishLine(local: array<Byte>, n: nat) returns (line: seq<Byte>)
    requires n < local.Length
    modifies local
    ensures line == UpToNul(old(local[..n]))
  {
    local[n] := NUL;
    PrintBuffer(local[..], n);
    assert local[..][..n] == old(local[..n]);
    line := UpToNul(local[..]);
  }

  /** process_logbuffer on a piece of at most LOGBUFF_LEN bytes: the local buffer is never
      overrun, and exactly the complete lines are printed, without CRs and cut to fit. */
  method Process(buf: seq<Byte>) returns (out: seq<seq<Byte>>)
    requires |buf| <= LOGBUFF_LEN
    ensures out == PrintLines(buf)
  {
    var local := new Byte[LOGBUFF_SIZE](_ => 0);
    out := [];
    var logIdx, localIdx := 0, 0;
    ghost var t := Text([], []);
    while logIdx < |buf|
      invariant 0 <= logIdx <= |buf| && 0 <= localIdx
      invariant t == Split(NoCr(buf[..logIdx]))
      invariant out == PrintAll(t.lines) && Keeps(local[..], localIdx, t.tail)
    {
      IndexMask(logIdx);
      NextByte(buf, logIdx);
      var c := buf[BitAnd(logIdx, LOGBUFF_MASK)];
      if c == CR {
        logIdx := logIdx + 1;
        continue;
      }
      ghost var before := local[..];
      local[localIdx] := c;
      assert Keeps(local[..], localIdx, t.tail) by {
        assert local[..][..localIdx] == before[..localIdx];
      }
      if c == NL {
        KeepsLine(local[..], localIdx, t.tail);
        localIdx := localIdx + 1;
        PrintOneMore(t.lines, t.tail);
        assert local[..localIdx] == local[..][..localIdx];
        var line := FinishLine(local, localIdx);
        out := out + [line];
        localIdx := 0;
        t := Text(t.lines + [t.tail], []);
      } else {
        KeepsByte(local[..], localIdx, t.tail, c);
        localIdx := localIdx + 1;
        t := Text(t.lines, t.tail + [c]);
      }
      if localIdx >= LOGBUFF_SIZE - 1 {
        localIdx := localIdx - 1;
      }
      logIdx := logIdx + 1;
    }
    assert buf[..logIdx] == buf;
  }

  // The region in pieces.

  function Concat<T>(parts: seq<seq<T>>): seq<T> {
    if parts == [] then [] else parts[0] + Concat(parts[1..])
  }

  /** The pieces that the loop of logbuffer_show takes from a region. */
  function Pieces(s: seq<Byte>): seq<seq<Byte>> {
    if s == [] then []
    else if |s| <= LOGBUFF_LEN then [s]
    else [s[..LOGBUFF_LEN]] + Pieces(s[LOGBUFF_LEN..])
  }

  /** Every byte of the region is visited exactly once, in order, in pieces that fit the index mask;
      only the last one may be shorter. */
  lemma {:induction false} PiecesCover(s: seq<Byte>)
    ensures Concat(Pieces(s)) == s
    ensures forall i :: 0 <= i < |Pieces(s)| ==> 0 < |Pieces(s)[i]| <= 0x8000
    ensures forall i :: 0 <= i < |Pieces(s)| - 1 ==> |Pieces(s)[i]| == 0x8000
  {
    if |s| > LOGBUFF_LEN {
      PiecesCover(s[LOGBUFF_LEN..]);
      assert Pieces(s)[1..] == Pieces(s[LOGBUFF_LEN..]);
      assert s == s[..LOGBUFF_LEN] + s[LOGBUFF_LEN..];
    } else if s != [] {
      assert [s][1..] == [] && s + [] == s;
    }
  }

  /** What is printed piece by piece. */
  function PrintPieces(pieces: seq<seq<Byte>>): seq<seq<Byte>> {
    if pieces == [] then [] else PrintLines(pieces[0]) + PrintPieces(pieces[1..])
  }

  /** Where the byte at an offset into the log lies in the mapping: the sum wraps at 64 bits. */
  function Position(offset: nat): nat {
    (HEADER_SIZE + offset) % TWO_64
  }

  /** Where the last piece is due to end: at the end offset, or where the loop's own test stops it
      because that offset wraps. */
  function Limit(size: nat, end: nat): nat {
    if end + HEADER_SIZE < TWO_64 then end + HEADER_SIZE else size
  }

  /** The driver prints something at all: there is a log, and the offsets pass its check. */
  predicate Accepted(size: nat, start: nat, end: nat) {
    size > HEADER_SIZE && start <= end && Position(end) <= size
  }

  /** No piece leaves the mapping: there is none, the end offset does not wrap, or the pieces happen
      to end where the mapping ends. */
  predicate StaysInside(size: nat, start: nat, end: nat) {
    || start == end || end + HEADER_SIZE < TWO_64 || Position(start) >= size
    || (size - Position(start)) % LOGBUFF_LEN == 0
  }

  /** What is printed for the bytes of the mapping between two positions. */
  function Printed(mem: seq<Byte>, from: nat, to: nat): seq<seq<Byte>>
    requires to <= |mem|
  {
    if from >= to then [] else PrintPieces(Pieces(mem[from..to]))
  }

  /** Where the loop may stand. Offset and position move together, and only a first offset may be
      one that wraps. If the end offset wraps, the position stays a whole number of pieces behind
      the first. */
  predicate Going(size: nat, start: nat, end: nat, offset: nat) {
    && offset <= end && (start == end ==> offset == start)
    && ((offset == start && offset < TWO_64) || HEADER_SIZE + offset < TWO_64)
    && (end + HEADER_SIZE < TWO_64 ==> start <= offset)
    && (end + HEADER_SIZE >= TWO_64 && start < end ==>
          && offset < end
          && (|| Position(offset) == Position(start)
              || (&& Position(start) < size && Position(offset) <= size
                  && (size - Position(offset)) % LOGBUFF_LEN == (size - Position(start)) % LOGBUFF_LEN)))
  }

  /** `size` in the loop: what is left up to the end offset, or a whole piece. */
  function PieceSize(offset: nat, end: nat): nat
    requires offset <= end
  {
    if (offset + LOGBUFF_LEN) % TWO_64 > end then end - offset else LOGBUFF_LEN
  }

  /** What the loop has still to print from an offset on. */
  function ToPrint(mem: seq<Byte>, start: nat, end: nat, offset: nat): seq<seq<Byte>>
    requires Limit(|mem|, end) <= |mem|
  {
    if start == end then [] else Printed(mem, Position(offset), Limit(|mem|, end))
  }

  /** One round of the loop: the piece is inside the mapping and is printed, or it is not. */
  method ShowPiece(mem: seq<Byte>, ghost start: nat, end: nat, offset: nat)
    returns (inside: bool, printed: seq<seq<Byte>>, next: nat)
    requires start < TWO_64 && end < TWO_64 && |mem| < TWO_63 && Accepted(|mem|, start, end)
    requires offset < end && Position(offset) < |mem| && Going(|mem|, start, end, offset)
    requires Limit(|mem|, end) <= |mem|
    ensures !inside ==> !StaysInside(|mem|, start, end)
    ensures inside ==> && Going(|mem|, start, end, next) && Position(next) > Position(offset)
                       && ToPrint(mem, start, end, offset) == printed + ToPrint(mem, start, end, next)
  {
    var size := PieceSize(offset, end);
    var position := Position(offset);
    NextPiece(|mem|, start, end, offset);
    inside, printed, next := position + size <= |mem|, [], (offset + size) % TWO_64;
    if inside {
      PieceStep(mem, position, Limit(|mem|, end), size);
      printed := Process(mem[position..position + size]);
    }
  }

  /** logbuffer_show once the buffer is mapped and its magic is right. Nothing is printed when the
      offsets are refused. Otherwise every piece lies inside the mapping if and only if the offsets
      do not wrap badly; then the region is printed piece by piece. */
  method Show(mem: seq<Byte>, start: nat, end: nat) returns (out: seq<seq<Byte>>, inside: bool)
    requires start < TWO_64 && end < TWO_64 && |mem| < TWO_63
    ensures !Accepted(|mem|, start, end) ==> out == [] && inside
    ensures Accepted(|mem|, start, end) ==>
      && (inside <==> StaysInside(|mem|, start, end)) && Limit(|mem|, end) <= |mem|
      && (inside ==> out == if start == end then [] else Printed(mem, Position(start), Limit(|mem|, end)))
  {
    out, inside := [], true;
    if |mem| <= HEADER_SIZE || start > end || Position(end) > |mem| {
      return;
    }
    LimitFits(|mem|, start, end);
    ghost var goal := ToPrint(mem, start, end, start);
    var offset: nat := start;
    while offset < end && Position(offset) < |mem|
      invariant inside && Going(|mem|, start, end, offset)
      invariant out + ToPrint(mem, start, end, offset) == goal
      decreases |mem| - Position(offset)
    {
      var printed, next;
      inside, printed, next := ShowPiece(mem, start, end, offset);
      if !inside {
        return;
      }
      Regroup(out, printed, ToPrint(mem, start, end, next));
      out, offset := out + printed, next;
    }
    NothingLeft(mem, start, end, offset);
    assert out + [] == out;
  }

  /** As long as the end offset does not wrap: the check lets through exactly the regions that lie
      behind the 40 bytes of the header, and what is printed is that region in pieces. */
  lemma PlainRegion(mem: seq<Byte>, start: nat, end: nat)
    requires start < end && end + 40 < 0x1_0000_0000_0000_0000 && |mem| < TWO_63
    ensures Accepted(|mem|, start, end) <==> end + 40 <= |mem|
    ensures end + 40 <= |mem| ==>
      && StaysInside(|mem|, start, end) && Limit(|mem|, end) <= |mem|
      && Printed(mem, Position(start), Limit(|mem|, end)) == PrintPieces(Pieces(mem[40 + start..40 + end]))
  {
    assert Position(start) == 40 + start && Position(end) == 40 + end;
  }

  /** An end offset that wraps is compared by its last 40 bytes. */
  lemma WrappedRegion(size: nat, start: nat, end: nat)
    requires start <= end < 0x1_0000_0000_0000_0000 <= end + 40
    ensures Accepted(size, start, end) <==> size > 40 && end + 40 - 0x1_0000_0000_0000_0000 <= size
  {
    assert Position(end) == end + 40 - 0x1_0000_0000_0000_0000;
  }

  lemma Regroup<T>(a: seq<T>, b: seq<T>, c: seq<T>)
    ensures a + (b + c) == a + b + c
  {
  }

  lemma NothingLeft(mem: seq<Byte>, start: nat, end: nat, offset: nat)
    requires start < TWO_64 && end < TWO_64 && |mem| < TWO_63 && Accepted(|mem|, start, end)
    requires Going(|mem|, start, end, offset) && (offset == end || Position(offset) >= |mem|)
    requires Limit(|mem|, end) <= |mem|
    ensures ToPrint(mem, start, end, offset) == [] && StaysInside(|mem|, start, end)
  {
    LoopLeft(|mem|, start, end, offset);
  }

  lemma LimitFits(size: nat, start: nat, end: nat)
    requires start < TWO_64 && end < TWO_64 && Accepted(size, start, end)
    ensures Limit(size, end) <= size
  {
    if end + HEADER_SIZE < TWO_64 {
      assert (HEADER_SIZE + end) % TWO_64 == HEADER_SIZE + end;
    }
  }

  /** The piece that the loop takes at an offset: it leaves the mapping only where the end offset
      wraps and the pieces do not fit. */
  lemma NextPiece(size: nat, start: nat, end: nat, offset: nat)
    requires start < TWO_64 && end < TWO_64 && size < TWO_63 && Accepted(size, start, end)
    requires offset < end && Position(offset) < size && Going(size, start, end, offset)
    ensures var piece := PieceSize(offset, end);
      var next := (offset + piece) % TWO_64;
      if Position(offset) + piece > size then start < end && !StaysInside(size, start, end)
      else && start < end && piece == Min(Limit(size, end) - Position(offset), LOGBUFF_LEN) > 0
           && Position(next) == Position(offset) + piece && Going(size, start, end, next)
  {
    var piece := PieceSize(offset, end);
    if end + HEADER_SIZE < TWO_64 {
      LimitFits(size, start, end);
      PlainPiece(size, end, offset, piece);
    } else {
      WrappedPiece(size, end, offset, piece);
      WholePieces(size, Position(offset));
    }
  }

  lemma WholePieces(size: nat, p: nat)
    requires p < size
    ensures p + LOGBUFF_LEN > size ==> (size - p) % LOGBUFF_LEN != 0
    ensures (size - (p + LOGBUFF_LEN)) % LOGBUFF_LEN == (size - p) % LOGBUFF_LEN
  {
  }

  /** Without a wrap: offsets and positions are 40 apart. */
  lemma PlainPiece(size: nat, end: nat, offset: nat, piece: nat)
    requires end + HEADER_SIZE < TWO_64 && size < TWO_63 && end + HEADER_SIZE <= size && offset < end
    requires piece == PieceSize(offset, end)
    ensures Position(offset) == offset + HEADER_SIZE && piece == Min(end - offset, LOGBUFF_LEN)
    ensures (offset + piece) % TWO_64 == offset + piece && Position(offset + piece) == offset + piece + HEADER_SIZE
  {
    assert (offset + LOGBUFF_LEN) % TWO_64 == offset + LOGBUFF_LEN;
    assert (HEADER_SIZE + offset) % TWO_64 == HEADER_SIZE + offset;
    assert (HEADER_SIZE + offset + piece) % TWO_64 == HEADER_SIZE + offset + piece;
  }

  /** With a wrap: every piece is a whole one. */
  lemma WrappedPiece(size: nat, end: nat, offset: nat, piece: nat)
    requires end + HEADER_SIZE >= TWO_64 && end < TWO_64 && size < TWO_63 && offset < end && Position(offset) < size
    requires piece == PieceSize(offset, end)
    ensures piece == LOGBUFF_LEN
    ensures var next := (offset + piece) % TWO_64;
      Position(offset) + piece <= size ==>
        Position(next) == Position(offset) + piece && HEADER_SIZE + next < TWO_64 && next < end
  {
    if HEADER_SIZE + offset < TWO_64 {
      assert (HEADER_SIZE + offset) % TWO_64 == HEADER_SIZE + offset;
      assert (offset + LOGBUFF_LEN) % TWO_64 == offset + LOGBUFF_LEN;
      assert (HEADER_SIZE + offset + LOGBUFF_LEN) % TWO_64 == HEADER_SIZE + offset + LOGBUFF_LEN;
    } else {
      var low := offset + LOGBUFF_LEN - TWO_64;
      assert (HEADER_SIZE + offset) % TWO_64 == HEADER_SIZE + offset - TWO_64;
      assert (offset + LOGBUFF_LEN) % TWO_64 == low;
      assert (HEADER_SIZE + low) % TWO_64 == HEADER_SIZE + low;
    }
  }

  /** Where the loop stops without having left the mapping. */
  lemma LoopLeft(size: nat, start: nat, end: nat, offset: nat)
    requires start < TWO_64 && end < TWO_64 && size < TWO_63 && Accepted(size, start, end)
    requires Going(size, start, end, offset) && (offset == end || Position(offset) >= size)
    ensures start < end ==> Position(offset) >= Limit(size, end)
    ensures StaysInside(size, start, end)
  {
    if end + HEADER_SIZE < TWO_64 {
      assert (HEADER_SIZE + end) % TWO_64 == HEADER_SIZE + end;
      assert (HEADER_SIZE + offset) % TWO_64 == HEADER_SIZE + offset;
    }
  }

  /** One round of the loop. */
  lemma PieceStep(mem: seq<Byte>, from: nat, to: nat, size: nat)
    requires from < to <= |mem| && size == Min(to - from, LOGBUFF_LEN)
    ensures Printed(mem, from, to) == PrintLines(mem[from..from + size]) + Printed(mem, from + size, to)
  {
    var rest := mem[from..to];
    assert rest[..size] == mem[from..from + size] && rest[size..] == mem[from + size..to];
    PiecesHead(rest, size);
    assert ([rest[..size]] + Pieces(rest[size..]))[1..] == Pieces(rest[size..]);
  }

  lemma PiecesHead(s: seq<Byte>, size: nat)
    requires s != [] && size == Min(|s|, LOGBUFF_LEN)
    ensures Pieces(s) == [s[..size]] + Pieces(s[size..])
  {
    if |s| <= LOGBUFF_LEN {
      var rest := s[size..];
      assert s[..size] == s && rest == [];
      assert Pieces(s) == [s] && Pieces(rest) == [];
    } else {
      assert size == LOGBUFF_LEN;
    }
  }

  // Piecewise printing against printing the region at once.

  lemma {:induction false} NoCrConcat(a: seq<Byte>, b: seq<Byte>)
    ensures NoCr(a + b) == NoCr(a) + NoCr(b)
  {
    if b == [] {
      assert a + b == a;
    } else {
      var n := |b| - 1;
      NoCrConcat(a, b[..n]);
      assert (a + b)[..|a + b| - 1] == a + b[..n];
    }
  }

  /** Carriage returns go, every other byte stays in its place. */
  lemma NoCrExact(a: seq<Byte>, b: Byte, c: seq<Byte>)
    ensures NoCr(a + [b] + c) == NoCr(a) + (if b == 0x0D then [] else [b]) + NoCr(c)
  {
    NoCrConcat(a + [b], c);
    NoCrConcat(a, [b]);
    assert [b][..0] == [] && NoCr([b]) == if b == 0x0D then [] else [b];
  }

  /** The first line of b continues the tail of a. */
  lemma {:induction false} SplitConcat(a: seq<Byte>, b: seq<Byte>)
    ensures var ta, tb := Split(a), Split(b);
      Split(a + b) == if tb.lines == [] then Text(ta.lines, ta.tail + tb.tail)
                      else Text(ta.lines + [ta.tail + tb.lines[0]] + tb.lines[1..], tb.tail)
  {
    if b == [] {
      assert a + b == a;
    } else {
      var n := |b| - 1;
      SplitConcat(a, b[..n]);
      assert (a + b)[..|a + b| - 1] == a + b[..n];
    }
  }

  /** Joining an unprinted rest to a line does not show: there is none; or the print ends at the
      first NUL of the rest, and the line has the same bytes up to a NUL of its own there; or both
      are cut to the same bytes. */
  predicate Harmless(rest: seq<Byte>, line: seq<Byte>) {
    || rest == []
    || (var k := |UpToNul(rest)|; k < Min(|rest|, LINE_MAX) && k < |line| && line[k] == NUL && line[..k] == rest[..k])
    || (|line| >= LINE_MAX && (rest + line)[..LINE_MAX] == line[..LINE_MAX])
  }

  /** The first NUL decides what is printed. */
  lemma FirstNul(s: seq<Byte>, k: nat)
    requires k <= |s| && NUL !in s[..k] && (k == |s| || s[k] == NUL)
    ensures UpToNul(s) == s[..k]
  {
    Without(s, k);
    Without(s, |UpToNul(s)|);
  }

  lemma Without(s: seq<Byte>, k: nat)
    requires k <= |s| && NUL !in s[..k]
    ensures forall i :: 0 <= i < k ==> s[i] != NUL
  {
    assert forall i :: 0 <= i < k ==> s[i] == s[..k][i];
  }

  /** What is printed of a line with its first NUL at k, or with none in the part that is kept. */
  lemma PrintAtNul(line: seq<Byte>, k: nat)
    requires k <= Min(|line|, LINE_MAX) && NUL !in line[..k]
    ensures k < Min(|line|, LINE_MAX) && line[k] == NUL ==> Print(line) == line[..k]
    ensures k == Min(|line|, LINE_MAX) ==> Print(line) == Cut(line)
  {
    var c := Cut(line);
    if k == Min(|line|, LINE_MAX) {
      FirstNul(c, |c|);
      assert c[..|c|] == c;
    } else if line[k] == NUL {
      assert c[..k] == line[..k];
      FirstNul(c, k);
    }
  }

  /** The first NUL among the first n bytes, or n. */
  function NulWithin(s: seq<Byte>, n: nat): (k: nat)
    requires n <= |s|
    ensures k <= n && NUL !in s[..k] && (k < n ==> s[k] == NUL)
  {
    var r := UpToNul(s);
    if |r| < n then assert s[..|r|] == r; |r| else assert s[..n] == r[..n]; n
  }

  /** A rest that has its NUL within reach hides the line. */
  lemma JoinHidden(rest: seq<Byte>, line: seq<Byte>)
    requires NL !in rest && |UpToNul(rest)| < Min(|rest|, LINE_MAX)
    ensures var k := |UpToNul(rest)|;
      Print(rest + line) == Print(line) <==> k < |line| && line[k] == NUL && line[..k] == rest[..k]
  {
    var k, joined := |UpToNul(rest)|, rest + line;
    assert joined[..k] == rest[..k] == UpToNul(rest);
    PrintAtNul(joined, k);
    var m := NulWithin(line, Min(|line|, LINE_MAX));
    PrintAtNul(line, m);
    Without(line, m);
    Without(rest, k);
    if m == Min(|line|, LINE_MAX) {
      assert NL in Cut(line) && NL !in rest[..k];
    } else if k < |line| && line[..k] == rest[..k] {
      assert forall i :: 0 <= i < k ==> line[i] == line[..k][i] == rest[i];
    }
  }

  /** A line without NULs is printed with its newline, up to 2046 bytes of it. */
  lemma PlainLine(line: seq<Byte>)
    requires 0 !in line
    ensures Print(line) == line[..Min(|line|, 2046)] + [0x0A]
  {
    PrintAtNul(line, Min(|line|, LINE_MAX));
  }

  /** m is the first NUL of the part of a line that is kept, or the end of that part. */
  predicate EndsAt(line: seq<Byte>, m: nat) {
    var n := Min(|line|, LINE_MAX);
    m <= n && (forall i :: 0 <= i < m ==> line[i] != NUL) && (m < n ==> line[m] == NUL)
  }

  lemma PrintEnds(line: seq<Byte>) returns (m: nat)
    ensures EndsAt(line, m)
    ensures Print(line) == if m < Min(|line|, LINE_MAX) then line[..m] else Cut(line)
  {
    m := NulWithin(line, Min(|line|, LINE_MAX));
    Without(line, m);
    PrintAtNul(line, m);
  }

  /** A rest without a NUL within reach shows, unless the cut hides it. */
  lemma JoinVisible(rest: seq<Byte>, line: seq<Byte>)
    requires rest != [] && |UpToNul(rest)| >= Min(|rest|, LINE_MAX)
    ensures Print(rest + line) == Print(line) <==> |line| >= LINE_MAX && (rest + line)[..LINE_MAX] == line[..LINE_MAX]
  {
    var joined := rest + line;
    var m := PrintEnds(line);
    var m' := PrintEnds(joined);
    LaterNul(rest, line, joined, m', m);
    if m == LINE_MAX {
      SameCut(joined, line, m');
    } else if |line| >= LINE_MAX {
      assert joined[..LINE_MAX][m] != line[..LINE_MAX][m];
    }
  }

  /** Lines that are cut print the same if and only if what is kept is the same. */
  lemma SameCut(joined: seq<Byte>, line: seq<Byte>, m': nat)
    requires LINE_MAX <= |joined| && LINE_MAX <= |line| && EndsAt(line, LINE_MAX) && EndsAt(joined, m')
    ensures (if m' < LINE_MAX then joined[..m'] else Cut(joined)) == Cut(line)
            <==> joined[..LINE_MAX] == line[..LINE_MAX]
  {
    if m' < LINE_MAX {
      assert joined[..LINE_MAX][m'] == NUL && line[..LINE_MAX][m'] == line[m'];
    } else {
      assert Cut(joined)[..LINE_MAX] == joined[..LINE_MAX] && Cut(line)[..LINE_MAX] == line[..LINE_MAX];
    }
  }

  /** The joined line has its first NUL, or its end, later than the line. */
  lemma LaterNul(rest: seq<Byte>, line: seq<Byte>, joined: seq<Byte>, m': nat, m: nat)
    requires rest != [] && |UpToNul(rest)| >= Min(|rest|, LINE_MAX) && joined == rest + line
    requires EndsAt(line, m) && EndsAt(joined, m')
    ensures m < LINE_MAX ==> m' > m
    ensures m == |line| ==> m' == Min(|joined|, LINE_MAX)
  {
    var r := UpToNul(rest);
    assert forall i :: 0 <= i < Min(|rest|, LINE_MAX) ==> joined[i] == rest[i] == r[i];
    assert forall i :: 0 <= i < |line| ==> joined[|rest| + i] == line[i];
  }

  lemma PrintJoin(rest: seq<Byte>, line: seq<Byte>)
    requires NL !in rest
    ensures Print(rest + line) == Print(line) <==> Harmless(rest, line)
  {
    if rest == [] {
      assert rest + line == line;
    } else if |UpToNul(rest)| < Min(|rest|, LINE_MAX) {
      JoinHidden(rest, line);
      if |line| >= LINE_MAX && (rest + line)[..LINE_MAX] == line[..LINE_MAX] {
        assert Cut(rest + line) == Cut(line);
      }
    } else {
      JoinVisible(rest, line);
    }
  }

  /** At no piece boundary does losing the rest of a line show. */
  predicate CleanBoundaries(rest: seq<Byte>, pieces: seq<seq<Byte>>)
    decreases |pieces|
  {
    pieces == [] ||
    var t := Split(NoCr(pieces[0]));
    if t.lines == [] then CleanBoundaries(rest + t.tail, pieces[1..])
    else Harmless(rest, t.lines[0]) && CleanBoundaries(t.tail, pieces[1..])
  }

  lemma PrintAllConcat(a: seq<seq<Byte>>, b: seq<seq<Byte>>)
    ensures PrintAll(a + b) == PrintAll(a) + PrintAll(b)
  {
  }

  lemma {:induction false} NoNewline(s: seq<Byte>)
    requires NL !in s
    ensures Split(s) == Text([], s)
  {
    if s != [] {
      NoNewline(s[..|s| - 1]);
      assert s == s[..|s| - 1] + [s[|s| - 1]];
    }
  }

  lemma OneLine(line: seq<Byte>)
    requires NL !in line
    ensures Split(line + [NL]) == Text([line], [])
  {
    NoNewline(line);
    assert (line + [NL])[..|line|] == line;
  }

  /** A line in front of a text. */
  lemma LineInFront(line: seq<Byte>, rest: seq<Byte>)
    requires NL !in line
    ensures Split(line + [NL] + rest) == Text([line] + Split(rest).lines, Split(rest).tail)
  {
    OneLine(line);
    SplitConcat(line + [NL], rest);
    Joined(line, Split(rest).lines, Split(rest).tail);
  }

  lemma Joined(line: seq<Byte>, lines: seq<seq<Byte>>, tail: seq<Byte>)
    ensures lines == [] ==> [line] + lines == [line] && [] + tail == tail
    ensures lines != [] ==> [line] + [[] + lines[0]] + lines[1..] == [line] + lines
  {
    if lines != [] {
      assert [] + lines[0] == lines[0] && lines == [lines[0]] + lines[1..];
    }
  }

  /** And Split is the only way: lines and a tail without newlines are what their text splits into. */
  lemma {:induction false} SplitIsUnique(lines: seq<seq<Byte>>, tail: seq<Byte>)
    requires NL !in tail && forall i :: 0 <= i < |lines| ==> NL !in lines[i]
    ensures Split(Unsplit(lines, tail)) == Text(lines, tail)
  {
    if lines == [] {
      NoNewline(tail);
    } else {
      SplitIsUnique(lines[1..], tail);
      LineInFront(lines[0], Unsplit(lines[1..], tail));
      assert lines == [lines[0]] + lines[1..];
    }
  }

  /** `rest` is text without a newline. */
  predicate Unfinished(rest: seq<Byte>) {
    Split(rest) == Text([], rest)
  }

  /** A text without a newline makes the rest longer. */
  lemma NoLineInText(rest: seq<Byte>, s: seq<Byte>)
    requires Unfinished(rest) && Split(s).lines == []
    ensures Split(s).tail == s && Unfinished(rest + s)
  {
    SplitIsLines(s);
    SplitConcat(rest, s);
  }

  /** A text with newlines finishes the rest. */
  lemma LinesInText(rest: seq<Byte>, s: seq<Byte>)
    requires Unfinished(rest) && Split(s).lines != []
    ensures Split(rest + s) == Text([rest + Split(s).lines[0]] + Split(s).lines[1..], Split(s).tail)
  {
    SplitConcat(rest, s);
    assert [] + [rest + Split(s).lines[0]] == [rest + Split(s).lines[0]];
  }

  /** What follows a text only sees the tail of that text. */
  lemma LinesAfterText(s: seq<Byte>, more: seq<Byte>)
    ensures Split(s + more).lines == Split(s).lines + Split(Split(s).tail + more).lines
  {
    TailAlone(s);
    SplitConcat(s, more);
    SplitConcat(Split(s).tail, more);
    SameLater(Split(s).lines, Split(s).tail, Split(more).lines);
  }

  lemma SameLater(lines: seq<seq<Byte>>, tail: seq<Byte>, later: seq<seq<Byte>>)
    ensures later == [] ==> lines == lines + []
    ensures later != [] ==>
      lines + [tail + later[0]] + later[1..] == lines + ([] + [tail + later[0]] + later[1..])
  {
  }

  lemma {:induction false} TailAlone(s: seq<Byte>)
    ensures Split(Split(s).tail) == Text([], Split(s).tail)
  {
    if s != [] && s[|s| - 1] != NL {
      TailAlone(s[..|s| - 1]);
      var tail := Split(s[..|s| - 1]).tail;
      assert (tail + [s[|s| - 1]])[..|tail|] == tail;
    }
  }

  /** What is printed for a piece is printed for the unbroken text if and only if its first line is. */
  lemma PieceExact(rest: seq<Byte>, lines: seq<seq<Byte>>, later: seq<seq<Byte>>, printed: seq<seq<Byte>>)
    requires NL !in rest && lines != [] && |printed| == |later|
    ensures PrintAll(lines) + printed == PrintAll([rest + lines[0]] + lines[1..] + later)
            <==> Harmless(rest, lines[0]) && printed == PrintAll(later)
  {
    var rejoined := [rest + lines[0]] + lines[1..];
    PrintJoin(rest, lines[0]);
    PrintAllConcat(rejoined, later);
    SameHead(lines, rejoined);
    SameParts(PrintAll(lines), PrintAll(rejoined), printed, PrintAll(later));
  }

  /** Printing piece by piece prints what printing the whole region would print if and only if
      every boundary is clean. */
  lemma {:induction false} PiecewiseExact(rest: seq<Byte>, pieces: seq<seq<Byte>>)
    requires Unfinished(rest)
    ensures |PrintPieces(pieces)| == |Split(rest + NoCr(Concat(pieces))).lines|
    ensures PrintPieces(pieces) == PrintAll(Split(rest + NoCr(Concat(pieces))).lines)
            <==> CleanBoundaries(rest, pieces)
    decreases |pieces|
  {
    if pieces == [] {
      assert rest + NoCr(Concat(pieces)) == rest;
    } else {
      var s, more := NoCr(pieces[0]), NoCr(Concat(pieces[1..]));
      var t := Split(s);
      assert rest + NoCr(Concat(pieces)) == rest + s + more by {
        NoCrConcat(pieces[0], Concat(pieces[1..]));
      }
      if t.lines == [] {
        NoLineInText(rest, s);
        PiecewiseExact(rest + s, pieces[1..]);
        assert PrintPieces(pieces) == PrintPieces(pieces[1..]);
      } else {
        TailAlone(s);
        SplitIsLines(rest);
        PiecewiseExact(t.tail, pieces[1..]);
        LinesInText(rest, s);
        LinesAfterText(rest + s, more);
        PieceExact(rest, t.lines, Split(t.tail + more).lines, PrintPieces(pieces[1..]));
      }
    }
  }

  lemma SameParts<T>(a: seq<T>, b: seq<T>, c: seq<T>, d: seq<T>)
    requires |a| == |b|
    ensures a + c == b + d <==> a == b && c == d
  {
    if a + c == b + d {
      assert a == (a + c)[..|a|] && b == (b + d)[..|b|];
      assert c == (a + c)[|a|..] && d == (b + d)[|b|..];
    }
  }

  lemma SameHead(a: seq<seq<Byte>>, b: seq<seq<Byte>>)
    requires |a| == |b| > 0 && a[1..] == b[1..]
    ensures PrintAll(a) == PrintAll(b) <==> Print(a[0]) == Print(b[0])
  {
    assert forall i :: 0 < i < |a| ==> a[i] == a[1..][i - 1] == b[i];
    if Print(a[0]) == Print(b[0]) {
      assert forall i :: 0 <= i < |a| ==> PrintAll(a)[i] == PrintAll(b)[i];
    } else {
      assert PrintAll(a)[0] != PrintAll(b)[0];
    }
  }

  /** The whole loop against one unchunked line split of the region. */
  lemma ShowExact(region: seq<Byte>)
    ensures PrintPieces(Pieces(region)) == PrintLines(region) <==> CleanBoundaries([], Pieces(region))
  {
    PiecesCover(region);
    PiecewiseExact([], Pieces(region));
    assert [] + NoCr(region) == NoCr(region);
  }

  /** In particular when every piece ends just after a newline. */
  lemma {:induction false} NewlineBoundariesAreClean(pieces: seq<seq<Byte>>)
    requires forall i :: 0 <= i < |pieces| - 1 ==> pieces[i] != [] && pieces[i][|pieces[i]| - 1] == NL
    ensures CleanBoundaries([], pieces)
  {
    if |pieces| > 1 {
      NewlineBoundariesAreClean(pieces[1..]);
      var p := pieces[0];
      assert NoCr(p) == NoCr(p[..|p| - 1]) + [NL];
      assert NoCr(p)[..|NoCr(p)| - 1] == NoCr(p[..|p| - 1]);
    } else if |pieces| == 1 {
      assert pieces[1..] == [];
    }
  }
}
