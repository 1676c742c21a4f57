/**
 Masked register access. A register is a word of bits, least significant bit
 first, so the one definition serves the 8, 16, 32 and 64-bit forms that the
 driver generates from one macro.
 */
module Registers {

  type Word = seq<bool>

  /** The option bits GA_WRITE, GA_READ_WRITE_CONDITIONAL and GA_READ_WRITE_ALWAYS. */
  datatype Options = Options(write: bool, conditional: bool, always: bool) {
    predicate Any() {
      write || conditional || always
    }
  }

  datatype Modified = NONE | SURE | MAYBE

  function And(a: Word, b: Word): (r: Word)
    requires |a| == |b|
    ensures |r| == |a| && forall i :: 0 <= i < |a| ==> r[i] == (a[i] && b[i])
  {
    seq(|a|, i requires 0 <= i < |a| => a[i] && b[i])
  }

  function Or(a: Word, b: Word): (r: Word)
    requires |a| == |b|
    ensures |r| == |a| && forall i :: 0 <= i < |a| ==> r[i] == (a[i] || b[i])
  {
    seq(|a|, i requires 0 <= i < |a| => a[i] || b[i])
  }

  function Not(a: Word): (r: Word)
    ensures |r| == |a| && forall i :: 0 <= i < |a| ==> r[i] == !a[i]
  {
    seq(|a|, i requires 0 <= i < |a| => !a[i])
  }

  function Clear(n: nat): (r: Word)
    ensures |r| == n && forall i :: 0 <= i < n ==> !r[i]
  {
    seq(n, i => false)
  }

  predicate Full(w: Word) {
    forall i :: 0 <= i < |w| ==> w[i]
  }

  predicate NonZero(w: Word) {
    exists i :: 0 <= i < |w| && w[i]
  }

  /** `new_reg &= ~mask; new_reg |= (value & mask)`. */
  function Merge(r: Word, mask: Word, value: Word): Word
    requires |r| == |mask| == |value|
  {
    Or(And(r, Not(mask)), And(value, mask))
  }

  /** GA_DEFINE_REG_WRITE on a register holding r: the new content and the report. */
  function Write(r: Word, mask: Word, value: Word, o: Options): (Word, Modified)
    requires |r| == |mask| == |value|
  {
    if o.write || Full(mask) then (And(value, mask), MAYBE)
    else if o.conditional || o.always then
      var new_ := Merge(r, mask, value);
      (new_, if r != new_ then SURE else NONE)
    else (r, NONE)
  }

  /** The report of the two-word write. */
  function Either(a: Modified, b: Modified): Modified {
    if a == SURE || b == SURE then SURE else if a == MAYBE || b == MAYBE then MAYBE else NONE
  }

  /** ga_reg_write64 on a 32-bit machine, for words split at any position k. */
  function SplitWrite(k: nat, r: Word, mask: Word, value: Word, o: Options): (Word, Modified)
    requires |r| == |mask| == |value| && k <= |r|
  {
    var lo := Write(r[..k], mask[..k], value[..k], o);
    var hi := Write(r[k..], mask[k..], value[k..], o);
    (lo.0 + hi.0, Either(lo.1, hi.1))
  }

  /** With an option bit set the written word is decided bit by bit: outside the mask a plain
      write clears and a read-modify-write keeps. */
  lemma WriteBits(r: Word, mask: Word, value: Word, o: Options)
    requires |r| == |mask| == |value| && o.Any()
    ensures |Write(r, mask, value, o).0| == |r|
    ensures forall i :: 0 <= i < |r| ==>
              Write(r, mask, value, o).0[i] == if mask[i] then value[i] else r[i] && !o.write
  {
  }

  /** The report, from the bits alone: a possible change for every plain write and every full mask;
      otherwise a sure one exactly when an option asks for a write and a masked bit differs. */
  lemma WriteReport(r: Word, mask: Word, value: Word, o: Options)
    requires |r| == |mask| == |value|
    ensures var report := Write(r, mask, value, o).1;
      && (report == MAYBE <==> o.write || forall i :: 0 <= i < |mask| ==> mask[i])
      && (report == SURE <==> && report != MAYBE && (o.conditional || o.always)
                              && exists i :: 0 <= i < |mask| && mask[i] && value[i] != r[i])
  {
    var new_ := Merge(r, mask, value);
    assert forall i :: 0 <= i < |r| ==> new_[i] == if mask[i] then value[i] else r[i];
    if new_ != r {
      var i :| 0 <= i < |r| && new_[i] != r[i];
      assert mask[i] && value[i] != r[i];
    }
  }

  lemma FullParts(mask: Word, k: nat)
    requires k <= |mask|
    ensures Full(mask) <==> Full(mask[..k]) && Full(mask[k..])
  {
    if Full(mask[..k]) && Full(mask[k..]) {
      forall i | 0 <= i < |mask| ensures mask[i] {
        assert if i < k then mask[..k][i] else mask[k..][i - k];
      }
    }
  }

  /** A part whose mask is full is written even when no option asks for a write. */
  predicate PartKept(r: Word, mask: Word, value: Word) {
    Full(mask) ==> value == r
  }

  lemma UnaskedPart(r: Word, mask: Word, value: Word, o: Options)
    requires |r| == |mask| == |value| && !o.Any()
    ensures |Write(r, mask, value, o).0| == |r|
    ensures Write(r, mask, value, o).0 == r <==> PartKept(r, mask, value)
    ensures Full(mask) ==> Write(r, mask, value, o).0 == value
  {
    if Full(mask) {
      assert And(value, mask) == value;
    }
  }

  /** The two-word write leaves the same bits as the native write whenever an option bit is set,
      and without option bits exactly when the mask is full or every part with a full mask
      already holds its value. */
  lemma SplitWriteExact(k: nat, r: Word, mask: Word, value: Word, o: Options)
    requires |r| == |mask| == |value| && k <= |r|
    ensures SplitWrite(k, r, mask, value, o).0 == Write(r, mask, value, o).0
      <==> || o.Any() || Full(mask)
           || (PartKept(r[..k], mask[..k], value[..k]) && PartKept(r[k..], mask[k..], value[k..]))
  {
    var lo, hi := Write(r[..k], mask[..k], value[..k], o).0, Write(r[k..], mask[k..], value[k..], o).0;
    var native := Write(r, mask, value, o).0;
    if o.Any() {
      WriteBits(r, mask, value, o);
      WriteBits(r[..k], mask[..k], value[..k], o);
      WriteBits(r[k..], mask[k..], value[k..], o);
      forall i | 0 <= i < |r| ensures (lo + hi)[i] == native[i] {
        if i >= k {
          assert mask[k..][i - k] == mask[i] && value[k..][i - k] == value[i] && r[k..][i - k] == r[i];
        }
      }
    } else {
      FullParts(mask, k);
      UnaskedPart(r, mask, value, o);
      UnaskedPart(r[..k], mask[..k], value[..k], o);
      UnaskedPart(r[k..], mask[k..], value[k..], o);
      assert r == r[..k] + r[k..] && value == value[..k] + value[k..];
      if lo + hi == r {
        assert lo == (lo + hi)[..k] && hi == (lo + hi)[k..];
      }
    }
  }

  /** The reports of the two forms: a sure change is never invented, no change is never missed,
      and a sure change may only weaken to a possible one. */
  lemma SplitReportsSound(k: nat, r: Word, mask: Word, value: Word, o: Options)
    requires |r| == |mask| == |value| && k <= |r|
    ensures var native, split := Write(r, mask, value, o).1, SplitWrite(k, r, mask, value, o).1;
      && (split == SURE ==> native == SURE)
      && (split == NONE ==> native == NONE)
      && (native == SURE ==> split == SURE || split == MAYBE)
      && (native == MAYBE ==> split == MAYBE)
  {
    FullParts(mask, k);
    var merged := Merge(r, mask, value);
    assert merged[..k] == Merge(r[..k], mask[..k], value[..k]);
    assert merged[k..] == Merge(r[k..], mask[k..], value[k..]);
    assert r == r[..k] + r[k..] && merged == merged[..k] + merged[k..];
  }

  /** ga_reg_read64 on a 32-bit machine, as written: `(msv << 32) & lsv`. */
  function SplitRead(k: nat, r: Word, mask: Word): Word
    requires |r| == |mask| == 2 * k
  {
    var lsv := And(r[..k], mask[..k]);
    var msv := And(r[k..], mask[k..]);
    And(Clear(k) + msv, lsv + Clear(k))
  }

  /** It reads 0 whatever the register holds, so it agrees with the native read exactly when no
      masked bit is set. */
  lemma SplitReadIsZero(k: nat, r: Word, mask: Word)
    requires |r| == |mask| == 2 * k
    ensures SplitRead(k, r, mask) == Clear(2 * k)
    ensures SplitRead(k, r, mask) == And(r, mask) <==> !NonZero(And(r, mask))
  {
    assert SplitRead(k, r, mask) == Clear(2 * k);
    if !NonZero(And(r, mask)) {
      assert forall i :: 0 <= i < 2 * k ==> !And(r, mask)[i];
      assert And(r, mask) == Clear(2 * k);
    }
  }

  /** A row of registers of one width, with a count of the bus writes. */
  class Bank {
    const width: nat
    const littleEndian: bool
    var words: seq<Word>
    var busWrites: nat

    ghost predicate Valid()
      reads this
    {
      forall i :: 0 <= i < |words| ==> |words[i]| == width
    }

    constructor (words: seq<Word>, width: nat, littleEndian: bool)
      requires forall i :: 0 <= i < |words| ==> |words[i]| == width
      ensures Valid() && this.words == words && this.width == width && this.littleEndian == littleEndian
      ensures busWrites == 0
    {
      this.words, this.width, this.littleEndian, busWrites := words, width, littleEndian, 0;
    }

    /** The double word at register i, in the byte order of the machine. */
    function Double(i: nat): Word
      requires i + 1 < |words|
      reads this
    {
      if littleEndian then words[i] + words[i + 1] else words[i + 1] + words[i]
    }

    /** One expansion of GA_DEFINE_REG_WRITE: a conditional write reaches the bus only when it
        changes the register. */
    method RegWrite(i: nat, mask: Word, value: Word, o: Options) returns (modified: Modified)
      requires Valid() && i < |words| && |mask| == |value| == width
      modifies this`words, this`busWrites
      ensures Valid() && |words| == |old(words)|
      ensures words == old(words)[i := Write(old(words)[i], mask, value, o).0]
      ensures modified == Write(old(words)[i], mask, value, o).1
      ensures busWrites == old(busWrites)
              + if o.write || Full(mask) || o.always || (o.conditional && modified == SURE) then 1 else 0
    {
      modified := NONE;
      if o.write || Full(mask) {
        words := words[i := And(value, mask)];
        busWrites := busWrites + 1;
        modified := MAYBE;
      } else if o.conditional || o.always {
        var oldReg := words[i];
        var newReg := And(oldReg, Not(mask));
        newReg := Or(newReg, And(value, mask));
        if oldReg != newReg {
          modified := SURE;
        }
        if o.always || oldReg != newReg {
          words := words[i := newReg];
          busWrites := busWrites + 1;
        }
      }
    }

    /** ga_reg_write64 on a 32-bit machine: low word first on little-endian, high word first
        otherwise. */
    method RegWriteDouble(i: nat, mask: Word, value: Word, o: Options) returns (modified: Modified)
      requires Valid() && i + 1 < |words| && |mask| == |value| == 2 * width
      modifies this`words, this`busWrites
      ensures Valid() && |words| == |old(words)|
      ensures (Double(i), modified) == SplitWrite(width, old(Double(i)), mask, value, o)
      ensures var low, high := if littleEndian then i else i + 1, if littleEndian then i + 1 else i;
        && words[low] == Write(old(words)[low], mask[..width], value[..width], o).0
        && words[high] == Write(old(words)[high], mask[width..], value[width..], o).0
      ensures forall j :: 0 <= j < |words| && j != i && j != i + 1 ==> words[j] == old(words)[j]
    {
      ghost var r := Double(i);
      var rc1, rc2;
      if littleEndian {
        assert r[..width] == words[i] && r[width..] == words[i + 1];
        rc1 := RegWrite(i, mask[..width], value[..width], o);
        rc2 := RegWrite(i + 1, mask[width..], value[width..], o);
      } else {
        assert r[..width] == words[i + 1] && r[width..] == words[i];
        rc1 := RegWrite(i, mask[width..], value[width..], o);
        rc2 := RegWrite(i + 1, mask[..width], value[..width], o);
      }
      modified := Either(rc1, rc2);
    }
  }
}
