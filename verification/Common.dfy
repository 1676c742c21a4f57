/** Vocabulary shared by the modules: bytes, byte strings and optional values. */
module Common {

  type Byte = b: int | 0 <= b < 256

  datatype Option<+T> = None | Some(value: T)

  const TWO_32: nat := 0x1_0000_0000
  const TWO_63: nat := 0x8000_0000_0000_0000
  const TWO_64: nat := 0x1_0000_0000_0000_0000

  function Min(a: int, b: int): int {
    if a <= b then a else b
  }

  /** A run of n zero bytes, as memset or calloc leaves it. */
  function Zeros(n: nat): (r: seq<Byte>)
    ensures |r| == n
    ensures forall i :: 0 <= i < n ==> r[i] == 0
  {
    seq(n, i => 0)
  }

  /** A C string: the bytes in front of the first NUL. */
  function UpToNul(s: seq<Byte>): (r: seq<Byte>)
    ensures r <= s && 0 !in r && (r == s || s[|r|] == 0)
  {
    if s == [] || s[0] == 0 then [] else [s[0]] + UpToNul(s[1..])
  }

  /** The byte string s with the bytes of `patch` stored from offset `at` on. */
  function Overwrite(s: seq<Byte>, at: nat, patch: seq<Byte>): (r: seq<Byte>)
    requires at + |patch| <= |s|
    ensures |r| == |s|
  {
    seq(|s|, i requires 0 <= i < |s| => if at <= i < at + |patch| then patch[i - at] else s[i])
  }

  lemma OverwriteNext(s: seq<Byte>, at: nat, patch: seq<Byte>, i: nat)
    requires at + |patch| <= |s| && i < |patch|
    ensures Overwrite(s, at, patch[..i])[at + i := patch[i]] == Overwrite(s, at, patch[..i + 1])
  {
  }

  /** memcpy into a buffer. */
  method Copy(buffer: array<Byte>, at: nat, data: seq<Byte>)
    requires at + |data| <= buffer.Length
    modifies buffer
    ensures buffer[..] == Overwrite(old(buffer[..]), at, data)
  {
    ghost var before := buffer[..];
    var i := 0;
    while i < |data|
      invariant 0 <= i <= |data| && buffer[..] == Overwrite(before, at, data[..i])
    {
      OverwriteNext(before, at, data, i);
      buffer[at + i] := data[i];
      i := i + 1;
    }
    assert data[..i] == data;
  }
}
