/** Octal numbers as printf writes them and as a tar reader reads them. */
module TarOctal {
  import opened Common

  const ZERO: Byte := 48

  predicate IsDigit(b: Byte) {
    ZERO <= b < ZERO + 8
  }

  /** The digits of n without padding. */
  function Digits(n: nat): (r: seq<Byte>)
    ensures |r| > 0 && forall i :: 0 <= i < |r| ==> IsDigit(r[i])
  {
    if n < 8 then [ZERO + n] else Digits(n / 8) + [ZERO + n % 8]
  }

  /** printf's %0<width>o. */
  function Octal(n: nat, width: nat): (r: seq<Byte>)
    ensures |r| >= width && forall i :: 0 <= i < |r| ==> IsDigit(r[i])
  {
    var d := Digits(n);
    seq(if |d| < width then width - |d| else 0, i => ZERO) + d
  }

  /** Reading stops at the first byte that is no octal digit, or at the end of the field. */
  function Parse(s: seq<Byte>, acc: nat): nat {
    if s == [] || !IsDigit(s[0]) then acc else Parse(s[1..], 8 * acc + (s[0] - ZERO))
  }

  function Pow8(n: nat): (r: nat)
    ensures r > 0
  {
    if n == 0 then 1 else 8 * Pow8(n - 1)
  }

  lemma {:induction false} DigitsFit(n: nat, width: nat)
    ensures width > 0 && n < Pow8(width) ==> |Digits(n)| <= width
    ensures n >= Pow8(width) ==> |Digits(n)| > width
    decreases n
  {
    if n >= 8 && width > 0 {
      DigitsFit(n / 8, width - 1);
    }
  }

  /** Leading zeros do not count. */
  lemma {:induction false} ParseZeros(k: nat, s: seq<Byte>)
    ensures Parse(seq(k, i => ZERO) + s, 0) == Parse(s, 0)
  {
    if k == 0 {
      assert seq(k, i => ZERO) + s == s;
    } else {
      assert (seq(k, i => ZERO) + s)[1..] == seq(k - 1, i => ZERO) + s;
      ParseZeros(k - 1, s);
    }
  }

  lemma {:induction false} ParseAppend(s: seq<Byte>, d: Byte, acc: nat)
    requires IsDigit(d) && forall i :: 0 <= i < |s| ==> IsDigit(s[i])
    ensures Parse(s + [d], acc) == 8 * Parse(s, acc) + (d - ZERO)
    decreases |s|
  {
    if s == [] {
      assert [d][1..] == [];
    } else {
      assert (s + [d])[1..] == s[1..] + [d];
      ParseAppend(s[1..], d, 8 * acc + (s[0] - ZERO));
    }
  }

  lemma {:induction false} ParseDigits(n: nat)
    ensures Parse(Digits(n), 0) == n
  {
    if n >= 8 {
      ParseDigits(n / 8);
      ParseAppend(Digits(n / 8), ZERO + n % 8, 0);
    } else {
      assert [ZERO + n][1..] == [];
    }
  }

  lemma {:induction false} ParseStops(s: seq<Byte>, t: seq<Byte>, acc: nat)
    requires t == [] || !IsDigit(t[0])
    requires forall i :: 0 <= i < |s| ==> IsDigit(s[i])
    ensures Parse(s + t, acc) == Parse(s, acc)
    decreases |s|
  {
    if s == [] {
      assert s + t == t;
    } else {
      assert (s + t)[1..] == s[1..] + t;
      ParseStops(s[1..], t, 8 * acc + (s[0] - ZERO));
    }
  }

  lemma ParseOctal(n: nat, width: nat)
    ensures Parse(Octal(n, width), 0) == n
  {
    var d := Digits(n);
    ParseZeros(if |d| < width then width - |d| else 0, d);
    ParseDigits(n);
  }

  /** A number that fits is printed with exactly the width asked for. */
  lemma FixedWidth(n: nat, width: nat)
    requires 0 < width && n < Pow8(width)
    ensures |Octal(n, width)| == width
  {
    DigitsFit(n, width);
  }

  /** A value comes back from a field of `len` bytes if and only if it has at most `len` digits,
      whether the terminating NUL is still inside the field or not. */
  lemma FieldRoundTrip(n: nat, width: nat, len: nat)
    requires width < len
    ensures var s := Octal(n, width) + [0];
      Parse(s[..Min(|s|, len)], 0) == n <==> n < Pow8(len)
  {
    var o := Octal(n, width);
    DigitsFit(n, len);
    ParseOctal(n, width);
    if n < Pow8(len) {
      if |o| == len {
        assert (o + [0])[..len] == o;
      } else {
        assert (o + [0])[..Min(|o| + 1, len)] == o + [0];
        ParseStops(o, [0], 0);
      }
    } else {
      ParseBound((o + [0])[..len], 0, 0);
    }
  }

  /** The first digit of a positive number is not zero. */
  lemma {:induction false} DigitsLead(n: nat)
    requires n > 0
    ensures Digits(n)[0] != ZERO
  {
    if n >= 8 {
      DigitsLead(n / 8);
    }
  }

  lemma {:induction false} ParseAtLeast(s: seq<Byte>, acc: nat)
    requires forall i :: 0 <= i < |s| ==> IsDigit(s[i])
    ensures Parse(s, acc) >= acc * Pow8(|s|)
    decreases |s|
  {
    if s != [] {
      var acc' := 8 * acc + (s[0] - ZERO);
      ParseAtLeast(s[1..], acc');
      ScaleUp(acc, acc', Pow8(|s| - 1));
    }
  }

  lemma ScaleUp(a: nat, b: nat, p: nat)
    requires b >= 8 * a
    ensures b * p >= a * (8 * p)
  {
    assert b * p >= 8 * a * p;
  }

  /** Digits that do not start with a zero are worth at least the power of their place. */
  lemma ParseLead(s: seq<Byte>)
    requires s != [] && s[0] != ZERO && forall i :: 0 <= i < |s| ==> IsDigit(s[i])
    ensures Parse(s, 0) >= Pow8(|s| - 1)
  {
    var d, p := s[0] - ZERO, Pow8(|s| - 1);
    ParseAtLeast(s[1..], d);
    assert d * p >= p by {
      Times(d, p);
    }
  }

  lemma Times(d: nat, p: nat)
    requires d >= 1
    ensures d * p >= p
  {
  }

  lemma {:induction false} Pow8Grows(m: nat, k: nat)
    ensures Pow8(m) <= Pow8(m + k)
    decreases k
  {
    if k > 0 {
      Pow8Grows(m, k - 1);
    }
  }

  /** Reading k more digits multiplies the bound by 8^k. */
  lemma {:induction false} ParseBound(s: seq<Byte>, acc: nat, m: nat)
    requires acc < Pow8(m)
    ensures Parse(s, acc) < Pow8(m + |s|)
    decreases |s|
  {
    if s != [] && IsDigit(s[0]) {
      ParseBound(s[1..], 8 * acc + (s[0] - ZERO), m + 1);
    } else {
      Pow8Grows(m, |s|);
    }
  }
}
