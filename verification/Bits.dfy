/** Bitwise operators on unsigned integers of any width, and what masks do. */
module Bits {

  function BitAnd(a: nat, b: nat): nat {
    if a == 0 || b == 0 then 0
    else 2 * BitAnd(a / 2, b / 2) + (if a % 2 == 1 && b % 2 == 1 then 1 else 0)
  }

  function BitOr(a: nat, b: nat): nat {
    if a == 0 then b else if b == 0 then a
    else 2 * BitOr(a / 2, b / 2) + (if a % 2 == 1 || b % 2 == 1 then 1 else 0)
  }

  function Shl(a: nat, n: nat): nat {
    if n == 0 then a else 2 * Shl(a, n - 1)
  }

  function Shr(a: nat, n: nat): nat
    decreases n
  {
    if n == 0 then a else Shr(a / 2, n - 1)
  }

  function Ones(n: nat): nat {
    if n == 0 then 0 else 2 * Ones(n - 1) + 1
  }

  /** The n low digits of a. */
  function Low(a: nat, n: nat): nat
    decreases n
  {
    if n == 0 then 0 else 2 * Low(a / 2, n - 1) + a % 2
  }

  lemma {:induction false} LowBound(a: nat, n: nat)
    ensures Low(a, n) <= Ones(n) && Shl(1, n) == Ones(n) + 1
    decreases n
  {
    if n > 0 {
      LowBound(a / 2, n - 1);
    }
  }

  lemma {:induction false} HighPlusLow(a: nat, n: nat)
    ensures a == Shl(Shr(a, n), n) + Low(a, n)
    decreases n
  {
    if n > 0 {
      HighPlusLow(a / 2, n - 1);
    }
  }

  lemma {:induction false} LowOfSmall(a: nat, n: nat)
    requires a <= Ones(n)
    ensures Low(a, n) == a
    decreases n
  {
    if n > 0 {
      LowOfSmall(a / 2, n - 1);
    }
  }

  /** A mask of n ones keeps the n low digits. */
  lemma {:induction false} AndOnes(a: nat, n: nat)
    ensures BitAnd(a, Ones(n)) == Low(a, n)
    decreases n
  {
    if n > 0 {
      AndOnes(a / 2, n - 1);
      if a == 0 {
        LowOfSmall(0, n);
      }
    }
  }

  /** A shifted mask acts on the shifted value. */
  lemma {:induction false} AndShl(a: nat, mask: nat, n: nat)
    ensures BitAnd(a, Shl(mask, n)) == Shl(BitAnd(Shr(a, n), mask), n)
    decreases n
  {
    if n > 0 {
      AndShl(a / 2, mask, n - 1);
      assert BitAnd(a, 2 * Shl(mask, n - 1)) == 2 * BitAnd(a / 2, Shl(mask, n - 1));
    }
  }

  /** Bits above and below position n do not meet: their union is their sum. */
  lemma {:induction false} OrDisjoint(hi: nat, lo: nat, n: nat)
    requires lo <= Ones(n)
    ensures BitOr(Shl(hi, n), lo) == Shl(hi, n) + lo
    decreases n
  {
    if n > 0 {
      OrDisjoint(hi, lo / 2, n - 1);
      assert BitOr(2 * Shl(hi, n - 1), lo) == 2 * BitOr(Shl(hi, n - 1), lo / 2) + lo % 2;
    }
  }

  lemma {:induction false} OrShl(a: nat, b: nat, n: nat)
    ensures BitOr(Shl(a, n), Shl(b, n)) == Shl(BitOr(a, b), n)
    decreases n
  {
    if n > 0 {
      OrShl(a, b, n - 1);
    }
  }

  lemma OrOdd(a: nat, b: nat)
    ensures BitOr(a, 2 * b + 1) == 2 * BitOr(a / 2, b) + 1
  {
    assert (2 * b + 1) / 2 == b && (2 * b + 1) % 2 == 1;
  }

  /** All ones absorb everything of their width. */
  lemma {:induction false} OrOnes(a: nat, n: nat)
    requires a <= Ones(n)
    ensures BitOr(a, Ones(n)) == Ones(n)
    decreases n
  {
    if n > 0 {
      OrOnes(a / 2, n - 1);
      OrOdd(a, Ones(n - 1));
    }
  }

  // Shifts are multiplication and division by powers of two.

  lemma {:induction false} ShlIsProduct(a: nat, n: nat)
    ensures Shl(a, n) == a * Shl(1, n)
    decreases n
  {
    if n > 0 {
      ShlIsProduct(a, n - 1);
      var p := Shl(1, n - 1);
      assert 2 * (a * p) == a * (2 * p);
    }
  }

  lemma {:induction false} ShlTwice(a: nat, m: nat, n: nat)
    ensures Shl(a, m + n) == Shl(Shl(a, m), n)
    decreases n
  {
    if n > 0 {
      ShlTwice(a, m, n - 1);
    }
  }

  lemma AtLeastOnce(k: nat, d: nat)
    requires k >= 1
    ensures k * d >= d
  {
    assert k * d == (k - 1) * d + d;
  }

  lemma DivModUnique(a: nat, d: nat, q: nat, r: nat)
    requires 0 < d && r < d && a == q * d + r
    ensures a / d == q && a % d == r
  {
    var q', r' := a / d, a % d;
    assert a == q' * d + r';
    if q' > q {
      AtLeastOnce(q' - q, d);
    } else if q' < q {
      AtLeastOnce(q - q', d);
    }
  }

  lemma {:induction false} ShlPositive(n: nat)
    ensures Shl(1, n) > 0
  {
    if n > 0 {
      ShlPositive(n - 1);
    }
  }

  lemma ShrIsQuotient(a: nat, n: nat)
    ensures Shl(1, n) > 0
    ensures Shr(a, n) == a / Shl(1, n) && Low(a, n) == a % Shl(1, n)
  {
    ShlPositive(n);
    HighPlusLow(a, n);
    LowBound(a, n);
    ShlIsProduct(Shr(a, n), n);
    DivModUnique(a, Shl(1, n), Shr(a, n), Low(a, n));
  }
}
