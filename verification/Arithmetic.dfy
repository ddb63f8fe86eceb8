/** Facts about division and multiplication that the solver does not find by itself. */
module Arithmetic {

  const U32: nat := 0x1_0000_0000
  const U64: nat := 0x1_0000_0000_0000_0000

  function Max(a: int, b: int): int { if a >= b then a else b }

  function Min(a: int, b: int): int { if a <= b then a else b }

  lemma {:induction false} MulNonnegative(k: nat, n: nat)
    ensures k * n >= 0
  {
  }

  lemma Distribute(k: int, a: int, b: int)
    ensures k * (a + b) == k * a + k * b
    ensures (a + b) * k == a * k + b * k
  {
  }

  lemma Negate(a: int, b: int)
    ensures -a * b == -(a * b)
  {
  }

  lemma Commute(a: int, b: int)
    ensures a * b == b * a
  {
  }

  lemma ScaleGrows(d: int, n: int)
    requires n > 0 && d != 0
    ensures d * n >= n || d * n <= -n
  {
    if d >= 1 {
      MulNonnegative(d - 1, n);
      assert d * n == (d - 1) * n + n;
    } else {
      MulNonnegative(-1 - d, n);
      assert d * n == -((-1 - d) * n) - n;
    }
  }

  /** A remainder is determined by any decomposition. */
  lemma ModUnique(x: int, q: int, r: int, n: int)
    requires 0 <= r < n && x == q * n + r
    ensures x % n == r && x / n == q
  {
    var d := x / n - q;
    assert d * n == r - x % n;
    if d != 0 {
      ScaleGrows(d, n);
    }
  }

  /** Adding `y` leaves the remainder alone exactly when `n` divides `y`. */
  lemma ModShift(x: int, y: int, n: int)
    requires n > 0
    ensures (x + y) % n == x % n <==> y % n == 0
  {
    var q, p := x / n, y / n;
    if y % n == 0 {
      assert (q + p) * n == q * n + p * n;
      ModUnique(x + y, q + p, x % n, n);
    }
    if (x + y) % n == x % n {
      var s := (x + y) / n;
      assert (s - q) * n == s * n - q * n;
      ModUnique(y, s - q, 0, n);
    }
  }

  lemma ModAbsorb(x: int, y: int, n: int)
    requires n > 0
    ensures (x + y % n) % n == (x + y) % n
  {
    var q := y / n;
    Distribute(n, q, (x + y % n) / n);
    ModUnique(x + y, q + (x + y % n) / n, (x + y % n) % n, n);
  }

  /** `x % n` (never negative) by repeated subtraction or addition. */
  function Rem(x: int, n: nat): (r: nat)
    requires n > 0
    ensures r < n
    ensures 0 <= x < n ==> r == x
    decreases if x < 0 then n - x else x
  {
    if x < 0 then Rem(x + n, n) else if x < n then x else Rem(x - n, n)
  }

  lemma {:induction false} RemShift(x: int, n: nat)
    requires n > 0
    ensures Rem(x + n, n) == Rem(x, n)
  {
  }

  lemma {:induction false} RemIsMod(x: int, n: nat)
    requires n > 0
    ensures Rem(x, n) == x % n
    decreases if x < 0 then n - x else x
  {
    if x < 0 {
      RemIsMod(x + n, n);
      ModShift(x, n, n);
    } else if x >= n {
      RemIsMod(x - n, n);
      ModShift(x - n, n, n);
    } else {
      ModUnique(x, 0, x, n);
    }
  }

  /** Counting on from a multiple of `n`. */
  lemma {:induction false} RemFromMultiple(x: int, offset: nat, n: nat)
    requires offset < n && Rem(x, n) == 0
    ensures Rem(x + offset, n) == offset
    decreases if x < 0 then n - x else x
  {
    if x < 0 {
      RemFromMultiple(x + n, offset, n);
      RemShift(x + offset, n);
    } else if x >= n {
      RemFromMultiple(x - n, offset, n);
    }
  }

  /** Going back to the multiple of `n` at or below `x`. */
  lemma {:induction false} RemToMultiple(x: int, n: nat)
    requires n > 0
    ensures Rem(x - Rem(x, n), n) == 0
    decreases if x < 0 then n - x else x
  {
    if x < 0 {
      RemToMultiple(x + n, n);
      RemShift(x - Rem(x, n), n);
    } else if x >= n {
      RemToMultiple(x - n, n);
      RemShift(x - n - Rem(x, n), n);
    }
  }
}
