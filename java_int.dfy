/** Java's integer remainder, which truncates toward zero (Dafny's % is Euclidean). */
module JavaInt {

  /**
   * a % b as Java computes it for b > 0: |r| < b and the sign of r follows a.
   * Written as repeated subtraction toward zero, which is what truncation means.
   */
  function JavaRem(a: int, b: int): (r: int)
    requires b > 0
    ensures -b < r < b
    ensures a >= 0 ==> r >= 0
    ensures a < 0 ==> r <= 0
    decreases if a >= 0 then a else -a
  {
    if -b < a < b then a
    else if a >= b then JavaRem(a - b, b)
    else JavaRem(a + b, b)
  }

  /**
   * The idiom `r = a % b; if (r < 0) r += b;`, which both Permutation.wrap and
   * Rotor.mod use, is the Euclidean remainder (JavaIdiomIsFloorRem).
   */
  function FloorRem(a: int, b: int): (r: int)
    requires b > 0
    ensures 0 <= r < b
  {
    a % b
  }

  /** Java's two-step computation yields FloorRem. */
  lemma JavaIdiomIsFloorRem(a: int, b: int)
    requires b > 0
    ensures (var r := JavaRem(a, b); if r < 0 then r + b else r) == FloorRem(a, b)
  {
    JavaRemIsMod(a, b);
  }

  /** Java's remainder agrees with the Euclidean one, up to adding b when negative. */
  lemma {:induction false} JavaRemIsMod(a: int, b: int)
    requires b > 0
    ensures JavaRem(a, b) >= 0 ==> JavaRem(a, b) == a % b
    ensures JavaRem(a, b) < 0 ==> JavaRem(a, b) + b == a % b
    decreases if a >= 0 then a else -a
  {
    if 0 <= a < b {
      ModUnique(a, b, 0, a);
    } else if -b < a < 0 {
      ModUnique(a, b, -1, a + b);
    } else if a >= b {
      JavaRemIsMod(a - b, b);
      ModShift(a - b, b);
    } else {
      JavaRemIsMod(a + b, b);
      ModShift(a, b);
    }
  }

  /** Adding s, reducing, and subtracting s again leaves the residue of x. */
  lemma ShiftResidue(x: int, s: int, n: int)
    requires n > 0
    ensures ((x + s) % n - s) % n == x % n
  {
    var q, m := (x + s) / n, (x + s) % n;
    var q2, m2 := x / n, x % n;
    assert x + s == q * n + m;
    assert x == q2 * n + m2;
    assert (q2 - q) * n == q2 * n - q * n;
    ModUnique(m - s, n, q2 - q, m2);
  }

  /** Adding the modulus does not change the Euclidean remainder. */
  lemma ModShift(x: int, n: int)
    requires n > 0
    ensures (x + n) % n == x % n
  {
    var q := x / n;
    var r := x % n;
    assert x + n == (q + 1) * n + r;
    ModUnique(x + n, n, q + 1, r);
  }

  lemma {:induction false} MulAtLeast(k: int, n: int)
    requires k >= 1 && n > 0
    ensures k * n >= n
  {
    if k > 1 {
      MulAtLeast(k - 1, n);
      assert k * n == (k - 1) * n + n;
    }
  }

  /** Euclidean division is determined by quotient and remainder. */
  lemma ModUnique(x: int, n: int, q: int, r: int)
    requires n > 0 && 0 <= r < n && x == q * n + r
    ensures x % n == r && x / n == q
  {
    var q' := x / n;
    var r' := x % n;
    assert x == q' * n + r';
    if q' > q {
      MulAtLeast(q' - q, n);
      assert false;
    } else if q' < q {
      MulAtLeast(q - q', n);
      assert false;
    }
  }
}
