/** Bitwise AND on naturals and the two mask tricks built on it: testing for a power of two
    and rounding to a multiple of one. */
module BitTricks {

  function And(x: nat, y: nat): nat {
    if x == 0 || y == 0 then 0 else (x % 2) * (y % 2) + 2 * And(x / 2, y / 2)
  }

  predicate IsPow2(n: nat) {
    n == 1 || (n > 1 && n % 2 == 0 && IsPow2(n / 2))
  }

  lemma {:induction false} AndSelf(x: nat)
    ensures And(x, x) == x
  {
    if x > 0 { AndSelf(x / 2); }
  }

  /** n & (n - 1) is zero exactly for the powers of two. */
  lemma {:induction false} Pow2Test(n: nat)
    requires n > 0
    ensures And(n, n - 1) == 0 <==> IsPow2(n)
  {
    if n > 1 {
      if n % 2 == 0 {
        assert (n - 1) / 2 == n / 2 - 1;
        Pow2Test(n / 2);
      } else {
        assert (n - 1) / 2 == n / 2;
        AndSelf(n / 2);
      }
    }
  }

  lemma AndStep(x: nat, a: nat)
    requires a > 1 && a % 2 == 0
    ensures And(x, a - 1) == x % 2 + 2 * And(x / 2, a / 2 - 1)
  {
    assert (a - 1) % 2 == 1 && (a - 1) / 2 == a / 2 - 1;
  }

  /** The low bits that a power-of-two alignment wants clear are clear. */
  predicate Aligned(b: nat, a: nat)
    requires a > 0
  {
    And(b, a - 1) == 0
  }

  /** x & ~(a - 1) is aligned and less than `a` below `x`. */
  lemma {:induction false} MaskDown(x: nat, a: nat)
    requires IsPow2(a)
    ensures And(x, a - 1) < a && And(x, a - 1) <= x && Aligned(x - And(x, a - 1), a)
  {
    if a > 1 {
      AndStep(x, a);
      MaskDown(x / 2, a / 2);
      AndStep(x - And(x, a - 1), a);
      assert (x - And(x, a - 1)) / 2 == x / 2 - And(x / 2, a / 2 - 1);
    }
  }

  /** Aligned addresses lie at least `a` apart. */
  lemma {:induction false} AlignedApart(c: nat, b: nat, a: nat)
    requires IsPow2(a) && Aligned(c, a) && Aligned(b, a) && c < b
    ensures c + a <= b
  {
    if a > 1 {
      AndStep(c, a);
      AndStep(b, a);
      AlignedApart(c / 2, b / 2, a / 2);
    }
  }

  /** (i + a - 1) & ~(a - 1) is the lowest aligned address that is not below `i`. */
  lemma RoundUp(i: nat, a: nat)
    requires IsPow2(a)
    ensures var x := i + a - 1; And(x, a - 1) <= x
    ensures var b := i + a - 1 - And(i + a - 1, a - 1);
      i <= b && Aligned(b, a) && forall c: nat :: i <= c < b ==> !Aligned(c, a)
  {
    var x := i + a - 1;
    MaskDown(x, a);
    var b := x - And(x, a - 1);
    forall c: nat | i <= c < b && Aligned(c, a) ensures false {
      AlignedApart(c, b, a);
    }
  }

  /** For a power of two, aligned means a multiple. */
  lemma {:induction false} AlignedIsMultiple(b: nat, a: nat)
    requires IsPow2(a)
    ensures Aligned(b, a) <==> b % a == 0
  {
    if a > 1 {
      AndStep(b, a);
      AlignedIsMultiple(b / 2, a / 2);
      if b % 2 == 0 { HalfMultiple(b / 2, a / 2); } else { OddRemainder(b, a / 2); }
    }
  }

  lemma Times(q: nat, m: nat, p: nat)
    requires p < q
    ensures p * m + m <= q * m
  {
    assert q * m == p * m + (q - p) * m;
    assert (q - p) * m == m + (q - p - 1) * m;
    assert (q - p - 1) * m >= 0;
  }

  lemma Divides(m: nat, k: nat)
    requires m > 0
    ensures (k * m) % m == 0
  {
    var p, t := (k * m) / m, (k * m) % m;
    assert k * m == p * m + t;
    if p < k { Times(k, m, p); }
    if k < p { Times(p, m, k); }
  }

  lemma HalfMultiple(h: nat, m: nat)
    requires m > 0
    ensures (2 * h) % (2 * m) == 0 <==> h % m == 0
  {
    if h % m == 0 {
      var k := h / m;
      assert 2 * h == k * (2 * m);
      Divides(2 * m, k);
    }
    if (2 * h) % (2 * m) == 0 {
      var k := 2 * h / (2 * m);
      assert 2 * h == k * (2 * m);
      assert h == k * m;
      Divides(m, k);
    }
  }

  lemma OddRemainder(b: nat, m: nat)
    requires m > 0 && b % 2 == 1
    ensures b % (2 * m) != 0
  {
    var k := b / (2 * m);
    assert b == 2 * (k * m) + b % (2 * m);
  }
}
