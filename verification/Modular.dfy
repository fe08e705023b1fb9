/** Arithmetic modulo a number: the scalar field of the curve's order and its coordinate field.

    Scalars are integers in [0, q).  Properties are stated on unbounded integers as equality of
    residues, so that ring identities are plain integer identities. */
module Modular {
  type Modulus = q: int | 1 < q witness 2

  /** The residue of x.  It is written by repeated subtraction, and not with %, because every proof
      that unfolds it then stays in linear arithmetic; ModIsRemainder ties it to %. */
  function Mod(q: Modulus, x: int): (r: int)
    ensures 0 <= r < q
    decreases if x < 0 then q - x else x
  {
    if x < 0 then Mod(q, x + q) else if x < q then x else Mod(q, x - q)
  }

  lemma {:induction false} ModShift(q: Modulus, x: int, k: int)
    ensures Mod(q, x + k * q) == Mod(q, x)
    decreases if k < 0 then -k else k
  {
    if k > 0 {
      assert x + k * q == x + (k - 1) * q + q;
      ModStep(q, x + (k - 1) * q);
      ModShift(q, x, k - 1);
    } else if k < 0 {
      assert x + k * q + q == x + (k + 1) * q;
      ModStep(q, x + k * q);
      ModShift(q, x, k + 1);
    }
  }

  lemma ModStep(q: Modulus, x: int)
    ensures Mod(q, x + q) == Mod(q, x)
  {
    if x < 0 {
    } else {
      assert x + q - q == x;
    }
  }

  /** x differs from its residue by a multiple of q. */
  lemma {:induction false} ModQuotient(q: Modulus, x: int) returns (k: int)
    ensures x == Mod(q, x) + k * q
    decreases if x < 0 then q - x else x
  {
    if x < 0 {
      var j := ModQuotient(q, x + q);
      assert Mod(q, x) == Mod(q, x + q);
      hide Mod;
      k := j - 1;
      NextMultiple(k, q);
    } else if x < q {
      k := 0;
    } else {
      var j := ModQuotient(q, x - q);
      assert Mod(q, x) == Mod(q, x - q);
      hide Mod;
      k := j + 1;
      NextMultiple(j, q);
    }
  }

  lemma NextMultiple(k: int, q: int)
    ensures (k + 1) * q == k * q + q
  {
  }

  lemma ModIsRemainder(q: Modulus, x: int)
    ensures Mod(q, x) == x % q
  {
    var k := ModQuotient(q, x);
    var r, d := Mod(q, x), x / q;
    hide Mod;
    var m := d - k;
    DifferenceOfMultiples(d, k, q);
    assert m * q == r - x % q;
    if m >= 1 {
      MulAtLeast(m, q);
    } else if m <= -1 {
      MulAtLeast(-m, q);
    }
  }

  lemma DifferenceOfMultiples(d: int, k: int, q: int)
    ensures (d - k) * q == d * q - k * q
    ensures -(d - k) * q == -((d - k) * q)
  {
  }

  /** The product, by repeated addition.  The specification functions multiply with it, so that
      unfolding them stays in linear arithmetic too; TimesIsProduct ties it to *. */
  function Times(a: int, b: int): int
    decreases if a < 0 then -a else a
  {
    if a == 0 then 0 else if a > 0 then Times(a - 1, b) + b else Times(a + 1, b) - b
  }

  lemma {:induction false} TimesIsProduct(a: int, b: int)
    ensures Times(a, b) == a * b
    decreases if a < 0 then -a else a
  {
    if a > 0 {
      TimesIsProduct(a - 1, b);
    } else if a < 0 {
      TimesIsProduct(a + 1, b);
    }
  }

  lemma MulAtLeast(m: int, q: int)
    requires 1 <= m && 0 < q
    ensures m * q >= q
  {
    assert m * q == (m - 1) * q + q;
  }

  lemma ModSmall(q: Modulus, x: int)
    requires 0 <= x < q
    ensures Mod(q, x) == x
  {
  }

  lemma ModMod(q: Modulus, x: int)
    ensures Mod(q, Mod(q, x)) == Mod(q, x)
  {
  }

  /** Congruent numbers may replace each other in sums and products. */
  lemma ModSum(q: Modulus, a: int, b: int)
    ensures Mod(q, Mod(q, a) + Mod(q, b)) == Mod(q, a + b)
    ensures Mod(q, Mod(q, a) + b) == Mod(q, a + b)
    ensures Mod(q, a + Mod(q, b)) == Mod(q, a + b)
  {
    var j := ModQuotient(q, a);
    var k := ModQuotient(q, b);
    hide Mod;
    ModShift(q, Mod(q, a) + b, j);
    ModShift(q, a + Mod(q, b), k);
    ModShift(q, Mod(q, a) + Mod(q, b), k);
  }

  lemma ModProduct(q: Modulus, a: int, b: int)
    ensures Mod(q, Mod(q, a) * Mod(q, b)) == Mod(q, a * b)
    ensures Mod(q, Mod(q, a) * b) == Mod(q, a * b)
    ensures Mod(q, a * Mod(q, b)) == Mod(q, a * b)
  {
    ModProductLeft(q, a, b);
    ModProductLeft(q, b, a);
    ModProductLeft(q, b, Mod(q, a));
    hide Mod;
    assert b * a == a * b;
    assert Mod(q, b) * a == a * Mod(q, b);
    assert Mod(q, b) * Mod(q, a) == Mod(q, a) * Mod(q, b);
    assert b * Mod(q, a) == Mod(q, a) * b;
  }

  lemma ModProductLeft(q: Modulus, a: int, b: int)
    ensures Mod(q, Mod(q, a) * b) == Mod(q, a * b)
  {
    var k := ModQuotient(q, a);
    var r := Mod(q, a);
    hide Mod;
    assert a * b == r * b + (k * b) * q by {
      assert a * b == (r + k * q) * b == r * b + k * q * b;
    }
    ModShift(q, r * b, k * b);
  }

  lemma CongSum(q: Modulus, a: int, b: int, c: int, d: int)
    requires Mod(q, a) == Mod(q, b) && Mod(q, c) == Mod(q, d)
    ensures Mod(q, a + c) == Mod(q, b + d)
  {
    hide Mod;
    ModSum(q, a, c);
    ModSum(q, b, d);
  }

  lemma CongProduct(q: Modulus, a: int, b: int, c: int, d: int)
    requires Mod(q, a) == Mod(q, b) && Mod(q, c) == Mod(q, d)
    ensures Mod(q, a * c) == Mod(q, b * d)
  {
    hide Mod;
    ModProduct(q, a, c);
    ModProduct(q, b, d);
  }

  lemma CongNegate(q: Modulus, a: int, b: int)
    requires Mod(q, a) == Mod(q, b)
    ensures Mod(q, -a) == Mod(q, -b)
  {
    hide Mod;
    CongProduct(q, -1, -1, a, b);
  }

  lemma CongDifference(q: Modulus, a: int, b: int)
    ensures Mod(q, a) == Mod(q, b) <==> Mod(q, a - b) == 0
  {
    ModSmall(q, 0);
    hide Mod;
    if Mod(q, a) == Mod(q, b) {
      CongSum(q, a, b, -b, -b);
    }
    if Mod(q, a - b) == 0 {
      CongSum(q, a - b, 0, b, b);
    }
  }

  /** q is prime: no number strictly between 1 and q divides it. */
  ghost predicate Prime(q: int) {
    1 < q && forall d: Modulus | d < q :: Mod(d, q) != 0
  }

  /** g is the greatest common divisor of a and b, with Bezout's coefficients s, t and the
      cofactors u, v. */
  datatype Bezout = Bezout(g: int, s: int, t: int, u: int, v: int)

  function ExtendedEuclid(a: nat, b: nat): Bezout
    decreases a + b
  {
    if a == 0 then
      Bezout(b, 0, 1, 0, 1)
    else if b == 0 then
      Bezout(a, 1, 0, 1, 0)
    else if a >= b then
      var r := ExtendedEuclid(a - b, b);
      Bezout(r.g, r.s, r.t - r.s, r.u + r.v, r.v)
    else
      var r := ExtendedEuclid(a, b - a);
      Bezout(r.g, r.s - r.t, r.t, r.u, r.u + r.v)
  }

  lemma {:induction false} EuclidCorrect(a: nat, b: nat)
    requires a + b > 0
    ensures var r := ExtendedEuclid(a, b);
      r.g == r.s * a + r.t * b && a == r.u * r.g && b == r.v * r.g && 0 < r.g <= a + b
    decreases a + b
  {
    if a > 0 && b > 0 {
      if a >= b {
        EuclidCorrect(a - b, b);
        EuclidStep(a, b, ExtendedEuclid(a - b, b));
      } else {
        EuclidCorrect(a, b - a);
        var r := ExtendedEuclid(a, b - a);
        EuclidStep(b, a, Bezout(r.g, r.t, r.s, r.v, r.u));
      }
    }
  }

  lemma EuclidStep(a: int, b: int, r: Bezout)
    requires r.g == r.s * (a - b) + r.t * b && a - b == r.u * r.g && b == r.v * r.g
    ensures r.g == r.s * a + (r.t - r.s) * b && a == (r.u + r.v) * r.g
  {
    assert (r.u + r.v) * r.g == r.u * r.g + r.v * r.g;
  }

  /** The inverse modulo a prime q; like the library's, it maps zero to zero. */
  function Inverse(q: Modulus, a: int): (r: int)
    ensures 0 <= r < q
  {
    if Mod(q, a) == 0 then 0 else Mod(q, ExtendedEuclid(Mod(q, a), q).s)
  }

  lemma InverseCorrect(q: Modulus, a: int)
    requires Prime(q) && Mod(q, a) != 0
    ensures Mod(q, a * Inverse(q, a)) == 1
  {
    var r := ExtendedEuclid(Mod(q, a), q);
    EuclidCorrect(Mod(q, a), q);
    assert r.g == 1 by {
      if r.g > 1 {
        ModShift(r.g, 0, r.v);
        assert Mod(r.g, q) == 0;
        assert r.g >= q;
        if r.u >= 1 { MulAtLeast(r.u, r.g); } else { MulAtMost(r.u, r.g); }
      }
    }
    ModSmall(q, 1);
    hide Mod, Prime, ExtendedEuclid;
    ModProduct(q, a, r.s);
    ModShift(q, r.s * Mod(q, a), r.t);
    assert r.s * Mod(q, a) == Mod(q, a) * r.s;
  }

  lemma MulAtMost(m: int, q: int)
    requires m <= 0 && 0 < q
    ensures m * q <= 0
  {
  }

  lemma NoZeroDivisors(q: Modulus, a: int, b: int)
    requires Prime(q) && Mod(q, a * b) == 0
    ensures Mod(q, a) == 0 || Mod(q, b) == 0
  {
    hide *;
    if Mod(q, a) != 0 {
      CancelProduct(q, a, b);
      CongProduct(q, a * b, 0, Inverse(q, a), Inverse(q, a)) by { ModSmall(q, 0); }
      ModSmall(q, 0);
    }
  }

  /** Multiplying a * b by the inverse of a leaves b. */
  lemma CancelProduct(q: Modulus, a: int, b: int)
    requires Prime(q) && Mod(q, a) != 0
    ensures Mod(q, a * b * Inverse(q, a)) == Mod(q, b)
  {
    hide *;
    InverseCorrect(q, a);
    ModSmall(q, 1);
    CongProduct(q, a * Inverse(q, a), 1, b, b);
    Rotate(a, Inverse(q, a), b);
  }

  lemma Rotate(a: int, b: int, c: int)
    ensures a * b * c == a * c * b
  {
  }

  /** A factor that is not zero modulo q can be cancelled. */
  lemma Cancel(q: Modulus, a: int, b: int, c: int)
    requires Prime(q) && Mod(q, a) != 0 && Mod(q, a * b) == Mod(q, a * c)
    ensures Mod(q, b) == Mod(q, c)
  {
    hide *;
    CancelProduct(q, a, b);
    CancelProduct(q, a, c);
    CongProduct(q, a * b, a * c, Inverse(q, a), Inverse(q, a));
  }
}
