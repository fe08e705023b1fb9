/** Polynomials over the scalar field, and what t values of a polynomial determine.

    A polynomial is the sequence of its coefficients, constant term first. */
module Polynomial {
  import opened Modular

  /** The value at x, nested as in Horner's rule. */
  function Eval(cs: seq<int>, x: int): int {
    if cs == [] then 0 else cs[0] + Times(x, Eval(cs[1..], x))
  }

  function Power(x: int, n: nat): int {
    if n == 0 then 1 else Times(Power(x, n - 1), x)
  }

  /** The value at x as the sum of coefficient times power: the definition Horner's rule rewrites. */
  function PowerSum(cs: seq<int>, x: int): int {
    if cs == [] then 0 else
      PowerSum(cs[..|cs| - 1], x) + Times(Power(x, |cs| - 1), cs[|cs| - 1])
  }

  lemma EvalHead(cs: seq<int>, x: int)
    requires cs != []
    ensures Eval(cs, x) == cs[0] + x * Eval(cs[1..], x)
    ensures |cs| == 1 ==> Eval(cs, x) == cs[0]
  {
    TimesIsProduct(x, Eval(cs[1..], x));
  }

  lemma PowerStep(x: int, n: nat)
    ensures Power(x, n + 1) == Power(x, n) * x
  {
    TimesIsProduct(Power(x, n), x);
  }

  lemma PowerSumLast(cs: seq<int>, x: int)
    requires cs != []
    ensures PowerSum(cs, x) == PowerSum(cs[..|cs| - 1], x) + Power(x, |cs| - 1) * cs[|cs| - 1]
  {
    TimesIsProduct(Power(x, |cs| - 1), cs[|cs| - 1]);
  }

  lemma {:induction false} HornerIsPowerSum(cs: seq<int>, x: int)
    ensures Eval(cs, x) == PowerSum(cs, x)
  {
    if cs != [] {
      HornerIsPowerSum(cs[1..], x);
      PowerSumHead(cs, x);
      EvalHead(cs, x);
    }
    hide Eval, PowerSum;
  }

  lemma {:induction false} PowerSumHead(cs: seq<int>, x: int)
    requires cs != []
    ensures PowerSum(cs, x) == cs[0] + x * PowerSum(cs[1..], x)
  {
    var n := |cs| - 1;
    PowerSumLast(cs, x);
    if n == 0 {
      assert cs[..0] == [] && cs[1..] == [];
    } else {
      var front, last := cs[..n], cs[n];
      PowerSumLast(cs[1..], x);
      PowerStep(x, n - 1);
      hide PowerSum, Power;
      PowerSumHead(front, x);
      assert front[1..] == cs[1..][..n - 1];
      var inner := PowerSum(front[1..], x);
      assert PowerSum(cs[1..], x) == inner + Power(x, n - 1) * last;
      DistributeTail(x, inner, Power(x, n - 1), last);
    }
  }

  lemma DistributeTail(x: int, a: int, p: int, c: int)
    ensures x * (a + p * c) == x * a + p * x * c
  {
  }

  /** The quotient of cs by (x - r), by synthetic division; the remainder is Eval(cs, r). */
  function Quotient(cs: seq<int>, r: int): (g: seq<int>)
    ensures |g| == if cs == [] then 0 else |cs| - 1
  {
    if |cs| <= 1 then [] else [Eval(cs[1..], r)] + Quotient(cs[1..], r)
  }

  lemma {:induction false} SyntheticDivision(cs: seq<int>, r: int, x: int)
    ensures Eval(cs, x) == Eval(cs, r) + (x - r) * Eval(Quotient(cs, r), x)
  {
    if cs != [] {
      EvalHead(cs, x);
      EvalHead(cs, r);
    }
    if |cs| > 1 {
      var rest := cs[1..];
      SyntheticDivision(rest, r, x);
      var g := Quotient(rest, r);
      assert Quotient(cs, r)[1..] == g;
      EvalHead(Quotient(cs, r), x);
      hide Eval;
      DivisionStep(cs[0], x, r, Eval(rest, x), Eval(rest, r), Eval(g, x));
    } else if |cs| == 1 {
      assert cs[1..] == [];
    }
  }

  lemma DivisionStep(c: int, x: int, r: int, atX: int, atR: int, g: int)
    requires atX == atR + (x - r) * g
    ensures c + x * atX == c + r * atR + (x - r) * (atR + x * g)
  {
    assert x * atX == x * atR + x * ((x - r) * g);
    assert x * ((x - r) * g) == (x - r) * (x * g);
  }

  /** The polynomial c + (x - r) * g(x). */
  function Attach(c: int, r: int, g: seq<int>): (cs: seq<int>)
    ensures |cs| == |g| + 1
    decreases g
  {
    if g == [] then [c] else [c - r * g[0]] + Attach(g[0], r, g[1..])
  }

  lemma {:induction false} AttachEval(c: int, r: int, g: seq<int>, x: int)
    ensures Eval(Attach(c, r, g), x) == c + (x - r) * Eval(g, x)
    decreases g
  {
    EvalHead(Attach(c, r, g), x);
    if g == [] {
      assert Attach(c, r, g)[1..] == [];
    } else {
      EvalHead(g, x);
      hide Eval;
      AttachEval(g[0], r, g[1..], x);
      assert Attach(c, r, g)[1..] == Attach(g[0], r, g[1..]);
      AttachStep(c, x, r, g[0], Eval(g[1..], x));
    }
  }

  lemma AttachStep(c: int, x: int, r: int, g0: int, e: int)
    ensures c - r * g0 + x * (g0 + (x - r) * e) == c + (x - r) * (g0 + x * e)
  {
    assert x * (g0 + (x - r) * e) == x * g0 + x * ((x - r) * e);
    assert x * ((x - r) * e) == (x - r) * (x * e);
  }

  /** Coefficients reduced into the scalar field. */
  function Reduce(q: Modulus, cs: seq<int>): (r: seq<int>)
    ensures |r| == |cs|
    ensures forall k | 0 <= k < |r| :: r[k] == Mod(q, cs[k])
  {
    if cs == [] then [] else [Mod(q, cs[0])] + Reduce(q, cs[1..])
  }

  ghost predicate Reduced(q: Modulus, cs: seq<int>) {
    forall k | 0 <= k < |cs| :: 0 <= cs[k] < q
  }

  /** Polynomials with congruent coefficients have congruent values at congruent points. */
  lemma {:induction false} EvalCong(q: Modulus, cs: seq<int>, ds: seq<int>, x: int, y: int)
    requires |cs| == |ds| && Mod(q, x) == Mod(q, y)
    requires forall k | 0 <= k < |cs| :: Mod(q, cs[k]) == Mod(q, ds[k])
    ensures Mod(q, Eval(cs, x)) == Mod(q, Eval(ds, y))
  {
    hide Mod;
    if cs != [] {
      EvalHead(cs, x);
      EvalHead(ds, y);
      hide Eval;
      EvalCong(q, cs[1..], ds[1..], x, y);
      CongProduct(q, x, y, Eval(cs[1..], x), Eval(ds[1..], y));
      CongSum(q, cs[0], ds[0], x * Eval(cs[1..], x), y * Eval(ds[1..], y));
    }
  }

  /** Points at which interpolation is possible: no two are congruent. */
  ghost predicate Apart(q: Modulus, xs: seq<int>) {
    forall i, j | 0 <= i < j < |xs| :: Mod(q, xs[i]) != Mod(q, xs[j])
  }

  /** cs takes the value ys[k] at xs[k], for every k. */
  ghost predicate Fits(q: Modulus, cs: seq<int>, xs: seq<int>, ys: seq<int>)
    requires |xs| == |ys|
  {
    forall k | 0 <= k < |xs| :: Mod(q, Eval(cs, xs[k])) == Mod(q, ys[k])
  }

  /** A polynomial with as many roots as coefficients is zero. */
  lemma {:induction false} TooManyRoots(q: Modulus, cs: seq<int>, xs: seq<int>)
    requires Prime(q) && Apart(q, xs) && |cs| == |xs|
    requires forall k | 0 <= k < |xs| :: Mod(q, Eval(cs, xs[k])) == 0
    ensures forall k | 0 <= k < |cs| :: Mod(q, cs[k]) == 0
    decreases |cs|
  {
    hide Mod, Prime;
    if cs != [] {
      var r, g := xs[0], Quotient(cs, xs[0]);
      forall k | 0 <= k < |xs[1..]| ensures Mod(q, Eval(g, xs[1..][k])) == 0 {
        RootOfQuotient(q, cs, r, xs[k + 1]);
      }
      TooManyRoots(q, g, xs[1..]);
      ZeroFromQuotient(q, cs, r);
    }
  }

  lemma RootOfQuotient(q: Modulus, cs: seq<int>, r: int, x: int)
    requires Prime(q) && Mod(q, x) != Mod(q, r)
    requires Mod(q, Eval(cs, r)) == 0 && Mod(q, Eval(cs, x)) == 0
    ensures Mod(q, Eval(Quotient(cs, r), x)) == 0
  {
    hide *;
    SyntheticDivision(cs, r, x);
    CongDifference(q, Eval(cs, x), Eval(cs, r));
    CongDifference(q, x, r);
    NoZeroDivisors(q, x - r, Eval(Quotient(cs, r), x));
  }

  lemma {:induction false} ZeroFromQuotient(q: Modulus, cs: seq<int>, r: int)
    requires Mod(q, Eval(cs, r)) == 0
    requires forall k | 0 <= k < |Quotient(cs, r)| :: Mod(q, Quotient(cs, r)[k]) == 0
    ensures forall k | 0 <= k < |cs| :: Mod(q, cs[k]) == 0
  {
    hide Mod, Eval;
    if cs != [] { EvalHead(cs, r); }
    if |cs| > 1 {
      var rest := cs[1..];
      assert Quotient(cs, r) == [Eval(rest, r)] + Quotient(rest, r);
      hide Quotient;
      forall k | 0 <= k < |Quotient(rest, r)| ensures Mod(q, Quotient(rest, r)[k]) == 0 {
        assert Quotient(cs, r)[k + 1] == Quotient(rest, r)[k];
      }
      assert Mod(q, Quotient(cs, r)[0]) == 0;
      ZeroFromQuotient(q, rest, r);
      ZeroHead(q, cs[0], r, Eval(rest, r));
      forall k | 0 <= k < |cs| ensures Mod(q, cs[k]) == 0 {
        if k > 0 { assert cs[k] == rest[k - 1]; }
      }
    }
  }

  lemma ZeroHead(q: Modulus, c: int, r: int, e: int)
    requires Mod(q, c + r * e) == 0 && Mod(q, e) == 0
    ensures Mod(q, c) == 0
  {
    ModSmall(q, 0);
    hide *;
    CongProduct(q, -r, -r, e, 0);
    CongSum(q, c + r * e, 0, -r * e, -r * 0);
    assert c + r * e + -r * e == c;
  }

  /** Two reduced polynomials of t coefficients that agree at t points are the same. */
  lemma FitIsUnique(q: Modulus, cs: seq<int>, ds: seq<int>, xs: seq<int>, ys: seq<int>)
    requires Prime(q) && Apart(q, xs) && |cs| == |ds| == |xs| == |ys|
    requires Reduced(q, cs) && Reduced(q, ds) && Fits(q, cs, xs, ys) && Fits(q, ds, xs, ys)
    ensures cs == ds
  {
    var es := Minus(cs, ds);
    forall k | 0 <= k < |xs| ensures Mod(q, Eval(es, xs[k])) == 0 {
      MinusEval(cs, ds, xs[k]);
      CongDifference(q, Eval(cs, xs[k]), Eval(ds, xs[k]));
    }
    TooManyRoots(q, es, xs);
    forall k | 0 <= k < |cs| ensures cs[k] == ds[k] {
      CongDifference(q, cs[k], ds[k]);
      ModSmall(q, cs[k]);
      ModSmall(q, ds[k]);
    }
  }

  function Minus(cs: seq<int>, ds: seq<int>): (es: seq<int>)
    requires |cs| == |ds|
    ensures |es| == |cs| && forall k | 0 <= k < |es| :: es[k] == cs[k] - ds[k]
  {
    if cs == [] then [] else [cs[0] - ds[0]] + Minus(cs[1..], ds[1..])
  }

  lemma {:induction false} MinusEval(cs: seq<int>, ds: seq<int>, x: int)
    requires |cs| == |ds|
    ensures Eval(Minus(cs, ds), x) == Eval(cs, x) - Eval(ds, x)
  {
    if cs != [] {
      EvalHead(cs, x);
      EvalHead(ds, x);
      EvalHead(Minus(cs, ds), x);
      hide Eval;
      MinusEval(cs[1..], ds[1..], x);
      assert Minus(cs, ds)[1..] == Minus(cs[1..], ds[1..]);
      assert x * (Eval(cs[1..], x) - Eval(ds[1..], x)) == x * Eval(cs[1..], x) - x * Eval(ds[1..], x);
    }
  }

  /** Any t values at t points are taken by a polynomial of t coefficients. */
  lemma {:induction false} FitExists(q: Modulus, xs: seq<int>, ys: seq<int>) returns (cs: seq<int>)
    requires Prime(q) && Apart(q, xs) && |xs| == |ys|
    ensures |cs| == |xs| && Reduced(q, cs) && Fits(q, cs, xs, ys)
    decreases xs
  {
    hide Mod, Prime;
    if xs == [] {
      cs := [];
    } else {
      var slopes := Slopes(q, xs[0], ys[0], xs[1..], ys[1..]);
      var g := FitExists(q, xs[1..], slopes);
      cs := Reduce(q, Attach(ys[0], xs[0], g));
      forall k | 0 <= k < |xs| ensures Mod(q, Eval(cs, xs[k])) == Mod(q, ys[k]) {
        ReducedAttach(q, ys[0], xs[0], g, xs[k]);
        if k > 0 {
          assert xs[k] == xs[1..][k - 1] && ys[k] == ys[1..][k - 1];
          CongDifference(q, xs[k], xs[0]);
          SlopeFits(q, ys[0], xs[k] - xs[0], ys[k], Eval(g, xs[k]));
        } else {
          assert (xs[0] - xs[0]) * Eval(g, xs[0]) == 0;
        }
      }
    }
  }

  /** What the quotient by (x - r) has to take at xs. */
  function Slopes(q: Modulus, r: int, c: int, xs: seq<int>, ys: seq<int>): (slopes: seq<int>)
    requires |xs| == |ys|
    ensures |slopes| == |xs|
    ensures forall k | 0 <= k < |xs| :: slopes[k] == (ys[k] - c) * Inverse(q, xs[k] - r)
    decreases xs
  {
    if xs == [] then [] else [(ys[0] - c) * Inverse(q, xs[0] - r)] + Slopes(q, r, c, xs[1..], ys[1..])
  }

  lemma ReducedAttach(q: Modulus, c: int, r: int, g: seq<int>, x: int)
    ensures Mod(q, Eval(Reduce(q, Attach(c, r, g)), x)) == Mod(q, c + (x - r) * Eval(g, x))
  {
    hide Mod;
    var raw := Attach(c, r, g);
    forall j | 0 <= j < |raw| ensures Mod(q, Reduce(q, raw)[j]) == Mod(q, raw[j]) {
      ModMod(q, raw[j]);
    }
    EvalCong(q, Reduce(q, raw), raw, x, x);
    AttachEval(c, r, g, x);
  }

  lemma SlopeFits(q: Modulus, c: int, d: int, y: int, g: int)
    requires Prime(q) && Mod(q, d) != 0 && Mod(q, g) == Mod(q, (y - c) * Inverse(q, d))
    ensures Mod(q, c + d * g) == Mod(q, y)
  {
    hide *;
    var i := Inverse(q, d);
    CongProduct(q, d, d, g, (y - c) * i);
    assert d * ((y - c) * i) == d * (y - c) * i;
    CancelProduct(q, d, y - c);
    CongSum(q, c, c, d * g, y - c);
  }
}
