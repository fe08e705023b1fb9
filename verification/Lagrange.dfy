/** Sums over signer lists and the Lagrange weights at zero. */
module Lagrange {
  import opened Modular
  import opened Polynomial

  // ----- Sums -----

  ghost function Sum(s: seq<nat>, f: nat -> int): int {
    if s == [] then 0 else f(s[0]) + Sum(s[1..], f)
  }

  /** s without the element at position k. */
  function Drop<T>(s: seq<T>, k: nat): (r: seq<T>)
    requires k < |s|
    ensures |r| == |s| - 1
  {
    s[..k] + s[k + 1..]
  }

  lemma {:induction false} SumDrop(s: seq<nat>, f: nat -> int, k: nat)
    requires k < |s|
    ensures Sum(s, f) == f(s[k]) + Sum(Drop(s, k), f)
  {
    if k == 0 {
      assert Drop(s, 0) == s[1..];
    } else {
      SumDrop(s[1..], f, k - 1);
      assert Drop(s, k)[1..] == Drop(s[1..], k - 1);
    }
  }

  lemma {:induction false} SumAppend(s: seq<nat>, f: nat -> int, x: nat)
    ensures Sum(s + [x], f) == Sum(s, f) + f(x)
  {
    SumDrop(s + [x], f, |s|);
    assert Drop(s + [x], |s|) == s;
  }

  /** The order of the terms does not matter. */
  lemma {:induction false} SumPermutation(s: seq<nat>, t: seq<nat>, f: nat -> int)
    requires multiset(s) == multiset(t)
    ensures Sum(s, f) == Sum(t, f)
  {
    if s == [] {
      assert |t| == |multiset(t)| == |multiset(s)| == 0;
    } else {
      var k := DropMatching(s, t);
      SumDrop(t, f, k);
      SumPermutation(s[1..], Drop(t, k), f);
    }
  }

  lemma DropMatching<T>(s: seq<T>, t: seq<T>) returns (k: nat)
    requires s != [] && multiset(s) == multiset(t)
    ensures k < |t| && t[k] == s[0] && multiset(s[1..]) == multiset(Drop(t, k))
  {
    assert s[0] in multiset(t);
    k :| 0 <= k < |t| && t[k] == s[0];
    assert t == t[..k] + [t[k]] + t[k + 1..];
    assert s == [s[0]] + s[1..];
    assert multiset(t) == multiset(t[..k]) + multiset{t[k]} + multiset(t[k + 1..]);
    assert multiset(Drop(t, k)) == multiset(t[..k]) + multiset(t[k + 1..]);
    assert multiset(s) == multiset{s[0]} + multiset(s[1..]);
    assert multiset(s[1..]) == multiset(s) - multiset{s[0]};
    assert multiset(Drop(t, k)) == multiset(t) - multiset{t[k]};
  }

  lemma {:induction false} SumCong(q: Modulus, s: seq<nat>, f: nat -> int, g: nat -> int)
    requires forall i | i in s :: Mod(q, f(i)) == Mod(q, g(i))
    ensures Mod(q, Sum(s, f)) == Mod(q, Sum(s, g))
  {
    hide Mod;
    if s != [] {
      SumCong(q, s[1..], f, g);
      CongSum(q, f(s[0]), g(s[0]), Sum(s[1..], f), Sum(s[1..], g));
    }
  }

  /** A sum of terms a * f + b * g, modulo q. */
  lemma {:induction false} SumLinear(q: Modulus, s: seq<nat>, h: nat -> int, a: int, f: nat -> int, b: int,
      g: nat -> int)
    requires forall i | i in s :: Mod(q, h(i)) == Mod(q, a * f(i) + b * g(i))
    ensures Mod(q, Sum(s, h)) == Mod(q, a * Sum(s, f) + b * Sum(s, g))
  {
    hide Mod;
    if s != [] {
      var rest := s[1..];
      SumLinear(q, rest, h, a, f, b, g);
      CongSum(q, h(s[0]), a * f(s[0]) + b * g(s[0]), Sum(rest, h), a * Sum(rest, f) + b * Sum(rest, g));
      CombineLinear(a, f(s[0]), Sum(rest, f), b, g(s[0]), Sum(rest, g));
    }
  }

  lemma {:induction false} SumScale(q: Modulus, s: seq<nat>, h: nat -> int, a: int, f: nat -> int)
    requires forall i | i in s :: Mod(q, h(i)) == Mod(q, a * f(i))
    ensures Mod(q, Sum(s, h)) == Mod(q, a * Sum(s, f))
  {
    hide Mod;
    if s != [] {
      SumScale(q, s[1..], h, a, f);
      CongSum(q, h(s[0]), a * f(s[0]), Sum(s[1..], h), a * Sum(s[1..], f));
      assert a * f(s[0]) + a * Sum(s[1..], f) == a * (f(s[0]) + Sum(s[1..], f));
    }
  }

  lemma CombineLinear(a: int, f: int, fs: int, b: int, g: int, gs: int)
    ensures a * f + b * g + (a * fs + b * gs) == a * (f + fs) + b * (g + gs)
  {
  }

  // ----- Lagrange weights -----

  ghost predicate Distinct(s: seq<nat>) {
    forall i, j | 0 <= i < j < |s| :: s[i] != s[j]
  }

  ghost predicate InRange(q: Modulus, s: seq<nat>) {
    forall k | 0 <= k < |s| :: s[k] < q
  }

  /** The weight of signer i among s: the product, over the other signers j, of j / (j - i). */
  function Weight(q: Modulus, i: nat, s: seq<nat>): (r: int)
    ensures 0 <= r < q
    decreases |s|
  {
    if s == [] then 1 else
      var w, j := Weight(q, i, s[..|s| - 1]), s[|s| - 1];
      if j == i then w else Mod(q, Times(w, Mod(q, Times(j, Inverse(q, j - i)))))
  }

  lemma WeightLast(q: Modulus, i: nat, s: seq<nat>)
    requires s != []
    ensures var w, j := Weight(q, i, s[..|s| - 1]), s[|s| - 1];
      Weight(q, i, s) == if j == i then w else Mod(q, w * Mod(q, j * Inverse(q, j - i)))
  {
    var w, j := Weight(q, i, s[..|s| - 1]), s[|s| - 1];
    TimesIsProduct(j, Inverse(q, j - i));
    TimesIsProduct(w, Mod(q, j * Inverse(q, j - i)));
  }

  lemma {:induction false} WeightDrop(q: Modulus, i: nat, s: seq<nat>, k: nat)
    requires k < |s| && s[k] != i
    ensures Weight(q, i, s) == Mod(q, Weight(q, i, Drop(s, k)) * (s[k] * Inverse(q, s[k] - i)))
    decreases |s|
  {
    hide Mod, Inverse, Weight;
    WeightLast(q, i, s);
    var n := |s| - 1;
    var j, ratio := s[n], s[k] * Inverse(q, s[k] - i);
    if k == n {
      assert Drop(s, n) == s[..n];
      ModProduct(q, Weight(q, i, s[..n]), ratio);
    } else {
      WeightDrop(q, i, s[..n], k);
      var d := Drop(s, k);
      WeightLast(q, i, d);
      assert d[..|d| - 1] == Drop(s[..n], k) && d[|d| - 1] == j;
      if j != i {
        ProductSwap(q, Weight(q, i, Drop(s[..n], k)), ratio, Mod(q, j * Inverse(q, j - i)));
      }
    }
  }

  lemma ProductSwap(q: Modulus, a: int, b: int, c: int)
    ensures Mod(q, Mod(q, a * b) * c) == Mod(q, Mod(q, a * c) * b)
  {
    hide *;
    ModProduct(q, a * b, c);
    ModProduct(q, a * c, b);
    Rotate(a, b, c);
  }

  lemma WeightOfOther(q: Modulus, i: nat, s: seq<nat>, k: nat)
    requires Prime(q) && k < |s| && s[k] != i && i < q && s[k] < q
    ensures Mod(q, Weight(q, i, s) * (i - s[k])) == Mod(q, -s[k] * Weight(q, i, Drop(s, k)))
  {
    WeightDrop(q, i, s, k);
    var w, d, j := Weight(q, i, Drop(s, k)), s[k] - i, s[k] as int;
    assert Mod(q, d) != 0;
    hide *;
    ModProduct(q, w * (j * Inverse(q, d)), -d);
    RatioCancels(w, j, Inverse(q, d), d);
    CancelProduct(q, d, -j * w);
  }

  lemma RatioCancels(w: int, j: int, inv: int, d: int)
    ensures w * (j * inv) * -d == d * (-j * w) * inv
  {
    var jw := j * w;
    assert w * (j * inv) == jw * inv;
    assert jw * inv * -d == -(jw * inv * d);
    assert d * -jw * inv == -(jw * inv * d);
  }

  ghost function Weighted(q: Modulus, s: seq<nat>, h: nat -> int): nat -> int {
    (i: nat) => Times(Weight(q, i, s), h(i))
  }

  /** The sum of Weight(i, s) * h(i) over the signers i in s. */
  ghost function WeightedSum(q: Modulus, s: seq<nat>, h: nat -> int): int {
    Sum(s, Weighted(q, s, h))
  }

  lemma WeightedAt(q: Modulus, s: seq<nat>, h: nat -> int, i: nat)
    ensures Weighted(q, s, h)(i) == Weight(q, i, s) * h(i)
  {
    hide Weight;
    TimesIsProduct(Weight(q, i, s), h(i));
    hide Times;
  }

  lemma WeightedSumLinear(q: Modulus, s: seq<nat>, h: nat -> int, a: int, f: nat -> int, b: int, g: nat -> int)
    requires forall i | i in s :: Mod(q, h(i)) == Mod(q, a * f(i) + b * g(i))
    ensures Mod(q, WeightedSum(q, s, h)) == Mod(q, a * WeightedSum(q, s, f) + b * WeightedSum(q, s, g))
  {
    hide *;
    forall i | i in s
      ensures Mod(q, Weighted(q, s, h)(i)) == Mod(q, a * Weighted(q, s, f)(i) + b * Weighted(q, s, g)(i))
    {
      WeightedAt(q, s, f, i);
      WeightedAt(q, s, g, i);
      WeightedAt(q, s, h, i);
      LinearTerm(q, Weight(q, i, s), h(i), a, f(i), b, g(i));
    }
    SumLinear(q, s, Weighted(q, s, h), a, Weighted(q, s, f), b, Weighted(q, s, g));
    WeightedSumIsSum(q, s, f);
    WeightedSumIsSum(q, s, g);
    WeightedSumIsSum(q, s, h);
  }

  lemma LinearTerm(q: Modulus, w: int, h: int, a: int, f: int, b: int, g: int)
    requires Mod(q, h) == Mod(q, a * f + b * g)
    ensures Mod(q, w * h) == Mod(q, a * (w * f) + b * (w * g))
  {
    hide *;
    CongProduct(q, w, w, h, a * f + b * g);
    Distribute(w, a, f, b, g);
  }

  lemma Distribute(w: int, a: int, f: int, b: int, g: int)
    ensures w * (a * f + b * g) == a * (w * f) + b * (w * g)
  {
    assert w * (a * f + b * g) == w * (a * f) + w * (b * g);
  }

  /** Every value of h at a signer has the factor (i - x). */
  ghost predicate HasFactor(s: seq<nat>, x: nat, h: nat -> int, rest: nat -> int) {
    forall i | i in s :: h(i) == Times(i - x, rest(i))
  }

  /** A factor (i - s[k]) in every term removes signer s[k]. */
  lemma PeelSigner(q: Modulus, s: seq<nat>, k: nat, h: nat -> int, v: nat -> int)
    requires Prime(q) && Distinct(s) && InRange(q, s) && k < |s| && HasFactor(s, s[k], h, v)
    ensures Mod(q, WeightedSum(q, s, h)) == Mod(q, -Times(s[k], WeightedSum(q, Drop(s, k), v)))
  {
    hide *;
    TimesIsProduct(s[k], WeightedSum(q, Drop(s, k), v));
    var x: int, f, g := s[k], Weighted(q, s, h), Weighted(q, Drop(s, k), v);
    DropKeeps(q, s, k);
    SumDrop(s, f, k);
    PeeledTermIsZero(q, s, k, h, v);
    forall i | i in Drop(s, k) ensures Mod(q, f(i)) == Mod(q, -x * g(i)) {
      PeelTerm(q, i, s, k, h, v);
    }
    SumScale(q, Drop(s, k), f, -x, g);
    WeightedSumIsSum(q, s, h);
    WeightedSumIsSum(q, Drop(s, k), v);
  }

  lemma WeightedSumIsSum(q: Modulus, s: seq<nat>, h: nat -> int)
    ensures WeightedSum(q, s, h) == Sum(s, Weighted(q, s, h))
  {
  }

  lemma PeeledTermIsZero(q: Modulus, s: seq<nat>, k: nat, h: nat -> int, v: nat -> int)
    requires k < |s| && HasFactor(s, s[k], h, v)
    ensures Weighted(q, s, h)(s[k]) == 0
  {
    assert s[k] - s[k] == 0 && h(s[k]) == Times(0, v(s[k]));
    hide *;
    WeightedAt(q, s, h, s[k]);
  }

  lemma PeelTerm(q: Modulus, i: nat, s: seq<nat>, k: nat, h: nat -> int, v: nat -> int)
    requires Prime(q) && k < |s| && s[k] != i && i < q && s[k] < q && i in s && HasFactor(s, s[k], h, v)
    ensures Mod(q, Weighted(q, s, h)(i)) == Mod(q, -s[k] * Weighted(q, Drop(s, k), v)(i))
  {
    hide *;
    var w, u, x := Weight(q, i, s), Weight(q, i, Drop(s, k)), s[k] as int;
    WeightOfOther(q, i, s, k);
    WeightedAt(q, s, h, i);
    WeightedAt(q, Drop(s, k), v, i);
    FactorAt(s, s[k], h, v, i);
    CongProduct(q, w * (i - x), -x * u, v(i), v(i));
    Reassociate(w, i - x, v(i));
    Reassociate(-x, u, v(i));
  }

  lemma FactorAt(s: seq<nat>, x: nat, h: nat -> int, v: nat -> int, i: nat)
    requires i in s && HasFactor(s, x, h, v)
    ensures h(i) == (i - x) * v(i)
  {
    TimesIsProduct(i - x, v(i));
    hide Times;
  }

  lemma Reassociate(a: int, b: int, c: int)
    ensures a * b * c == a * (b * c)
  {
  }

  ghost function One(): nat -> int {
    (i: nat) => 1
  }

  /** The Lagrange weights at zero sum to one. */
  lemma {:induction false} WeightsSumToOne(q: Modulus, s: seq<nat>)
    requires Prime(q) && Distinct(s) && InRange(q, s) && s != []
    ensures Mod(q, WeightedSum(q, s, One())) == 1
    decreases |s|
  {
    if |s| == 1 {
      SingleWeight(q, s);
    } else {
      hide *;
      DropKeeps(q, s, 0);
      DropKeeps(q, s, 1);
      WeightsSumToOne(q, Drop(s, 0));
      WeightsSumToOne(q, Drop(s, 1));
      WeightsFromPeels(q, s);
    }
  }

  lemma WeightsFromPeels(q: Modulus, s: seq<nat>)
    requires Prime(q) && Distinct(s) && InRange(q, s) && 2 <= |s|
    requires Mod(q, WeightedSum(q, Drop(s, 0), One())) == 1 == Mod(q, WeightedSum(q, Drop(s, 1), One()))
    ensures Mod(q, WeightedSum(q, s, One())) == 1
  {
    hide *;
    FirstTwoApart(q, s);
    OffsetHasFactor(s, s[0]);
    OffsetHasFactor(s, s[1]);
    PeelSigner(q, s, 0, Offset(s[0]), One());
    PeelSigner(q, s, 1, Offset(s[1]), One());
    CombinePeels(q, s, WeightedSum(q, Drop(s, 0), One()), WeightedSum(q, Drop(s, 1), One()));
  }

  lemma SingleWeight(q: Modulus, s: seq<nat>)
    requires |s| == 1
    ensures Mod(q, WeightedSum(q, s, One())) == 1
  {
    assert s[..0] == [] && s[1..] == [];
    assert Weight(q, s[0], s) == Weight(q, s[0], []) == 1;
    var f := Weighted(q, s, One());
    assert Sum(s, f) == f(s[0]) + Sum(s[1..], f) == 1;
  }

  lemma FirstTwoApart(q: Modulus, s: seq<nat>)
    requires Distinct(s) && InRange(q, s) && 2 <= |s|
    ensures Mod(q, s[1] as int - s[0]) != 0
  {
    assert s[1] != s[0];
  }

  lemma OffsetHasFactor(s: seq<nat>, x: nat)
    ensures HasFactor(s, x, Offset(x), One())
  {
    forall i | i in s ensures Offset(x)(i) == Times(i - x, One()(i)) {
      TimesIsProduct(i - x, 1);
    }
  }

  ghost function Offset(x: int): nat -> int {
    (i: nat) => i - x
  }

  lemma CombinePeels(q: Modulus, s: seq<nat>, w0: int, w1: int)
    requires Prime(q) && 2 <= |s| && Mod(q, s[1] as int - s[0]) != 0
    requires Mod(q, w0) == 1 == Mod(q, w1)
    requires Mod(q, WeightedSum(q, s, Offset(s[0]))) == Mod(q, -Times(s[0], w0))
    requires Mod(q, WeightedSum(q, s, Offset(s[1]))) == Mod(q, -Times(s[1], w1))
    ensures Mod(q, WeightedSum(q, s, One())) == 1
  {
    var x0, x1: int := s[0], s[1];
    ModSmall(q, 1);
    hide *;
    GapOfSums(q, s, x0, x1);
    FromDifference(q, x0, x1, w0, w1, WeightedSum(q, s, Offset(x0)), WeightedSum(q, s, Offset(x1)),
      WeightedSum(q, s, One()));
  }

  lemma GapOfSums(q: Modulus, s: seq<nat>, x0: int, x1: int)
    ensures Mod(q, (x1 - x0) * WeightedSum(q, s, One()) + 0 * WeightedSum(q, s, One()))
         == Mod(q, 1 * WeightedSum(q, s, Offset(x0)) + -1 * WeightedSum(q, s, Offset(x1)))
  {
    var gap: nat -> int := (i: nat) => x1 - x0;
    hide Mod, WeightedSum;
    WeightedSumLinear(q, s, gap, 1, Offset(x0), -1, Offset(x1));
    WeightedSumLinear(q, s, gap, x1 - x0, One(), 0, One());
  }

  lemma DropKeeps(q: Modulus, s: seq<nat>, k: nat)
    requires Distinct(s) && InRange(q, s) && k < |s|
    ensures Distinct(Drop(s, k)) && InRange(q, Drop(s, k))
    ensures forall i | i in Drop(s, k) :: i in s && i != s[k] && i < q
    ensures s[k] < q
  {
  }

  lemma FromDifference(q: Modulus, s0: int, s1: int, w0: int, w1: int, fs: int, gs: int, w: int)
    requires Prime(q) && Mod(q, s1 - s0) != 0
    requires Mod(q, w0) == 1 == Mod(q, w1) == Mod(q, 1)
    requires Mod(q, fs) == Mod(q, -Times(s0, w0)) && Mod(q, gs) == Mod(q, -Times(s1, w1))
    requires Mod(q, (s1 - s0) * w + 0 * w) == Mod(q, 1 * fs + -1 * gs)
    ensures Mod(q, w) == 1
  {
    hide *;
    TimesIsProduct(s0, w0);
    TimesIsProduct(s1, w1);
    CongProduct(q, s0, s0, w0, 1);
    CongProduct(q, s1, s1, w1, 1);
    CongNegate(q, s0 * w0, s0 * 1);
    CongNegate(q, s1 * w1, s1 * 1);
    CongNegate(q, gs, -(s1 * 1));
    CongSum(q, fs, -(s0 * 1), -gs, s1 * 1);
    Cancel(q, s1 - s0, w, 1);
  }

  ghost function ValueAt(cs: seq<int>): nat -> int {
    (i: nat) => Eval(cs, i)
  }

  /** Interpolation at zero: for a polynomial with at most as many coefficients as there are
      signers, the weighted sum of its values at the signers is its constant term. */
  lemma {:induction false} InterpolateAtZero(q: Modulus, s: seq<nat>, cs: seq<int>)
    requires Prime(q) && Distinct(s) && InRange(q, s) && 1 <= |cs| <= |s|
    ensures Mod(q, WeightedSum(q, s, ValueAt(cs))) == Mod(q, cs[0])
    decreases |s|
  {
    hide *;
    if |cs| == 1 {
      InterpolateConstant(q, s, cs);
    } else {
      DropKeeps(q, s, 0);
      QuotientLength(cs, s[0]);
      InterpolateAtZero(q, Drop(s, 0), Quotient(cs, s[0]));
      InterpolateRemainder(q, s, cs);
    }
  }

  lemma QuotientLength(cs: seq<int>, r: int)
    requires cs != []
    ensures |Quotient(cs, r)| == |cs| - 1
  {
  }

  lemma InterpolateConstant(q: Modulus, s: seq<nat>, cs: seq<int>)
    requires Prime(q) && Distinct(s) && InRange(q, s) && 1 == |cs| <= |s|
    ensures Mod(q, WeightedSum(q, s, ValueAt(cs))) == Mod(q, cs[0])
  {
    hide *;
    ModSmall(q, 1);
    WeightsSumToOne(q, s);
    ConstantValues(q, s, cs);
    CongProduct(q, cs[0], cs[0], WeightedSum(q, s, One()), 1);
  }

  lemma ConstantValues(q: Modulus, s: seq<nat>, cs: seq<int>)
    requires |cs| == 1
    ensures Mod(q, WeightedSum(q, s, ValueAt(cs))) == Mod(q, cs[0] * WeightedSum(q, s, One()))
  {
    hide Mod, WeightedSum, Eval;
    forall i: nat ensures ValueAt(cs)(i) == cs[0] * One()(i) + 0 * One()(i) {
      EvalHead(cs, i);
    }
    WeightedSumLinear(q, s, ValueAt(cs), cs[0], One(), 0, One());
  }

  lemma InterpolateRemainder(q: Modulus, s: seq<nat>, cs: seq<int>)
    requires Prime(q) && Distinct(s) && InRange(q, s) && 2 <= |cs| <= |s|
    requires Mod(q, WeightedSum(q, Drop(s, 0), ValueAt(Quotient(cs, s[0])))) == Mod(q, Quotient(cs, s[0])[0])
    ensures Mod(q, WeightedSum(q, s, ValueAt(cs))) == Mod(q, cs[0])
  {
    hide *;
    var x: nat, g := s[0], Quotient(cs, s[0]);
    ModSmall(q, 1);
    WeightsSumToOne(q, s);
    SplitAtRoot(q, s, cs, x);
    TailHasFactor(s, x, g);
    PeelSigner(q, s, 0, Tail(x, g), ValueAt(g));
    ConstantTerm(q, cs, x, WeightedSum(q, s, One()), WeightedSum(q, s, Tail(x, g)),
      WeightedSum(q, Drop(s, 0), ValueAt(g)));
  }

  ghost function Tail(r: int, g: seq<int>): nat -> int {
    (i: nat) => Times(i - r, Eval(g, i))
  }

  lemma TailHasFactor(s: seq<nat>, x: nat, g: seq<int>)
    ensures HasFactor(s, x, Tail(x, g), ValueAt(g))
  {
  }

  lemma SplitAtRoot(q: Modulus, s: seq<nat>, cs: seq<int>, r: int)
    ensures Mod(q, WeightedSum(q, s, ValueAt(cs)))
         == Mod(q, Eval(cs, r) * WeightedSum(q, s, One()) + 1 * WeightedSum(q, s, Tail(r, Quotient(cs, r))))
  {
    hide Mod, WeightedSum, Eval, Times, Quotient;
    forall i: nat ensures ValueAt(cs)(i) == Eval(cs, r) * One()(i) + 1 * Tail(r, Quotient(cs, r))(i) {
      SyntheticDivision(cs, r, i);
      TimesIsProduct(i - r, Eval(Quotient(cs, r), i));
    }
    WeightedSumLinear(q, s, ValueAt(cs), Eval(cs, r), One(), 1, Tail(r, Quotient(cs, r)));
  }

  lemma ConstantTerm(q: Modulus, cs: seq<int>, r: int, ones: int, tails: int, gs: int)
    requires |cs| > 1 && Mod(q, ones) == 1 == Mod(q, 1)
    requires Mod(q, tails) == Mod(q, -Times(r, gs)) && Mod(q, gs) == Mod(q, Quotient(cs, r)[0])
    ensures Mod(q, Eval(cs, r) * ones + 1 * tails) == Mod(q, cs[0])
  {
    var e, g0 := Eval(cs, r), Quotient(cs, r)[0];
    assert cs[0] == e - Times(r, g0);
    hide *;
    TimesIsProduct(r, gs);
    TimesIsProduct(r, g0);
    CongProduct(q, r, r, gs, g0);
    CongNegate(q, r * gs, r * g0);
    CongProduct(q, e, e, ones, 1);
    CongSum(q, e * ones, e * 1, tails, -(r * g0));
  }
}
