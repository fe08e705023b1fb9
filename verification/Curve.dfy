/** The elliptic-curve group: points in affine coordinates, with point addition left abstract.

    A curve y^2 = f(x) over the integers modulo the prime p, whose points form a group of prime order
    q generated by g.  secp256k1, with f(x) = x^3 + 7, is one such curve (its cofactor is 1).  That addition is a
    group operation is the hypothesis Valid; everything else here is proved from it. */
module Curve {
  import opened Wrappers
  import opened Modular

  datatype Point = Infinity | Affine(x: nat, y: nat)

  datatype Curve = Curve(p: Modulus, q: Modulus, f: nat -> int, g: Point, add: (Point, Point) -> Point)

  const TWO_32 := 0x1_0000_0000
  const TWO_256 := 0x1_0000_0000_0000_0000_0000_0000_0000_0000_0000_0000_0000_0000_0000_0000_0000_0000

  predicate OnCurve(c: Curve, pt: Point) {
    match pt
    case Infinity => true
    case Affine(x, y) => x < c.p && y < c.p && Mod(c.p, Times(y, y)) == Mod(c.p, c.f(x))
  }

  function Neg(c: Curve, pt: Point): Point {
    match pt
    case Infinity => Infinity
    case Affine(x, y) => Affine(x, Mod(c.p, 0 - y))
  }

  /** n * pt, by repeated addition. */
  function Mul(c: Curve, n: nat, pt: Point): Point {
    if n == 0 then Infinity else c.add(Mul(c, n - 1, pt), pt)
  }

  /** Markers: a group law below is used for the points that a proof names with one of these, and
      for no others, so that the laws cannot feed on each other's results. */
  ghost predicate At(a: Point) { true }

  ghost predicate At2(a: Point, b: Point) { true }

  ghost predicate At3(a: Point, b: Point, d: Point) { true }

  ghost predicate Closed(c: Curve) {
    forall a, b {:trigger At2(a, b)} :: OnCurve(c, a) && OnCurve(c, b) ==> OnCurve(c, c.add(a, b))
  }

  ghost predicate Associative(c: Curve) {
    forall a, b, d {:trigger At3(a, b, d)} :: OnCurve(c, a) && OnCurve(c, b) && OnCurve(c, d) ==>
      c.add(c.add(a, b), d) == c.add(a, c.add(b, d))
  }

  ghost predicate Commutative(c: Curve) {
    forall a, b {:trigger At2(a, b)} :: OnCurve(c, a) && OnCurve(c, b) ==> c.add(a, b) == c.add(b, a)
  }

  ghost predicate HasIdentityAndInverses(c: Curve) {
    forall a {:trigger At(a)} :: OnCurve(c, a) ==>
      c.add(Infinity, a) == a && OnCurve(c, Neg(c, a)) && c.add(a, Neg(c, a)) == Infinity
  }

  ghost predicate Cyclic(c: Curve) {
    && OnCurve(c, c.g) && c.g != Infinity && Mul(c, c.q, c.g) == Infinity
    && forall a {:trigger At(a)} :: OnCurve(c, a) ==> exists k: nat :: Mul(c, k, c.g) == a
  }

  /** No point has x-coordinate zero: f(0), which is 7 for secp256k1, is not a square modulo p. */
  ghost predicate NoZeroX(c: Curve) {
    forall y: nat {:trigger OnCurve(c, Affine(0, y))} :: !OnCurve(c, Affine(0, y))
  }

  ghost predicate Valid(c: Curve) {
    && Prime(c.p) && c.p % 2 == 1 && c.p < TWO_256
    && Prime(c.q) && TWO_32 < c.q < TWO_256
    && NoZeroX(c) && Closed(c) && Associative(c) && Commutative(c) && HasIdentityAndInverses(c) && Cyclic(c)
  }

  // ----- Group laws -----

  lemma Basics(c: Curve)
    requires Valid(c)
    ensures Prime(c.p) && Prime(c.q) && c.p % 2 == 1 && c.p < TWO_256 && TWO_32 < c.q < TWO_256
    ensures 2 < c.q && OnCurve(c, Infinity) && OnCurve(c, c.g) && c.g != Infinity && Mul(c, c.q, c.g) == Infinity
  {
    hide Prime, Closed, Associative, Commutative, HasIdentityAndInverses, Mul;
  }

  lemma AddOnCurve(c: Curve, a: Point, b: Point)
    requires Valid(c) && OnCurve(c, a) && OnCurve(c, b)
    ensures OnCurve(c, c.add(a, b)) && c.add(a, b) == c.add(b, a)
  {
    hide OnCurve, Prime, Mod;
    assert At2(a, b);
  }

  lemma AddAssociative(c: Curve, a: Point, b: Point, d: Point)
    requires Valid(c) && OnCurve(c, a) && OnCurve(c, b) && OnCurve(c, d)
    ensures c.add(c.add(a, b), d) == c.add(a, c.add(b, d))
  {
    hide OnCurve, Prime, Mod;
    assert At3(a, b, d);
  }

  lemma AddInfinity(c: Curve, a: Point)
    requires Valid(c) && OnCurve(c, a)
    ensures c.add(Infinity, a) == a == c.add(a, Infinity)
  {
    assert OnCurve(c, Infinity);
    hide OnCurve, Prime, Mod;
    assert At(a) && At2(Infinity, a);
  }

  lemma AddNeg(c: Curve, a: Point)
    requires Valid(c) && OnCurve(c, a)
    ensures OnCurve(c, Neg(c, a)) && c.add(a, Neg(c, a)) == Infinity == c.add(Neg(c, a), a)
  {
    hide OnCurve, Prime, Mod, Neg;
    assert At(a) && At2(a, Neg(c, a));
  }

  lemma {:induction false} MulOnCurve(c: Curve, n: nat, a: Point)
    requires Valid(c) && OnCurve(c, a)
    ensures OnCurve(c, Mul(c, n, a))
  {
    hide Valid;
    if n > 0 {
      MulOnCurve(c, n - 1, a);
      AddOnCurve(c, Mul(c, n - 1, a), a);
    }
  }

  lemma {:induction false} MulAdd(c: Curve, m: nat, n: nat, a: Point)
    requires Valid(c) && OnCurve(c, a)
    ensures c.add(Mul(c, m, a), Mul(c, n, a)) == Mul(c, m + n, a)
  {
    hide Valid, OnCurve;
    MulOnCurve(c, m, a);
    if n == 0 {
      AddInfinity(c, Mul(c, m, a));
    } else {
      MulOnCurve(c, n - 1, a);
      MulAdd(c, m, n - 1, a);
      AddAssociative(c, Mul(c, m, a), Mul(c, n - 1, a), a);
    }
  }

  lemma {:induction false} MulMul(c: Curve, m: nat, n: nat, a: Point)
    requires Valid(c) && OnCurve(c, a)
    ensures m * n >= 0 && Mul(c, m, Mul(c, n, a)) == Mul(c, m * n, a)
  {
    hide Valid, OnCurve;
    if m > 0 {
      MulMul(c, m - 1, n, a);
      MulAdd(c, (m - 1) * n, n, a);
      assert (m - 1) * n + n == m * n;
    }
  }

  lemma {:induction false} MulInfinity(c: Curve, n: nat)
    requires Valid(c)
    ensures Mul(c, n, Infinity) == Infinity
  {
    hide Valid, OnCurve, Prime;
    Basics(c);
    if n > 0 {
      MulInfinity(c, n - 1);
      AddInfinity(c, Infinity);
    }
  }

  // ----- Multiples of the generator -----

  /** k * g, for any integer k. */
  function Gen(c: Curve, k: int): Point {
    Mul(c, Mod(c.q, k), c.g)
  }

  lemma GenOnCurve(c: Curve, k: int)
    requires Valid(c)
    ensures OnCurve(c, Gen(c, k))
  {
    MulOnCurve(c, Mod(c.q, k), c.g);
  }

  lemma GenMod(c: Curve, j: int, k: int)
    requires Mod(c.q, j) == Mod(c.q, k)
    ensures Gen(c, j) == Gen(c, k)
  {
    hide Mod;
  }

  lemma GenIs(c: Curve, k: int)
    ensures Gen(c, k) == Mul(c, Mod(c.q, k), c.g)
  {
    hide Mul, Mod;
  }

  lemma NonNegativeQuotient(q: Modulus, n: nat, r: int, k: int)
    requires n == r + k * q && 0 <= r < q
    ensures k >= 0
  {
    if k < 0 { MulAtLeast(-k, q); }
  }

  lemma MultipleOfOrder(c: Curve, k: nat)
    requires Valid(c)
    ensures k * c.q >= 0 && Mul(c, k * c.q, c.g) == Infinity
  {
    hide *;
    Basics(c);
    MulMul(c, k, c.q, c.g);
    MulInfinity(c, k);
  }

  lemma MulOfGenerator(c: Curve, n: nat)
    requires Valid(c)
    ensures Mul(c, n, c.g) == Gen(c, n)
  {
    hide *;
    Basics(c);
    var k := ModQuotient(c.q, n);
    NonNegativeQuotient(c.q, n, Mod(c.q, n), k);
    MultipleOfOrder(c, k);
    MulAdd(c, Mod(c.q, n), k * c.q, c.g);
    MulOnCurve(c, Mod(c.q, n), c.g);
    AddInfinity(c, Mul(c, Mod(c.q, n), c.g));
    GenIs(c, n);
  }

  lemma GenAdd(c: Curve, j: int, k: int)
    requires Valid(c)
    ensures c.add(Gen(c, j), Gen(c, k)) == Gen(c, j + k)
  {
    hide Valid, OnCurve, Mod, Mul, Prime;
    var a, b := Mod(c.q, j), Mod(c.q, k);
    Basics(c);
    MulAdd(c, a, b, c.g);
    MulOfGenerator(c, a + b);
    ModSum(c.q, j, k);
  }

  lemma GenMul(c: Curve, s: nat, k: int)
    requires Valid(c)
    ensures Mul(c, s, Gen(c, k)) == Gen(c, s * k)
  {
    hide Valid, OnCurve, Mod, Mul, Prime;
    var a := Mod(c.q, k);
    Basics(c);
    MulMul(c, s, a, c.g);
    MulOfGenerator(c, s * a);
    ModProduct(c.q, s, k);
  }

  lemma GenZero(c: Curve, k: int)
    requires Valid(c)
    ensures Gen(c, k) == Infinity <==> Mod(c.q, k) == 0
  {
    hide Valid, Prime;
    if Mod(c.q, k) != 0 {
      var i := Inverse(c.q, k);
      Basics(c);
      InverseCorrect(c.q, k);
      assert Mul(c, 1, c.g) == c.g by {
        assert Mul(c, 0, c.g) == Infinity;
        AddInfinity(c, c.g);
      }
      hide Mod, Inverse;
      GenMul(c, i, k);
      MulInfinity(c, i);
      CommuteProduct(i, k);
    }
  }

  lemma CommuteProduct(a: int, b: int)
    ensures a * b == b * a
  {
  }

  lemma GenNeg(c: Curve, k: int)
    requires Valid(c)
    ensures Neg(c, Gen(c, k)) == Gen(c, -k)
  {
    hide *;
    ModSmall(c.q, 0);
    GenOnCurve(c, k);
    GenOnCurve(c, -k);
    GenAdd(c, -k, k);
    GenZero(c, -k + k);
    var a, b, n := Gen(c, k), Gen(c, -k), Neg(c, Gen(c, k));
    AddNeg(c, a);
    AddAssociative(c, b, a, n);
    AddInfinity(c, b);
    AddInfinity(c, n);
  }

  lemma GenInjective(c: Curve, j: int, k: int)
    requires Valid(c)
    ensures Gen(c, j) == Gen(c, k) <==> Mod(c.q, j) == Mod(c.q, k)
  {
    hide Valid, Mod;
    if Gen(c, j) == Gen(c, k) {
      GenAdd(c, j, -k);
      GenAdd(c, k, -k);
      GenZero(c, j - k);
      GenZero(c, k - k);
      CongDifference(c.q, k, k);
      CongDifference(c.q, j, k);
    }
  }

  /** The discrete logarithm: it exists, and no member of the model that stands for code computes it. */
  ghost function Log(c: Curve, pt: Point): (k: int)
    ensures 0 <= k < c.q
  {
    if exists n: nat :: Mul(c, n, c.g) == pt then
      var n: nat :| Mul(c, n, c.g) == pt;
      Mod(c.q, n)
    else 0
  }

  lemma LogCorrect(c: Curve, pt: Point)
    requires Valid(c) && OnCurve(c, pt)
    ensures Gen(c, Log(c, pt)) == pt
  {
    hide Valid, Mod, OnCurve, Mul;
    IsMultiple(c, pt);
    var n: nat :| Mul(c, n, c.g) == pt && Log(c, pt) == Mod(c.q, n);
    MulOfGenerator(c, n);
    ModMod(c.q, n);
  }

  lemma IsMultiple(c: Curve, pt: Point)
    requires Valid(c) && OnCurve(c, pt)
    ensures exists n: nat :: Mul(c, n, c.g) == pt
  {
    hide Prime, Closed, Associative, Commutative, HasIdentityAndInverses, Mul, OnCurve;
    assert At(pt);
  }

  // ----- Coordinates -----

  /** The x-coordinate as the library serialises it; the identity's affine coordinates are zero. */
  function XOf(pt: Point): nat {
    match pt case Infinity => 0 case Affine(x, _) => x
  }

  predicate IsOdd(pt: Point) {
    match pt case Infinity => false case Affine(_, y) => y % 2 == 1
  }

  /** The negated point is the other one on the curve's vertical line. */
  lemma NegCoordinates(c: Curve, x: nat, y: nat)
    requires y < c.p
    ensures Neg(c, Affine(x, y)) == Affine(x, if y == 0 then 0 else c.p - y)
  {
    ModStep(c.p, 0 - y);
    ModSmall(c.p, if y == 0 then 0 else c.p - y);
  }

  /** The point with the same x and an even y. */
  function EvenY(c: Curve, pt: Point): (r: Point)
    ensures XOf(r) == XOf(pt)
  {
    if IsOdd(pt) then Neg(c, pt) else pt
  }

  lemma DoubleIsNotInfinity(c: Curve, pt: Point)
    requires Valid(c) && OnCurve(c, pt) && pt != Infinity
    ensures Neg(c, pt) != pt
  {
    hide *;
    Basics(c);
    ModSmall(c.q, 2);
    var k := Log(c, pt);
    LogCorrect(c, pt);
    AddNeg(c, pt);
    GenAdd(c, k, k);
    GenZero(c, 2 * k);
    GenZero(c, k);
    if Neg(c, pt) == pt {
      NoZeroDivisors(c.q, 2, k);
    }
  }

  lemma NegatedCoordinate(p: Modulus, y: int)
    requires 0 <= y < p && p % 2 == 1
    ensures y == 0 ==> Mod(p, -y) == y
    ensures y != 0 ==> Mod(p, -y) == p - y && Mod(p, -(p - y)) == y && (p - y) % 2 != y % 2
  {
  }

  lemma ParityFlips(c: Curve, pt: Point)
    requires Valid(c) && OnCurve(c, pt) && pt != Infinity
    ensures IsOdd(Neg(c, pt)) == !IsOdd(pt)
    ensures Neg(c, Neg(c, pt)) == pt
  {
    hide Valid, Prime;
    DoubleIsNotInfinity(c, pt);
    Basics(c);
    NegatedCoordinate(c.p, pt.y);
  }

  lemma EvenYIsEven(c: Curve, pt: Point)
    requires Valid(c) && OnCurve(c, pt)
    ensures OnCurve(c, EvenY(c, pt)) && !IsOdd(EvenY(c, pt)) && XOf(EvenY(c, pt)) == XOf(pt)
    ensures EvenY(c, pt) == Infinity <==> pt == Infinity
    ensures pt != Infinity ==> EvenY(c, pt).y % 2 == 0
  {
    AddNeg(c, pt);
    if pt != Infinity { ParityFlips(c, pt); }
  }

  lemma EqualSquares(p: Modulus, y: int, z: int)
    requires Prime(p) && Mod(p, y * y) == Mod(p, z * z)
    ensures Mod(p, z) == Mod(p, y) || Mod(p, z) == Mod(p, -y)
  {
    hide *;
    CongDifference(p, y * y, z * z);
    assert y * y - z * z == (y - z) * (y + z);
    NoZeroDivisors(p, y - z, y + z);
    CongDifference(p, y, z);
    CongDifference(p, z, -y);
  }

  /** Points with the same x-coordinate are equal or opposite, because p is prime. */
  lemma SameX(c: Curve, a: Point, b: Point)
    requires Valid(c) && OnCurve(c, a) && OnCurve(c, b)
    requires a != Infinity && b != Infinity && a.x == b.x
    ensures b == a || b == Neg(c, a)
  {
    TimesIsProduct(a.y, a.y);
    TimesIsProduct(b.y, b.y);
    hide Valid, Prime, Mod;
    Basics(c);
    ModSmall(c.p, a.y);
    ModSmall(c.p, b.y);
    EqualSquares(c.p, a.y, b.y);
  }

  lemma SameXAndParity(c: Curve, a: Point, b: Point)
    requires Valid(c) && OnCurve(c, a) && OnCurve(c, b)
    requires a != Infinity && b != Infinity && a.x == b.x && IsOdd(a) == IsOdd(b)
    ensures a == b
  {
    SameX(c, a, b);
    ParityFlips(c, a);
  }

  /** The point with this x-coordinate and parity of y, if there is one: what the library's
      ParsePubKey recovers from a compressed key.  The search starts at y. */
  function Decompress(c: Curve, x: nat, odd: bool, y: nat): (r: Option<Point>)
    ensures r.Some? ==> OnCurve(c, r.value) && r.value.Affine? && r.value.x == x && IsOdd(r.value) == odd
    ensures r.None? ==> forall z | y <= z < c.p && OnCurve(c, Affine(x, z)) :: (z % 2 == 1) != odd
    decreases c.p - y
  {
    if y >= c.p then None
    else if OnCurve(c, Affine(x, y)) && (y % 2 == 1) == odd then Some(Affine(x, y))
    else Decompress(c, x, odd, y + 1)
  }

  /** Point to public key and back through the compressed form: it fails on the identity only. */
  function ToPublicKey(c: Curve, pt: Point): Option<Point> {
    Decompress(c, XOf(pt), IsOdd(pt), 0)
  }

  lemma PublicKeyRoundTrip(c: Curve, pt: Point)
    requires Valid(c) && OnCurve(c, pt)
    ensures ToPublicKey(c, pt) == if pt == Infinity then None else Some(pt)
  {
    hide Valid, Mod, OnCurve, Neg, Decompress;
    match pt
    case Infinity => NoPointAtZero(c, false, 0);
    case Affine(x, y) =>
      InCoordinateRange(c, pt);
      var r := Decompress(c, x, IsOdd(pt), 0);
      if r.Some? { SameXAndParity(c, r.value, pt); }
  }

  lemma InCoordinateRange(c: Curve, pt: Point)
    requires OnCurve(c, pt) && pt != Infinity
    ensures pt.x < c.p && pt.y < c.p
  {
  }

  lemma {:induction false} NoPointAtZero(c: Curve, odd: bool, y: nat)
    requires Valid(c)
    ensures Decompress(c, 0, odd, y) == None
    decreases c.p - y
  {
    assert !OnCurve(c, Affine(0, y)) by { hide Prime, OnCurve; }
    hide Valid, OnCurve;
    if y < c.p { NoPointAtZero(c, odd, y + 1); }
  }

  /** BIP-340's lift_x: the point with this x and an even y. */
  function LiftX(c: Curve, x: nat): Option<Point> {
    Decompress(c, x, false, 0)
  }

  lemma LiftXOfPoint(c: Curve, pt: Point)
    requires Valid(c) && OnCurve(c, pt)
    ensures LiftX(c, XOf(pt)) == if pt == Infinity then None else Some(EvenY(c, pt))
  {
    hide OnCurve, Valid, Decompress, Neg;
    EvenYIsEven(c, pt);
    PublicKeyRoundTrip(c, EvenY(c, pt));
  }
}
