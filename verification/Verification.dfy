/** What BIP-340 verification accepts: exactly the solutions of its equation, so that a signature is
    bound to its nonce point, its key and its message. */
module Verification {
  import opened Wrappers
  import opened Modular
  import opened Curve
  import opened Bytes
  import opened Signing

  /** The equation of BIP-340, s * G == R + e * P, for some points R and P with even y, with the given
      x-coordinates. */
  ghost predicate Equation(c: Curve, x: nat, keyX: nat, e: nat, s: nat) {
    exists r, p :: IsEvenPoint(c, r, x) && IsEvenPoint(c, p, keyX) && Mul(c, s, c.g) == c.add(r, Mul(c, e, p))
  }

  ghost predicate IsEvenPoint(c: Curve, pt: Point, x: nat) {
    OnCurve(c, pt) && pt.Affine? && pt.x == x && pt.y % 2 == 0
  }

  lemma EvenPointIsUnique(c: Curve, a: Point, b: Point, x: nat)
    requires Valid(c) && IsEvenPoint(c, a, x) && IsEvenPoint(c, b, x)
    ensures a == b
  {
    hide Valid, OnCurve;
    SameXAndParity(c, a, b);
  }

  lemma LiftXIsEvenPoint(c: Curve, key: Point)
    requires Valid(c) && OnCurve(c, key)
    ensures key == Infinity ==> LiftX(c, XOf(key)) == None
    ensures key != Infinity ==> LiftX(c, XOf(key)) == Some(EvenY(c, key)) && IsEvenPoint(c, EvenY(c, key), key.x)
    ensures XOf(EvenY(c, key)) == XOf(key) && (key != Infinity ==> XOf(key) == key.x)
  {
    hide Valid, OnCurve, LiftX, EvenY;
    LiftXOfPoint(c, key);
    EvenYIsEven(c, key);
  }

  /** The digest need not be reduced: points have order q. */
  lemma MulReduced(c: Curve, n: nat, pt: Point)
    requires Valid(c) && OnCurve(c, pt)
    ensures Mul(c, Mod(c.q, n), pt) == Mul(c, n, pt)
  {
    hide *;
    var k := Log(c, pt);
    LogCorrect(c, pt);
    GenMul(c, n, k);
    GenMul(c, Mod(c.q, n), k);
    ModProduct(c.q, n, k);
    GenMod(c, Mod(c.q, n) * k, n * k);
  }

  /** a == r + b exactly when r == a - b. */
  lemma Subtract(c: Curve, a: Point, r: Point, b: Point)
    requires Valid(c) && OnCurve(c, a) && OnCurve(c, b)
    ensures OnCurve(c, c.add(a, Neg(c, b)))
    ensures OnCurve(c, r) ==> (a == c.add(r, b) <==> r == c.add(a, Neg(c, b)))
  {
    hide *;
    var n := Neg(c, b);
    AddNeg(c, b);
    AddOnCurve(c, a, n);
    AddAssociative(c, a, n, b);
    AddInfinity(c, a);
    if OnCurve(c, r) {
      AddAssociative(c, r, b, n);
      AddInfinity(c, r);
    }
  }

  /** Verification accepts exactly the 64 bytes that hold the x-coordinate of an even-y point R and a
      reduced s with s * G == R + e * P, P being the even-y point of the key and e the hash of both
      x-coordinates and the message. */
  lemma VerifiesExactly(c: Curve, h: Hashes, key: Point, message: Message, sig: Bytes)
    requires Valid(c) && OnCurve(c, key)
    ensures VerifySchnorr(c, h, key, message, sig) <==>
      && |sig| == 64 && key != Infinity && FromBytes(sig[32..]) < c.q
      && Equation(c, FromBytes(sig[..32]), key.x, h.challenge(FromBytes(sig[..32]), key.x, message),
           FromBytes(sig[32..]))
  {
    hide *;
    LiftXIsEvenPoint(c, key);
    if |sig| == 64 && key != Infinity {
      var x, s := FromBytes(sig[..32]), FromBytes(sig[32..]);
      VerifyUnfolds(c, h, key, message, sig, x, s);
      EquationUnfolds(c, x, key, h.challenge(x, key.x, message), s);
    } else {
      NothingVerifies(c, h, key, message, sig);
    }
  }

  lemma NothingVerifies(c: Curve, h: Hashes, key: Point, message: Message, sig: Bytes)
    requires |sig| != 64 || LiftX(c, XOf(key)) == None
    ensures !VerifySchnorr(c, h, key, message, sig)
  {
    hide LiftX, FromBytes;
  }

  lemma VerifyUnfolds(c: Curve, h: Hashes, key: Point, message: Message, sig: Bytes, x: nat, s: nat)
    requires key != Infinity && LiftX(c, XOf(key)) == Some(EvenY(c, key)) && XOf(EvenY(c, key)) == key.x
    requires |sig| == 64 && x == FromBytes(sig[..32]) && s == FromBytes(sig[32..])
    ensures var e := Mod(c.q, h.challenge(x, key.x, message));
      var r := c.add(Mul(c, s, c.g), Neg(c, Mul(c, e, EvenY(c, key))));
      VerifySchnorr(c, h, key, message, sig) <==> s < c.q && x < c.p && r.Affine? && r.x == x && r.y % 2 == 0
  {
    hide LiftX, FromBytes, EvenY, Mul, Mod, Neg;
  }

  lemma EquationUnfolds(c: Curve, x: nat, key: Point, e: nat, s: nat)
    requires Valid(c) && OnCurve(c, key) && key != Infinity && IsEvenPoint(c, EvenY(c, key), key.x)
    ensures var r := c.add(Mul(c, s, c.g), Neg(c, Mul(c, Mod(c.q, e), EvenY(c, key))));
      Equation(c, x, key.x, e, s) <==> x < c.p && r.Affine? && r.x == x && r.y % 2 == 0
  {
    hide Valid, OnCurve, EvenY, Mul, Mod, Neg;
    Basics(c);
    var p := EvenY(c, key);
    var a, b := Mul(c, s, c.g), Mul(c, e, p);
    MulOnCurve(c, s, c.g);
    MulOnCurve(c, e, p);
    MulReduced(c, e, p);
    var r := c.add(a, Neg(c, b));
    Subtract(c, a, r, b);
    if Equation(c, x, key.x, e, s) {
      var r', p' :| IsEvenPoint(c, r', x) && IsEvenPoint(c, p', key.x) && a == c.add(r', Mul(c, e, p'));
      EvenPointIsUnique(c, p, p', key.x);
      Subtract(c, a, r', b);
      InCoordinateRange(c, r);
    }
    if x < c.p && r.Affine? && r.x == x && r.y % 2 == 0 {
      assert IsEvenPoint(c, r, x);
    }
  }

  /** Under one key, for one message, there is one signature with a given R. */
  lemma SignatureIsUnique(c: Curve, h: Hashes, key: Point, message: Message, sig: Bytes, other: Bytes)
    requires Valid(c) && OnCurve(c, key) && |sig| == |other| == 64 && sig[..32] == other[..32]
    requires VerifySchnorr(c, h, key, message, sig) && VerifySchnorr(c, h, key, message, other)
    ensures sig == other
  {
    hide Valid, OnCurve, VerifySchnorr, FromBytes, Mul, IsEvenPoint, Mod;
    VerifiesExactly(c, h, key, message, sig);
    VerifiesExactly(c, h, key, message, other);
    var x, s, s' := FromBytes(sig[..32]), FromBytes(sig[32..]), FromBytes(other[32..]);
    var e := h.challenge(x, key.x, message);
    var r, p :| IsEvenPoint(c, r, x) && IsEvenPoint(c, p, key.x) && Mul(c, s, c.g) == c.add(r, Mul(c, e, p));
    var r', p' :| IsEvenPoint(c, r', x) && IsEvenPoint(c, p', key.x) && Mul(c, s', c.g) == c.add(r', Mul(c, e, p'));
    EvenPointIsUnique(c, r, r', x);
    EvenPointIsUnique(c, p, p', key.x);
    SameMultiple(c, s, s');
    FromBytesInjective(sig[32..], other[32..]);
    assert sig == sig[..32] + sig[32..] && other == other[..32] + other[32..];
  }

  lemma SameMultiple(c: Curve, s: nat, s': nat)
    requires Valid(c) && s < c.q && s' < c.q && Mul(c, s, c.g) == Mul(c, s', c.g)
    ensures s == s'
  {
    hide *;
    MulOfGenerator(c, s);
    MulOfGenerator(c, s');
    GenInjective(c, s, s');
    ModSmall(c.q, s);
    ModSmall(c.q, s');
  }

  /** A signature is for the message it was made for, up to a collision of the challenge hash. */
  lemma SignatureBindsMessage(c: Curve, h: Hashes, key: Point, m: Message, n: Message, sig: Bytes)
    requires Valid(c) && OnCurve(c, key) && |sig| == 64
    requires VerifySchnorr(c, h, key, m, sig) && VerifySchnorr(c, h, key, n, sig)
    ensures key != Infinity
    ensures Mod(c.q, h.challenge(FromBytes(sig[..32]), key.x, m))
         == Mod(c.q, h.challenge(FromBytes(sig[..32]), key.x, n))
  {
    hide Valid, OnCurve, VerifySchnorr, FromBytes, Mul, IsEvenPoint, Mod;
    VerifiesExactly(c, h, key, m, sig);
    VerifiesExactly(c, h, key, n, sig);
    var x, s := FromBytes(sig[..32]), FromBytes(sig[32..]);
    var e, e' := h.challenge(x, key.x, m), h.challenge(x, key.x, n);
    var r, p :| IsEvenPoint(c, r, x) && IsEvenPoint(c, p, key.x) && Mul(c, s, c.g) == c.add(r, Mul(c, e, p));
    var r', p' :| IsEvenPoint(c, r', x) && IsEvenPoint(c, p', key.x) && Mul(c, s, c.g) == c.add(r', Mul(c, e', p'));
    EvenPointIsUnique(c, r, r', x);
    EvenPointIsUnique(c, p, p', key.x);
    SameFactor(c, r, p, x, key.x, e, e');
  }

  lemma SameFactor(c: Curve, r: Point, p: Point, x: nat, keyX: nat, e: nat, e': nat)
    requires Valid(c) && IsEvenPoint(c, r, x) && IsEvenPoint(c, p, keyX)
    requires c.add(r, Mul(c, e, p)) == c.add(r, Mul(c, e', p))
    ensures Mod(c.q, e) == Mod(c.q, e')
  {
    hide Valid, OnCurve, Mul, Mod, Gen;
    Basics(c);
    ModSmall(c.q, 0);
    var a, k := Log(c, r), Log(c, p);
    LogCorrect(c, r);
    LogCorrect(c, p);
    hide Log;
    GenZero(c, k);
    GenMul(c, e, k);
    GenMul(c, e', k);
    GenAdd(c, a, e * k);
    GenAdd(c, a, e' * k);
    GenInjective(c, a + e * k, a + e' * k);
    CongSum(c.q, a + e * k, a + e' * k, -a, -a);
    assert a + e * k + -a == k * e && a + e' * k + -a == k * e';
    Cancel(c.q, k, e, e');
  }
}
