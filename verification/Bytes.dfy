/** Big-endian byte strings, as scalars and coordinates are stored. */
module Bytes {
  import opened Modular
  import opened Curve

  type byte = b: nat | b < 256
  type Bytes = seq<byte>

  function Pow256(n: nat): (r: nat)
    ensures r > 0
  {
    if n == 0 then 1 else 256 * Pow256(n - 1)
  }

  /** The buffer overwritten with the lowest bytes of v, most significant first. */
  function PutBytes(v: nat, buffer: Bytes): (bs: Bytes)
    ensures |bs| == |buffer|
    decreases |buffer|
  {
    if buffer == [] then [] else PutBytes(v / 256, buffer[..|buffer| - 1]) + [v % 256]
  }

  /** The 32 bytes a scalar or a coordinate is stored as. */
  function Word(v: nat): (w: Bytes)
    ensures |w| == 32
  {
    PutBytes(v, seq(32, _ => 0))
  }

  function FromBytes(bs: Bytes): nat {
    if bs == [] then 0 else FromBytes(bs[..|bs| - 1]) * 256 + bs[|bs| - 1]
  }

  lemma {:induction false} BytesRoundTrip(v: nat, buffer: Bytes)
    requires v < Pow256(|buffer|)
    ensures FromBytes(PutBytes(v, buffer)) == v
    decreases |buffer|
  {
    if buffer != [] {
      var front := buffer[..|buffer| - 1];
      BytesRoundTrip(v / 256, front);
      var bs := PutBytes(v, buffer);
      assert bs[..|bs| - 1] == PutBytes(v / 256, front);
    }
  }

  /** Byte k of the buffer is the digit of v that counts for 256 to the number of bytes after it. */
  lemma {:induction false} ByteAt(v: nat, buffer: Bytes, k: nat)
    requires k < |buffer|
    ensures PutBytes(v, buffer)[k] == v / Pow256(|buffer| - 1 - k) % 256
    decreases |buffer|
  {
    var n := |buffer| - 1;
    if k < n {
      ByteAt(v / 256, buffer[..n], k);
      DivideTwice(v, Pow256(n - 1 - k));
    }
  }

  lemma DivideTwice(v: nat, p: nat)
    requires p > 0
    ensures v / 256 / p == v / (256 * p)
  {
    var q := v / 256 / p;
    var r := v / 256 - q * p;
    assert v == 256 * (q * p + r) + v % 256;
    assert 256 * (q * p) == q * (256 * p);
    QuotientIs(v, 256 * p, q, 256 * r + v % 256);
  }

  lemma QuotientIs(v: nat, d: nat, q: nat, r: nat)
    requires d > 0 && r < d && v == q * d + r
    ensures v / d == q
  {
    var m := v / d - q;
    assert m * d == v / d * d - q * d;
    assert 0 - d < m * d < d;
    if m >= 1 {
      MulAtLeast(m, d);
    } else if m <= -1 {
      assert -m * d == 0 - m * d;
      MulAtLeast(-m, d);
    }
  }

  /** A word is big-endian. */
  lemma WordIsBigEndian(v: nat, k: nat)
    requires k < 32
    ensures Word(v)[k] == v / Pow256(31 - k) % 256
  {
    ByteAt(v, seq(32, _ => 0), k);
  }

  /** Different byte strings of one length are different numbers. */
  lemma {:induction false} FromBytesInjective(a: Bytes, b: Bytes)
    requires |a| == |b| && FromBytes(a) == FromBytes(b)
    ensures a == b
  {
    if a != [] {
      var n := |a| - 1;
      FromBytesInjective(a[..n], b[..n]);
      assert a == a[..n] + [a[n]] && b == b[..n] + [b[n]];
    }
  }

  lemma Pow256Of32()
    ensures Pow256(32) == TWO_256
  {
    assert Pow256(8) == 0x1_0000_0000_0000_0000;
    assert Pow256(16) == 0x1_0000_0000_0000_0000_0000_0000_0000_0000;
    assert Pow256(24) == 0x1_0000_0000_0000_0000_0000_0000_0000_0000_0000_0000_0000_0000;
  }

  /** Scalars and coordinates fit in 32 bytes and are read back unchanged. */
  lemma WordRoundTrip(v: nat)
    requires v < TWO_256
    ensures FromBytes(Word(v)) == v
  {
    Pow256Of32();
    BytesRoundTrip(v, seq(32, _ => 0));
  }
}
