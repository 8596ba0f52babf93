/**
  The key hash both sides of the system derive from SHA-1 (section 6.1 of
  FIPS 180-4): the first 8 digest bytes read as a big-endian unsigned
  64-bit integer. SHA-1 itself is not modelled; it is a parameter that maps
  a string to a 20-byte digest.
 */
module Hashing {
  import opened Util

  /** A SHA-1 digest. */
  type Digest = d: seq<byte> | |d| == 20 witness seq(20, _ => 0)

  function Pow256(n: nat): (p: nat)
    ensures p > 0
  {
    if n == 0 then 1 else 256 * Pow256(n - 1)
  }

  /** Big-endian value of a byte string, most significant byte first. */
  function BigEndian(b: seq<byte>): (v: nat)
    ensures v < Pow256(|b|)
  {
    if b == [] then 0 else BigEndian(b[..|b| - 1]) * 256 + b[|b| - 1]
  }

  /** The `n`-byte big-endian encoding of `v`, reduced modulo 256^n. */
  function ToBigEndian(v: nat, n: nat): (b: seq<byte>)
    ensures |b| == n
  {
    if n == 0 then [] else ToBigEndian(v / 256, n - 1) + [v % 256]
  }

  lemma {:induction false} BigEndianRoundTrip(b: seq<byte>)
    ensures ToBigEndian(BigEndian(b), |b|) == b
  {
    if b != [] {
      var init := b[..|b| - 1];
      BigEndianRoundTrip(init);
      assert (BigEndian(init) * 256 + b[|b| - 1]) / 256 == BigEndian(init);
      assert b == init + [b[|b| - 1]];
    }
  }

  lemma {:induction false} ToBigEndianRoundTrip(v: nat, n: nat)
    requires v < Pow256(n)
    ensures BigEndian(ToBigEndian(v, n)) == v
  {
    if n > 0 {
      var b := ToBigEndian(v, n);
      assert b[..|b| - 1] == ToBigEndian(v / 256, n - 1);
      ToBigEndianRoundTrip(v / 256, n - 1);
    }
  }

  /** Reading `a + c` big-endian shifts `a` past the bytes of `c`. */
  lemma {:induction false} BigEndianConcat(a: seq<byte>, c: seq<byte>)
    ensures BigEndian(a + c) == BigEndian(a) * Pow256(|c|) + BigEndian(c)
  {
    if c != [] {
      var c' := c[..|c| - 1];
      var x := c[|c| - 1];
      assert (a + c)[..|a + c| - 1] == a + c';
      BigEndianConcat(a, c');
      var hi := BigEndian(a);
      var p := Pow256(|c'|);
      assert c[..|c| - 1] == c';
      assert Pow256(|c|) == p * 256;
      calc {
        BigEndian(a + c);
        BigEndian(a + c') * 256 + x;
        (hi * p + BigEndian(c')) * 256 + x;
        { MulDistrib(hi * p, BigEndian(c'), 256); }
        (hi * p) * 256 + BigEndian(c') * 256 + x;
        { MulAssoc(hi, p, 256); }
        hi * (p * 256) + (BigEndian(c') * 256 + x);
      }
    } else {
      assert a + c == a;
    }
  }

  lemma MulAssoc(a: int, b: int, c: int)
    ensures (a * b) * c == a * (b * c)
  {
  }

  lemma MulDistrib(a: int, b: int, c: int)
    ensures (a + b) * c == a * c + b * c
  {
  }

  lemma MulAtLeast(d: int, m: int)
    requires d >= 1 && m > 0
    ensures d * m >= m
  {
    MulDistrib(d - 1, 1, m);
  }

  lemma DivModUnique(x: int, m: int, q: int, r: int)
    requires m > 0 && 0 <= r < m && x == q * m + r
    ensures x % m == r
  {
    var q', r' := x / m, x % m;
    assert x == q' * m + r';
    if q' > q {
      MulDistrib(q' - q, q, m);
      MulAtLeast(q' - q, m);
    } else if q' < q {
      MulDistrib(q - q', q', m);
      MulAtLeast(q - q', m);
    }
  }

  /** The server's `hashKey`: the first 8 digest bytes, big-endian. */
  function HashKey(sha1: string -> Digest, s: string): (h: uint64)
    ensures h == BigEndian(sha1(s)[..8])
  {
    assert Pow256(8) == 0x1_0000_0000_0000_0000;
    BigEndian(sha1(s)[..8])
  }

  /** The client's default hash space, `NEXT_PUBLIC_HASH_SPACE_SIZE` when unset. */
  const DefaultHashSpaceSize := 65536

  /**
    The client's `hashKey`: the server's hash reduced modulo the hash space
    with BigInt arithmetic. A space of 0 makes the division throw (`None`);
    a negative space reduces modulo its magnitude, since the dividend is
    not negative.
   */
  function ClientHashKey(sha1: string -> Digest, s: string, space: int): (r: Option<nat>)
    ensures r.None? <==> space == 0
    ensures r.Some? ==> r.value < if space < 0 then -space else space
  {
    if space == 0 then None
    else
      var m := if space < 0 then -space else space;
      Some(HashKey(sha1, s) % m)
  }

  /** With the default space, the client hash is the seventh and eighth digest bytes, big-endian. */
  lemma ClientHashKeyDefault(sha1: string -> Digest, s: string)
    ensures ClientHashKey(sha1, s, DefaultHashSpaceSize) == Some(BigEndian(sha1(s)[6..8]))
  {
    var d := sha1(s);
    assert d[..8] == d[..6] + d[6..8];
    BigEndianConcat(d[..6], d[6..8]);
    assert Pow256(2) == DefaultHashSpaceSize;
    DivModUnique(BigEndian(d[..8]), DefaultHashSpaceSize, BigEndian(d[..6]), BigEndian(d[6..8]));
  }
}
