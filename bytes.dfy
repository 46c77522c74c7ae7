/** Bytes, fixed-width unsigned integers and the conversions the C++ casts perform. */
module Bytes {

  /** `uint8_t` */
  type Byte = x: int | 0 <= x < 256

  datatype Option<T> = None | Some(value: T)

  /** 2^(8*width): the number of values of a `width`-byte unsigned integer. */
  function Modulus(width: nat): (m: nat)
    ensures m >= 1
  {
    if width == 0 then 1 else 256 * Modulus(width - 1)
  }

  /** A C cast to an unsigned `width`-byte type: the low `width` bytes of the
      two's-complement representation, taken one byte at a time
      (`ToUnsignedMod` shows it is reduction modulo 2^(8*width)). */
  function ToUnsigned(width: nat, v: int): (u: nat)
    ensures u < Modulus(width)
  {
    if width == 0 then 0 else ToUnsigned(width - 1, v / 256) * 256 + v % 256
  }

  /** The cast is reduction modulo 2^(8*width). */
  lemma {:induction false} ToUnsignedMod(width: nat, v: int)
    ensures ToUnsigned(width, v) == v % Modulus(width)
  {
    if width == 0 {
      DivModUnique(v, 1, v, 0);
    } else {
      ToUnsignedMod(width - 1, v / 256);
      DivModStep(v, Modulus(width - 1));
    }
  }

  /** Reading an unsigned `width`-byte value as the signed type of the same width. */
  function ToSigned(width: nat, u: nat): int
    requires 0 < width
  {
    if u < Modulus(width) / 2 then u else u - Modulus(width)
  }

  predicate SignedInRange(width: nat, v: int)
    requires 0 < width
  {
    -(Modulus(width) / 2) <= v < Modulus(width) / 2
  }

  /** Casting a value of a signed type to the unsigned type of the same width and back is the identity. */
  lemma SignedCastRoundTrip(width: nat, v: int)
    requires 0 < width && SignedInRange(width, v)
    ensures ToSigned(width, ToUnsigned(width, v)) == v
  {
    ToUnsignedMod(width, v);
    var m := Modulus(width);
    assert m == 256 * Modulus(width - 1);
    if v < 0 {
      DivModUnique(v, m, -1, v + m);
    } else {
      DivModUnique(v, m, 0, v);
    }
  }

  /** Euclidean division is determined by its quotient and remainder. */
  lemma DivModUnique(v: int, d: int, q: int, r: int)
    requires d > 0 && 0 <= r < d && v == d * q + r
    ensures v / d == q && v % d == r
  {
    var q', r' := v / d, v % d;
    assert v == d * q' + r';
    assert d * (q - q') == r' - r;
    if q > q' {
      MulAtLeast(d, q - q');
    } else if q < q' {
      assert d * (q' - q) == r - r';
      MulAtLeast(d, q' - q);
    }
  }

  lemma {:induction false} MulAtLeast(d: nat, k: nat)
    requires k >= 1
    ensures d * k >= d
  {
    if k > 1 {
      MulAtLeast(d, k - 1);
      assert d * k == d * (k - 1) + d;
    }
  }

  /** Big-endian (network order) bytes of `v` reduced to `width` bytes, most significant first. */
  function BigEndian(width: nat, v: nat): (s: seq<Byte>)
    ensures |s| == width
  {
    if width == 0 then [] else BigEndian(width - 1, v / 256) + [v % 256]
  }

  /** The unsigned value of a big-endian byte sequence. */
  function FromBigEndian(s: seq<Byte>): (v: nat)
    ensures v < Modulus(|s|)
  {
    if s == [] then 0 else FromBigEndian(s[..|s| - 1]) * 256 + s[|s| - 1]
  }

  /** Reading back what BigEndian wrote gives the value reduced to the width. */
  lemma {:induction false} BigEndianRoundTrip(width: nat, v: nat)
    ensures FromBigEndian(BigEndian(width, v)) == v % Modulus(width)
  {
    if width > 0 {
      var s := BigEndian(width, v);
      assert s[..width - 1] == BigEndian(width - 1, v / 256);
      BigEndianRoundTrip(width - 1, v / 256);
      DivModStep(v, Modulus(width - 1));
    }
  }

  /** (v / 256 % m) * 256 + v % 256 == v % (256 * m) */
  lemma DivModStep(v: int, m: nat)
    requires m >= 1
    ensures (v / 256 % m) * 256 + v % 256 == v % (256 * m)
  {
    var q := v / 256;
    var r := v % 256;
    var a := q / m;
    var b := q % m;
    assert q == m * a + b;
    assert v == 256 * q + r;
    assert v == (256 * m) * a + (256 * b + r) by {
      assert 256 * q == 256 * (m * a) + 256 * b;
      assert 256 * (m * a) == (256 * m) * a;
    }
    assert 256 * b + r < 256 * m by {
      assert b <= m - 1;
      assert 256 * b <= 256 * (m - 1);
    }
    DivModUnique(v, 256 * m, a, 256 * b + r);
  }

  /** A value that fits the width is its own cast. */
  lemma UnsignedCastId(width: nat, v: int)
    requires 0 <= v < Modulus(width)
    ensures ToUnsigned(width, v) == v
  {
    ToUnsignedMod(width, v);
    DivModUnique(v, Modulus(width), 0, v);
  }

  /** A value that fits the width reads back from its big-endian bytes. */
  lemma BigEndianReadsBack(width: nat, v: nat)
    requires v < Modulus(width)
    ensures FromBigEndian(BigEndian(width, v)) == v
  {
    BigEndianRoundTrip(width, v);
    DivModUnique(v, Modulus(width), 0, v);
  }

  /** Big-endian bytes of values below 2^(8*width) determine the value. */
  lemma BigEndianInjective(width: nat, v: nat, w: nat)
    requires v < Modulus(width) && w < Modulus(width)
    requires BigEndian(width, v) == BigEndian(width, w)
    ensures v == w
  {
    BigEndianRoundTrip(width, v);
    BigEndianRoundTrip(width, w);
  }

  /** The most significant byte comes first: for two bytes, [v / 256, v % 256]. */
  lemma BigEndian16(v: nat)
    requires v < 65536
    ensures BigEndian(2, v) == [v / 256, v % 256]
  {
  }
}
