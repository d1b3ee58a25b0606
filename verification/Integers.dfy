/** Big-endian integers, and how the code gets them: by swapping the value on a
    little-endian host and copying its memory image. */
module Integers {
  import opened Wrappers

  const LIMIT32 := 0x1_0000_0000

  /** What a guint keeps of a length. */
  function Low(n: nat): nat {
    n % LIMIT32
  }

  lemma LowSum(a: nat, b: nat)
    ensures Low(Low(a) + b) == Low(a + b)
  {}

  function Pow256(n: nat): (p: nat)
    ensures p > 0
  {
    if n == 0 then 1 else 256 * Pow256(n - 1)
  }

  /** The n-byte big-endian encoding of x modulo 256^n. */
  function BigEndian(n: nat, x: nat): (b: Bytes)
    ensures |b| == n
  {
    if n == 0 then [] else BigEndian(n - 1, x / 256) + [x % 256]
  }

  function BigEndianValue(b: Bytes): nat {
    if b == [] then 0 else 256 * BigEndianValue(b[..|b| - 1]) + b[|b| - 1]
  }

  /** The digits of the encoding, most significant one first. */
  lemma {:induction false} BigEndianDigits(n: nat, x: nat, i: nat)
    requires i < n
    ensures BigEndian(n, x)[i] == x / Pow256(n - 1 - i) % 256
  {
    if i < n - 1 {
      BigEndianDigits(n - 1, x / 256, i);
      DivideTwice(x, Pow256(n - 2 - i));
    } else {
      assert Pow256(0) == 1;
    }
  }

  lemma DivideTwice(x: nat, p: nat)
    requires p > 0
    ensures x / 256 / p == x / (256 * p)
  {
    var q, r := x / 256, x % 256;
    var a, b := q / p, q % p;
    assert q == p * a + b && x == 256 * q + r;
    assert x == (256 * p) * a + (256 * b + r) && 0 <= 256 * b + r < 256 * p;
    UniqueQuotient(x, 256 * p, a, 256 * b + r);
  }

  lemma UniqueQuotient(x: nat, m: nat, a: nat, r: nat)
    requires x == m * a + r && r < m
    ensures x / m == a && x % m == r
  {
    var q := x / m;
    assert x == m * q + x % m;
    if q > a {
      Gap(m, q, a);
    } else if q < a {
      Gap(m, a, q);
    }
  }

  lemma {:induction false} Gap(m: nat, hi: nat, lo: nat)
    requires hi > lo
    ensures m * hi >= m * lo + m
    decreases hi
  {
    assert m * hi == m * (hi - 1) + m;
    if hi - 1 > lo {
      Gap(m, hi - 1, lo);
    }
  }

  lemma {:induction false} BigEndianRoundTrip(n: nat, x: nat)
    requires x < Pow256(n)
    ensures BigEndianValue(BigEndian(n, x)) == x
  {
    if n > 0 {
      BigEndianRoundTrip(n - 1, x / 256);
      var b := BigEndian(n, x);
      assert b[..|b| - 1] == BigEndian(n - 1, x / 256);
    }
  }

  lemma {:induction false} BigEndianValueRoundTrip(b: Bytes)
    ensures BigEndianValue(b) < Pow256(|b|)
    ensures BigEndian(|b|, BigEndianValue(b)) == b
  {
    if b != [] {
      var init := b[..|b| - 1];
      BigEndianValueRoundTrip(init);
      assert BigEndianValue(b) / 256 == BigEndianValue(init);
      assert b == init + [b[|b| - 1]];
    }
  }

  lemma Pow256Values()
    ensures Pow256(1) == 0x100 && Pow256(2) == 0x1_0000 && Pow256(4) == 0x1_0000_0000
    ensures Pow256(8) == 0x1_0000_0000_0000_0000
  {
    assert Pow256(3) == 0x100_0000;
    assert Pow256(4) == 0x1_0000_0000;
    assert Pow256(5) == 0x100_0000_0000;
    assert Pow256(6) == 0x1_0000_0000_0000;
    assert Pow256(7) == 0x100_0000_0000_0000;
  }

  // ----- two's complement -----

  predicate FitsSigned(n: nat, x: int) {
    -(Pow256(n) as int) <= 2 * x < Pow256(n)
  }

  /** The unsigned reading of an n-byte two's-complement integer. */
  function ToUnsigned(n: nat, x: int): nat
    requires -(Pow256(n) as int) <= x
  {
    if x < 0 then x + Pow256(n) else x
  }

  function ToSigned(n: nat, u: nat): int {
    if 2 * u >= Pow256(n) then u - Pow256(n) else u
  }

  lemma SignedRoundTrip(n: nat, x: int)
    requires FitsSigned(n, x)
    ensures ToUnsigned(n, x) < Pow256(n) && ToSigned(n, ToUnsigned(n, x)) == x
    ensures ToUnsigned(n, x) == x % Pow256(n)
  {
    if x < 0 {
      ModPlus(x, Pow256(n));
    } else {
      UniqueQuotient(x, Pow256(n), 0, x);
    }
  }

  lemma ModPlus(x: int, m: nat)
    requires -(m as int) <= x < 0
    ensures x % m == x + m
  {
    assert x == m * (x / m) + x % m && 0 <= x % m < m;
    assert x / m == -1;
  }

  // ----- hosts -----

  datatype Host = LittleEndianHost | BigEndianHost

  function LittleEndian(n: nat, x: nat): (b: Bytes)
    ensures |b| == n
  {
    if n == 0 then [] else [x % 256] + LittleEndian(n - 1, x / 256)
  }

  function LittleEndianValue(b: Bytes): nat {
    if b == [] then 0 else b[0] + 256 * LittleEndianValue(b[1..])
  }

  /** The bytes of an n-byte integer in the memory of the host. */
  function InMemory(h: Host, n: nat, x: nat): (b: Bytes)
    ensures |b| == n
  {
    if h.LittleEndianHost? then LittleEndian(n, x) else BigEndian(n, x)
  }

  function FromMemory(h: Host, b: Bytes): nat {
    if h.LittleEndianHost? then LittleEndianValue(b) else BigEndianValue(b)
  }

  /** GINT..._TO_BE and GINT..._FROM_BE: the identity on a big-endian host, and the integer
      with its bytes reversed on a little-endian one. */
  function SwapIfNeeded(h: Host, n: nat, x: nat): nat {
    if h.LittleEndianHost? then LittleEndianValue(BigEndian(n, x)) else x
  }

  lemma {:induction false} LittleEndianValueRoundTrip(b: Bytes)
    ensures LittleEndian(|b|, LittleEndianValue(b)) == b
    ensures LittleEndianValue(b) < Pow256(|b|)
  {
    if b != [] {
      LittleEndianValueRoundTrip(b[1..]);
      assert LittleEndianValue(b) / 256 == LittleEndianValue(b[1..]);
    }
  }

  function Mirror(b: Bytes): (r: Bytes)
    ensures |r| == |b|
  {
    if b == [] then [] else Mirror(b[1..]) + [b[0]]
  }

  lemma {:induction false} MirrorOfBigEndian(n: nat, x: nat)
    ensures Mirror(LittleEndian(n, x)) == BigEndian(n, x)
  {
    if n > 0 {
      MirrorOfBigEndian(n - 1, x / 256);
      assert LittleEndian(n, x)[1..] == LittleEndian(n - 1, x / 256);
    }
  }

  lemma {:induction false} LittleEndianOfMirror(b: Bytes)
    ensures LittleEndianValue(Mirror(b)) == BigEndianValue(b)
    decreases |b|
  {
    if b != [] {
      var init := b[..|b| - 1];
      LittleEndianOfMirror(init);
      MirrorLast(b);
    }
  }

  lemma {:induction false} MirrorLast(b: Bytes)
    requires b != []
    ensures Mirror(b) == [b[|b| - 1]] + Mirror(b[..|b| - 1])
  {
    if |b| > 1 {
      MirrorLast(b[1..]);
      assert b[1..][..|b| - 2] == b[..|b| - 1][1..];
    }
  }

  /** Whatever the host, what is copied into the buffer is the big-endian encoding, and
      what is read back from a buffer is the value of its big-endian bytes. */
  lemma HostIndependence(h: Host, n: nat, x: nat, b: Bytes)
    requires |b| == n
    ensures InMemory(h, n, SwapIfNeeded(h, n, x)) == BigEndian(n, x)
    ensures SwapIfNeeded(h, n, FromMemory(h, b)) == BigEndianValue(b)
  {
    if h.LittleEndianHost? {
      LittleEndianValueRoundTrip(BigEndian(n, x));
      LittleEndianValueRoundTrip(b);
      MirrorOfBigEndian(n, LittleEndianValue(b));
      LittleEndianOfMirror(b);
    } else {
      BigEndianValueRoundTrip(b);
    }
  }

  /** So an integer written on one host is read as the same integer on any other, for
      signed integers through their two's-complement reading. */
  lemma CrossHostRoundTrip(writer: Host, reader: Host, n: nat, x: int)
    requires FitsSigned(n, x) || 0 <= x < Pow256(n)
    ensures var copied := InMemory(writer, n, SwapIfNeeded(writer, n, ToUnsigned(n, x)));
      var u := SwapIfNeeded(reader, n, FromMemory(reader, copied));
      && (0 <= x ==> u == x)
      && (FitsSigned(n, x) ==> ToSigned(n, u) == x)
  {
    var u := ToUnsigned(n, x);
    HostIndependence(writer, n, u, BigEndian(n, u));
    HostIndependence(reader, n, u, BigEndian(n, u));
    BigEndianRoundTrip(n, u);
  }
}
