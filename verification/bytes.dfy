/** Failure-carrying results used by the message builders. */
module Results {

  datatype Option<+T> = None | Some(value: T)

  datatype Result<+T, +E> = Ok(value: T) | Err(error: E)
}

/**
 Octets and the arithmetic every LPF2 message builder leans on: powers of two,
 integer logarithms, the running XOR, and fixed-width little- and big-endian
 integer codecs.
 */
module Bytes {

  /** One octet on the wire. */
  type byte = bv8

  function Pow2(k: nat): (r: nat)
    ensures r >= 1
  {
    if k == 0 then 1 else 2 * Pow2(k - 1)
  }

  /** The powers of two the header arithmetic needs, computed step by step. */
  lemma Pow2Table()
    ensures Pow2(1) == 2 && Pow2(2) == 4 && Pow2(3) == 8 && Pow2(4) == 16
    ensures Pow2(7) == 128 && Pow2(8) == 256 && Pow2(31) == 0x8000_0000
  {
    assert Pow2(4) == 16;
    assert Pow2(8) == 256;
    assert Pow2(12) == 0x1000;
    assert Pow2(16) == 0x1_0000;
    assert Pow2(20) == 0x10_0000;
    assert Pow2(24) == 0x100_0000;
    assert Pow2(28) == 0x1000_0000;
  }

  /** 256 to the power n: the number of values n octets can hold. */
  function Pow256(n: nat): (r: nat)
    ensures r >= 1
  {
    if n == 0 then 1 else 256 * Pow256(n - 1)
  }

  lemma {:induction false} Pow2Monotone(a: nat, b: nat)
    requires a <= b
    ensures Pow2(a) <= Pow2(b)
    decreases b - a
  {
    if a < b {
      Pow2Monotone(a, b - 1);
    }
  }

  /** floor(log2 n): the largest k with 2^k <= n. */
  function FloorLog2(n: nat): (k: nat)
    requires n >= 1
    ensures Pow2(k) <= n < Pow2(k + 1)
  {
    if n == 1 then 0 else 1 + FloorLog2(n / 2)
  }

  /** ceil(log2 n): the smallest k with n <= 2^k. */
  function CeilLog2(n: nat): (k: nat)
    requires n >= 1
    ensures n <= Pow2(k)
    ensures k == 0 || Pow2(k - 1) < n
  {
    if n == 1 then 0 else 1 + CeilLog2((n + 1) / 2)
  }

  /** The bracket 2^k <= n < 2^(k+1) determines k: FloorLog2 is the only exponent meeting it. */
  lemma FloorLog2Unique(n: nat, k: nat)
    requires Pow2(k) <= n < Pow2(k + 1)
    ensures FloorLog2(n) == k
  {
    var f := FloorLog2(n);
    if f < k {
      Pow2Monotone(f + 1, k);
    } else if k < f {
      Pow2Monotone(k + 1, f);
    }
  }

  /** CeilLog2 n is the least exponent whose power of two reaches n. */
  lemma CeilLog2Least(n: nat, k: nat)
    requires n >= 1
    requires n <= Pow2(k)
    ensures CeilLog2(n) <= k
  {
    var c := CeilLog2(n);
    if k < c {
      Pow2Monotone(k, c - 1);
      assert false;
    }
  }

  function Zeros(n: nat): (z: seq<byte>)
    ensures |z| == n && forall i :: 0 <= i < n ==> z[i] == 0
  {
    seq(n, _ => 0)
  }

  /** XOR of every octet of s (0 for the empty sequence). */
  function XorAll(s: seq<byte>): byte
  {
    if |s| == 0 then 0 else XorAll(s[..|s| - 1]) ^ s[|s| - 1]
  }

  /** The running XOR distributes over concatenation. */
  lemma {:induction false} XorAllConcat(a: seq<byte>, b: seq<byte>)
    ensures XorAll(a + b) == XorAll(a) ^ XorAll(b)
    decreases |b|
  {
    if |b| == 0 {
      assert a + b == a;
    } else {
      var b' := b[..|b| - 1];
      assert (a + b)[..|a + b| - 1] == a + b';
      XorAllConcat(a, b');
    }
  }

  /** Converting a value in 0..255 to an octet and back loses nothing. */
  lemma OctetRoundTrip(v: int)
    requires 0 <= v < 256
    ensures (v as byte) as int == v
  {
    // The solver handles the int-to-bit-vector conversion reliably only on narrow ranges.
    if v < 128 {
      if v < 16 {} else if v < 32 {} else if v < 48 {} else if v < 64 {}
      else if v < 80 {} else if v < 96 {} else if v < 112 {} else {}
    } else {
      if v < 144 {} else if v < 160 {} else if v < 176 {} else if v < 192 {}
      else if v < 208 {} else if v < 224 {} else if v < 240 {} else {}
    }
  }

  lemma ByteAsIntRoundTrip(b: byte)
    ensures (b as int) as byte == b
  {
  }

  lemma DivMod256(q: nat, r: nat)
    requires r < 256
    ensures (256 * q + r) % 256 == r && (256 * q + r) / 256 == q
  {
  }

  /** Euclidean remainder of a value one modulus below the range. */
  lemma ModOfNegative(v: int, m: int)
    requires m > 0 && -m <= v < 0
    ensures v % m == v + m
  {
  }

  lemma ModOfSmall(v: int, m: int)
    requires m > 0 && 0 <= v < m
    ensures v % m == v
  {
  }

  /** x as n octets, least significant first (Python's int.to_bytes(n, 'little')). */
  function ToLE(x: nat, n: nat): (r: seq<byte>)
    requires x < Pow256(n)
    ensures |r| == n
  {
    if n == 0 then [] else [(x % 256) as byte] + ToLE(x / 256, n - 1)
  }

  /** The unsigned integer whose little-endian octets are s. */
  function FromLE(s: seq<byte>): (x: nat)
    ensures x < Pow256(|s|)
  {
    if |s| == 0 then 0 else s[0] as nat + 256 * FromLE(s[1..])
  }

  /** x as n octets, most significant first (Python's int.to_bytes(n, 'big')). */
  function ToBE(x: nat, n: nat): (r: seq<byte>)
    requires x < Pow256(n)
    ensures |r| == n
  {
    if n == 0 then [] else ToBE(x / 256, n - 1) + [(x % 256) as byte]
  }

  /** The unsigned integer whose big-endian octets are s. */
  function FromBE(s: seq<byte>): (x: nat)
    ensures x < Pow256(|s|)
  {
    if |s| == 0 then 0 else 256 * FromBE(s[..|s| - 1]) + s[|s| - 1] as nat
  }

  lemma {:induction false} FromLEToLE(x: nat, n: nat)
    requires x < Pow256(n)
    ensures FromLE(ToLE(x, n)) == x
  {
    if n > 0 {
      var r := ToLE(x, n);
      var q := x / 256;
      assert r[1..] == ToLE(q, n - 1);
      OctetRoundTrip(x % 256);
      FromLEToLE(q, n - 1);
      assert FromLE(r) == x % 256 + 256 * q;
    }
  }

  lemma {:induction false} ToLEFromLE(s: seq<byte>)
    ensures ToLE(FromLE(s), |s|) == s
  {
    if |s| > 0 {
      var x := FromLE(s);
      var q := FromLE(s[1..]);
      assert x == 256 * q + s[0] as nat;
      DivMod256(q, s[0] as nat);
      ByteAsIntRoundTrip(s[0]);
      ToLEFromLE(s[1..]);
      assert ToLE(x, |s|) == [(x % 256) as byte] + ToLE(q, |s| - 1);
      assert [s[0]] + s[1..] == s;
    }
  }

  lemma {:induction false} FromBEToBE(x: nat, n: nat)
    requires x < Pow256(n)
    ensures FromBE(ToBE(x, n)) == x
  {
    if n > 0 {
      var r := ToBE(x, n);
      var q := x / 256;
      assert r[..n - 1] == ToBE(q, n - 1);
      OctetRoundTrip(x % 256);
      FromBEToBE(q, n - 1);
      assert FromBE(r) == 256 * q + x % 256;
    }
  }

  lemma {:induction false} ToBEFromBE(s: seq<byte>)
    ensures ToBE(FromBE(s), |s|) == s
  {
    if |s| > 0 {
      var init := s[..|s| - 1];
      ToBEFromBE(init);
      DivMod256(FromBE(init), s[|s| - 1] as nat);
      ByteAsIntRoundTrip(s[|s| - 1]);
      assert init + [s[|s| - 1]] == s;
    }
  }
}
