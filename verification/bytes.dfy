/** Bytes and the big-endian integer encoding used for every length and
    size field the program writes into JPEG marker segments (the 2-byte
    segment length of section B.1.1.4 of ITU-T T.81, and the 4- and 8-byte
    size and key fields of the program's own profile layout). */
module Bytes {

  type byte = bv8

  /** 256^n. */
  function Pow256(n: nat): (p: nat)
    ensures p >= 1
  {
    if n == 0 then 1 else 256 * Pow256(n - 1)
  }

  /** The unsigned big-endian value of a byte string. */
  function BE(s: seq<byte>): nat
  {
    if |s| == 0 then 0 else BE(s[..|s| - 1]) * 256 + s[|s| - 1] as nat
  }

  /** The n-byte big-endian encoding of the low 8*n bits of x. */
  function ToBE(x: nat, n: nat): (r: seq<byte>)
    ensures |r| == n
  {
    if n == 0 then [] else ToBE(x / 256, n - 1) + [(x % 256) as byte]
  }

  lemma {:induction false} BEBound(s: seq<byte>)
    ensures BE(s) < Pow256(|s|)
  {
    if |s| > 0 {
      BEBound(s[..|s| - 1]);
      assert s[|s| - 1] as nat < 256;
    }
  }

  lemma DivModStep(x: nat, p: nat)
    requires p >= 1
    ensures (x / 256) % p * 256 + x % 256 == x % (256 * p)
  {
    var q := x / 256;
    var r := x % 256;
    assert x == q * 256 + r;
    var a := q / p;
    var b := q % p;
    assert q == a * p + b;
    assert x == a * (256 * p) + (b * 256 + r);
    assert 0 <= b * 256 + r < 256 * p;
    LemmaModUnique(x, 256 * p, a, b * 256 + r);
  }

  lemma LemmaModUnique(x: int, m: int, a: int, r: int)
    requires m > 0 && 0 <= r < m && x == a * m + r
    ensures x % m == r
  {
    var q := x / m;
    assert x == q * m + x % m;
    var d := a - q;
    assert d * m == a * m - q * m;
    assert d * m == x % m - r;
    if d > 0 {
      MulPos(d, m);
    } else if d < 0 {
      MulPos(-d, m);
    }
  }

  /** The sixteen bytes 0..15. */
  const Nibbles: seq<byte> := [0, 1, 2, 3, 4, 5, 6, 7, 8, 9, 10, 11, 12, 13, 14, 15]

  /** The byte whose unsigned value is n, for n < 16. */
  function Nibble(n: nat): (b: byte)
    requires n < 16
    ensures b as nat == n
  {
    Nibbles[n]
  }

  /** The byte whose unsigned value is v, assembled from its two nibbles
      without an integer-to-bit-vector conversion. */
  function ByteOf(v: nat): (b: byte)
    requires v < 256
    ensures b as nat == v
  {
    (Nibble(v / 16) << 4) | Nibble(v % 16)
  }

  lemma ByteIntByte(b: byte)
    ensures (b as int) as byte == b
  {
  }

  /** Converting a value below 256 to a byte keeps it; shown through
      ByteOf, which avoids reasoning about the conversion's bits. */
  lemma ByteRoundTrip(x: int)
    requires 0 <= x < 256
    ensures (x as byte) as int == x
  {
    var b := ByteOf(x);
    ByteIntByte(b);
    assert x == b as int;
  }

  lemma ByteOfMod(x: nat)
    ensures ((x % 256) as byte) as nat == x % 256
  {
    ByteRoundTrip(x % 256);
  }

  lemma MulPos(d: int, m: int)
    requires d >= 1 && m > 0
    ensures d * m >= m
  {
    assert (d - 1) * m >= 0;
    assert d * m == (d - 1) * m + m;
  }

  /** Reading back what ToBE wrote yields the value reduced modulo 256^n. */
  lemma {:induction false} BEToBE(x: nat, n: nat)
    ensures BE(ToBE(x, n)) == x % Pow256(n)
  {
    if n > 0 {
      var t := ToBE(x, n);
      assert t[..n - 1] == ToBE(x / 256, n - 1);
      BEToBE(x / 256, n - 1);
      ByteOfMod(x);
      assert t[n - 1] as nat == x % 256;
      DivModStep(x, Pow256(n - 1));
    }
  }

  /** A value that fits in n bytes reads back unchanged. */
  lemma BEToBEFits(x: nat, n: nat)
    requires x < Pow256(n)
    ensures BE(ToBE(x, n)) == x
  {
    BEToBE(x, n);
    LemmaModUnique(x, Pow256(n), 0, x);
  }

  /** Encoding the value of a byte string gives the byte string back. */
  lemma {:induction false} ToBEOfBE(s: seq<byte>)
    ensures ToBE(BE(s), |s|) == s
  {
    if |s| > 0 {
      var init := s[..|s| - 1];
      ToBEOfBE(init);
      var v := BE(s);
      assert v / 256 == BE(init);
      assert v % 256 == s[|s| - 1] as nat;
      assert ((v % 256) as byte) == s[|s| - 1];
      assert s == init + [s[|s| - 1]];
    }
  }

  lemma Pow256Two()
    ensures Pow256(2) == 0x1_0000
  {
  }

  /** The value of a two-byte field. */
  lemma BE2(s: seq<byte>)
    requires |s| == 2
    ensures BE(s) == s[0] as nat * 256 + s[1] as nat
  {
    var h := s[..1];
    assert h[..0] == [];
    assert BE(h) == BE(h[..0]) * 256 + h[0] as nat;
    assert BE(s) == BE(h) * 256 + s[1] as nat;
  }

  /** Two byte strings of the same length with the same value are equal. */
  lemma BEInjective(s: seq<byte>, t: seq<byte>)
    requires |s| == |t| && BE(s) == BE(t)
    ensures s == t
  {
    ToBEOfBE(s);
    ToBEOfBE(t);
  }

  function Min(a: nat, b: nat): nat { if a < b then a else b }

  /** 2^64: arithmetic on the program's `std::size_t` values wraps modulo
      this. */
  const SizeModulus: nat := 0x1_0000_0000_0000_0000

  /** `a - b` computed in `std::size_t`. */
  function SizeSub(a: nat, b: nat): (r: nat)
    requires a < SizeModulus && b < SizeModulus
    ensures r < SizeModulus
    ensures a >= b ==> r == a - b
    ensures a < b ==> r == SizeModulus - (b - a)
  {
    (a - b) % SizeModulus
  }

  /** A slice inside the front part of a concatenation is a slice of that
      part. */
  lemma AppendSlice<T>(b: seq<T>, c: seq<T>, lo: nat, hi: nat)
    requires lo <= hi <= |b|
    ensures (b + c)[lo..hi] == b[lo..hi]
  {
  }
}
