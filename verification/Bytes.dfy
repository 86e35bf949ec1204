/**
 Bytes and the big-endian integers that every codec of the repository reads and writes.
 A C++ integer is an unbounded `int` here; writing it keeps its low bits, two's complement included,
 because `/` and `%` by a positive constant round towards minus infinity.
 */
module Bytes {
  datatype Option<+T> = None | Some(value: T)

  type byte = x: int | 0 <= x < 256

  function Min(a: int, b: int): int { if a < b then a else b }

  /** The low `8 * n` bits of `v`, most significant byte first. */
  function BigEndian(n: nat, v: int): (s: seq<byte>)
    ensures |s| == n
  {
    if n == 0 then [] else BigEndian(n - 1, v / 256) + [v % 256]
  }

  /** The unsigned value of a big-endian byte string. */
  function Unsigned(s: seq<byte>): (v: nat)
  {
    if s == [] then 0 else Unsigned(s[..|s| - 1]) * 256 + s[|s| - 1]
  }

  /** 256 to the power `n`. */
  function Pow256(n: nat): (p: nat)
    ensures p > 0
  {
    if n == 0 then 1 else 256 * Pow256(n - 1)
  }

  function Be16(a: int, b: int): int { a * 0x100 + b }

  function Be24(a: int, b: int, c: int): int { a * 0x1_0000 + b * 0x100 + c }

  function Be32(a: int, b: int, c: int, d: int): int { a * 0x100_0000 + b * 0x1_0000 + c * 0x100 + d }

  /** Two's complement reading of a 16-bit pattern. */
  function Signed16(v: int): int { if v < 0x8000 then v else v - 0x1_0000 }

  /** Two's complement reading of the low 32 bits. */
  function Signed32(v: int): (r: int)
    ensures -0x8000_0000 <= r < 0x8000_0000
  {
    var w := v % 0x1_0000_0000;
    if w < 0x8000_0000 then w else w - 0x1_0000_0000
  }

  lemma {:induction false} UnsignedBound(s: seq<byte>)
    ensures Unsigned(s) < Pow256(|s|)
  {
    if s != [] { UnsignedBound(s[..|s| - 1]); }
  }

  lemma DivMod256(v: int, p: int)
    requires p > 0
    ensures v % (256 * p) == (v / 256) % p * 256 + v % 256
  {
    var q, r := v / 256, v % 256;
    var a, b := q / p, q % p;
    assert v == 256 * (a * p + b) + r;
    assert v == a * (256 * p) + (256 * b + r);
    ModUnique(v, 256 * p, a, 256 * b + r);
  }

  lemma {:induction false} MulAtLeast(k: int, m: int)
    requires k >= 1 && m > 0
    ensures k * m >= m
  {
    if k > 1 { MulAtLeast(k - 1, m); }
  }

  lemma ModUnique(v: int, m: int, a: int, r: int)
    requires 0 <= r < m && v == a * m + r
    ensures v % m == r && v / m == a
  {
    var q := v / m;
    if q < a {
      MulAtLeast(a - q, m);
    } else if q > a {
      MulAtLeast(q - a, m);
    }
  }

  /** Reading back what was written gives the value modulo its width. */
  lemma {:induction false} BigEndianRoundTrip(n: nat, v: int)
    ensures Unsigned(BigEndian(n, v)) == v % Pow256(n)
  {
    if n > 0 {
      BigEndianRoundTrip(n - 1, v / 256);
      DivMod256(v, Pow256(n - 1));
      assert BigEndian(n, v)[..n - 1] == BigEndian(n - 1, v / 256);
    }
  }

  /** Writing back what was read gives the same bytes. */
  lemma {:induction false} UnsignedRoundTrip(s: seq<byte>)
    ensures BigEndian(|s|, Unsigned(s)) == s
  {
    if s != [] {
      var t := s[..|s| - 1];
      UnsignedRoundTrip(t);
      assert Unsigned(s) / 256 == Unsigned(t);
    }
  }

  lemma Unsigned2(s: seq<byte>)
    requires |s| == 2
    ensures Unsigned(s) == Be16(s[0], s[1])
  {
    assert Unsigned(s[..1]) == Unsigned(s[..1][..0]) * 0x100 + s[0];
  }

  lemma Unsigned3(s: seq<byte>)
    requires |s| == 3
    ensures Unsigned(s) == Be24(s[0], s[1], s[2])
  {
    Unsigned2(s[..2]);
  }

  lemma Unsigned4(s: seq<byte>)
    requires |s| == 4
    ensures Unsigned(s) == Be32(s[0], s[1], s[2], s[3])
  {
    Unsigned3(s[..3]);
  }

  /** Four bytes written and read back, as an int32_t. */
  lemma Signed32RoundTrip(b: seq<byte>, v: int)
    requires b == BigEndian(4, v) && -0x8000_0000 <= v < 0x8000_0000
    ensures Signed32(Be32(b[0], b[1], b[2], b[3])) == v
  {
    hide BigEndian, Unsigned, Be32, Pow256;
    Unsigned4(b);
    BigEndianRoundTrip(4, v);
    Pow256Of4();
    SignedOfModulus(v);
  }

  lemma SignedOfModulus(v: int)
    requires -0x8000_0000 <= v < 0x8000_0000
    ensures Signed32(v % 0x1_0000_0000) == v
  {
  }

  lemma Pow256Of3()
    ensures Pow256(3) == 0x100_0000
  {
    assert Pow256(2) == 0x1_0000;
  }

  /** Three written bytes, read back. */
  lemma Be24RoundTrip(v: int)
    ensures var b := BigEndian(3, v); Be24(b[0], b[1], b[2]) == v % 0x100_0000
  {
    hide BigEndian, Unsigned, Be24, Pow256;
    var b := BigEndian(3, v);
    Unsigned3(b);
    BigEndianRoundTrip(3, v);
    Pow256Of3();
  }

  lemma Pow256Of4()
    ensures Pow256(4) == 0x1_0000_0000
  {
    assert Pow256(2) == 0x1_0000;
  }
}
