/** The base64 coder of the kernel (section 4 of RFC 4648), on C strings of byte codes. */
module Base64 {
  import opened Bytes
  import opened KernelStream

  /** The alphabet table b64. */
  function Letter(v: int): (c: byte)
    requires 0 <= v < 64
  {
    if v < 26 then 65 + v else if v < 52 then 71 + v else if v < 62 then v - 4 else if v == 62 then 43 else 47
  }

  /** The table map2: a letter's value, 0xfe for the pad and the end of the string, 0xff for any other byte. */
  function Map2(c: byte): (v: byte)
    ensures v < 64 || v == 0xfe || v == 0xff
  {
    if c == 0 || c == 61 then 0xfe
    else if 65 <= c <= 90 then c - 65
    else if 97 <= c <= 122 then c - 71
    else if 48 <= c <= 57 then c + 4
    else if c == 43 then 62
    else if c == 47 then 63
    else 0xff
  }

  lemma LetterMapsBack(v: int)
    requires 0 <= v < 64
    ensures Map2(Letter(v)) == v && Letter(v) != 0 && Letter(v) != 61
  {
  }

  const PAD: byte := 61

  /** The four letters of a 24-bit group. */
  function Letters(v: int): (r: seq<byte>)
    requires 0 <= v < 0x100_0000
    ensures |r| == 4
  {
    [Letter(v / 0x4_0000), Letter(v / 0x1000 % 64), Letter(v / 64 % 64), Letter(v % 64)]
  }

  /** Section 4 of RFC 4648. */
  function Encode(x: seq<byte>): seq<byte> {
    if x == [] then []
    else if |x| == 1 then Letters(Be24(x[0], 0, 0))[..2] + [PAD, PAD]
    else if |x| == 2 then Letters(Be24(x[0], x[1], 0))[..3] + [PAD]
    else Letters(Be24(x[0], x[1], x[2])) + Encode(x[3..])
  }

  /** SRS_AV_BASE64_SIZE: the letters, the pads and the terminator. */
  function Base64Size(n: nat): nat { (n + 2) / 3 * 4 + 1 }

  lemma {:induction false} EncodeLength(x: seq<byte>)
    ensures |Encode(x)| + 1 == Base64Size(|x|) && |Encode(x)| % 4 == 0
  {
    hide Letters;
    if |x| > 2 {
      EncodeLength(x[3..]);
      assert (|x| + 2) / 3 == (|x[3..]| + 2) / 3 + 1;
    }
  }

  /** The bytes up to the first byte that is no letter, and whether that is a pad or the end. */
  datatype Decoded = Decoded(bytes: seq<byte>, valid: bool)

  /** A string that comes to an end. */
  predicate Terminated(s: seq<byte>) { s != [] && (Map2(s[0]) >= 64 || Terminated(s[1..])) }

  /** Each letter has a successor. */
  lemma FirstFour(s: seq<byte>)
    requires Terminated(s)
    ensures Map2(s[0]) < 64 ==> |s| > 1
    ensures Map2(s[0]) < 64 && Map2(s[1]) < 64 ==> |s| > 2
    ensures Map2(s[0]) < 64 && Map2(s[1]) < 64 && Map2(s[2]) < 64 ==> |s| > 3
    ensures Map2(s[0]) < 64 && Map2(s[1]) < 64 && Map2(s[2]) < 64 && Map2(s[3]) < 64 ==> Terminated(s[4..])
  {
    hide Map2;
    assert |s| > 1 ==> s[1..][1..] == s[2..] && s[1..][0] == s[1];
    assert |s| > 2 ==> s[2..][1..] == s[3..] && s[2..][0] == s[2];
    assert |s| > 3 ==> s[3..][1..] == s[4..] && s[3..][0] == s[3];
  }

  function Decode(s: seq<byte>): Decoded
    requires Terminated(s)
  {
    FirstFour(s);
    if Map2(s[0]) >= 64 then Decoded([], Map2(s[0]) == 0xfe)
    else if Map2(s[1]) >= 64 then Decoded([], Map2(s[1]) == 0xfe)
    else
      var v := Map2(s[0]) as int * 64 + Map2(s[1]);
      if Map2(s[2]) >= 64 then Decoded([v / 16], Map2(s[2]) == 0xfe)
      else
        var w := v * 64 + Map2(s[2]);
        if Map2(s[3]) >= 64 then Decoded([w / 1024, w / 4 % 256], Map2(s[3]) == 0xfe)
        else
          var z := w * 64 + Map2(s[3]);
          var rest := Decode(s[4..]);
          Decoded([z / 0x1_0000, z / 256 % 256, z % 256] + rest.bytes, rest.valid)
  }

  /** Decoding an encoded group and what follows. */
  lemma DecodeGroup(v: int, rest: seq<byte>)
    requires 0 <= v < 0x100_0000 && Terminated(rest)
    ensures Terminated(Letters(v) + rest)
    ensures var r := Decode(rest);
            Decode(Letters(v) + rest) == Decoded([v / 0x1_0000, v / 256 % 256, v % 256] + r.bytes, r.valid)
  {
    var s := Letters(v) + rest;
    LetterMapsBack(v / 0x4_0000);
    LetterMapsBack(v / 0x1000 % 64);
    LetterMapsBack(v / 64 % 64);
    LetterMapsBack(v % 64);
    hide Letter, Map2;
    FourSteps(s);
    assert s[4..] == rest;
    Sextets(v);
  }

  lemma FourSteps(s: seq<byte>)
    requires |s| >= 4 && Terminated(s[4..])
    ensures Terminated(s)
  {
    hide Map2;
    assert s[1..][1..] == s[2..] && s[2..][1..] == s[3..] && s[3..][1..] == s[4..];
    assert Terminated(s[3..]) && Terminated(s[2..]) && Terminated(s[1..]);
  }

  lemma Sextets(v: int)
    requires 0 <= v < 0x100_0000
    ensures v / 0x4_0000 * 64 + v / 0x1000 % 64 == v / 0x1000
    ensures v / 0x1000 * 64 + v / 64 % 64 == v / 64
    ensures v / 64 * 64 + v % 64 == v
    ensures v / 0x1000 / 16 == v / 0x1_0000 && v / 64 / 1024 == v / 0x1_0000 && v / 64 / 4 % 256 == v / 256 % 256
  {
  }

  lemma GroupBytes(a: byte, b: byte, c: byte)
    ensures var v := Be24(a, b, c); v / 0x1_0000 == a && v / 256 % 256 == b && v % 256 == c
  {
  }

  lemma NothingToDecode(rest: seq<byte>)
    ensures Encode([]) + [0] + rest == [0] + rest && Terminated([0] + rest) && Decode([0] + rest) == Decoded([], true)
  {
    assert [] + [0] == [0];
  }

  /** Main result: for every byte string, decoding the encoded string gives it back, whatever lies behind its end. */
  lemma {:induction false} RoundTrip(x: seq<byte>, rest: seq<byte>)
    ensures Terminated(Encode(x) + [0] + rest)
    ensures Decode(Encode(x) + [0] + rest) == Decoded(x, true)
  {
    hide Letters, Decode;
    if |x| > 2 {
      RoundTrip(x[3..], rest);
      var v := Be24(x[0], x[1], x[2]);
      assert Encode(x) + [0] + rest == Letters(v) + (Encode(x[3..]) + [0] + rest);
      DecodeGroup(v, Encode(x[3..]) + [0] + rest);
      GroupBytes(x[0], x[1], x[2]);
      assert [x[0], x[1], x[2]] + x[3..] == x;
    } else if x == [] {
      NothingToDecode(rest);
    } else if |x| == 1 {
      RoundTrip1(x[0], rest);
    } else {
      RoundTrip2(x[0], x[1], rest);
    }
  }

  /** Two letters and a pad are one byte. */
  lemma DecodeTwo(s: seq<byte>, v: int)
    requires |s| > 2 && 0 <= v < 0x1000 && Map2(s[0]) == v / 64 && Map2(s[1]) == v % 64 && Map2(s[2]) == 0xfe
    ensures Terminated(s) && Decode(s) == Decoded([v / 16], true)
  {
    hide Map2;
    assert s[1..][1..] == s[2..] && Terminated(s[2..]) && Terminated(s[1..]);
  }

  /** Three letters and a pad are two bytes. */
  lemma DecodeThree(s: seq<byte>, v: int)
    requires |s| > 3 && 0 <= v < 0x4_0000 && Map2(s[0]) == v / 0x1000 && Map2(s[1]) == v / 64 % 64
             && Map2(s[2]) == v % 64
    requires Map2(s[3]) == 0xfe
    ensures Terminated(s) && Decode(s) == Decoded([v / 1024, v / 4 % 256], true)
  {
    hide Map2;
    assert s[1..][1..] == s[2..] && s[2..][1..] == s[3..];
    assert Terminated(s[3..]) && Terminated(s[2..]) && Terminated(s[1..]);
    assert (v / 0x1000 * 64 + v / 64 % 64) * 64 + v % 64 == v;
  }

  lemma RoundTrip1(a: byte, rest: seq<byte>)
    ensures var s := Letters(Be24(a, 0, 0))[..2] + [PAD, PAD] + [0] + rest;
            Terminated(s) && Decode(s) == Decoded([a], true)
  {
    var v := Be24(a, 0, 0);
    LetterMapsBack(v / 0x4_0000);
    LetterMapsBack(v / 0x1000 % 64);
    assert Map2(PAD) == 0xfe;
    hide Letter, Map2;
    DecodeTwo(Letters(v)[..2] + [PAD, PAD] + [0] + rest, a as int * 16);
  }

  lemma TwoBytes(a: byte, b: byte)
    ensures var v, w := Be24(a, b, 0), (a as int * 256 + b) * 4;
            && 0 <= w < 0x4_0000 && v / 0x4_0000 == w / 0x1000 && v / 0x1000 % 64 == w / 64 % 64
            && v / 64 % 64 == w % 64
            && w / 1024 == a && w / 4 % 256 == b
  {
    var u := a as int * 256 + b;
    assert Be24(a, b, 0) == u * 256;
    hide Be24;
    DropByte(u, 0, 1024);
    DropByte(u, 0, 16);
    assert u * 4 / 0x1000 == u / 1024 && u * 4 / 64 == u / 16 && u * 256 / 64 == u * 4;
    assert u * 4 / 1024 == u / 256 == a && u * 4 / 4 == u && u % 256 == b;
  }

  lemma RoundTrip2(a: byte, b: byte, rest: seq<byte>)
    ensures var s := Letters(Be24(a, b, 0))[..3] + [PAD] + [0] + rest;
            Terminated(s) && Decode(s) == Decoded([a, b], true)
  {
    var v := Be24(a, b, 0);
    LetterMapsBack(v / 0x4_0000);
    LetterMapsBack(v / 0x1000 % 64);
    LetterMapsBack(v / 64 % 64);
    assert Map2(PAD) == 0xfe;
    hide Letter, Map2, Be24, Decode, Terminated;
    TwoBytes(a, b);
    DecodeThree(Letters(v)[..3] + [PAD] + [0] + rest, (a as int * 256 + b) * 4);
  }

  // ---------- the encoder ----------

  function Pow2(n: nat): (p: nat)
    ensures p > 0
  {
    if n == 0 then 1 else 2 * Pow2(n - 1)
  }

  /** The letters of the last bytes, most significant bits first. */
  function Sixes(bits: nat, shift: int): seq<byte>
    decreases shift
  {
    if shift <= 0 then [] else [Letter(bits * 64 / Pow2(shift) % 64)] + Sixes(bits, shift - 6)
  }

  function Pads(n: nat): (r: seq<byte>)
    ensures |r| == n
  {
    if n == 0 then [] else Pads(n - 1) + [PAD]
  }

  lemma {:induction false} SixesLength(bits: nat, shift: int)
    ensures |Sixes(bits, shift)| == if shift <= 0 then 0 else (shift + 5) / 6
    decreases shift
  {
    hide Letter, Pow2;
    if shift > 0 { SixesLength(bits, shift - 6); }
  }

  lemma SixesStep(bits: nat, shift: int, power: int)
    requires shift > 0 && power == Pow2(shift)
    ensures Sixes(bits, shift) == [Letter(bits * 64 / power % 64)] + Sixes(bits, shift - 6)
  {
  }

  lemma Powers()
    ensures Pow2(2) == 4 && Pow2(4) == 16 && Pow2(6) == 64 && Pow2(8) == 256 && Pow2(10) == 1024 && Pow2(12) == 0x1000
    ensures Pow2(16) == 0x1_0000 && Pow2(18) == 0x4_0000 && Pow2(24) == 0x100_0000
  {
    assert Pow2(6) == 64 && Pow2(10) == 1024;
    assert Pow2(14) == 0x4000 && Pow2(18) == 0x4_0000;
    assert Pow2(22) == 0x40_0000;
  }

  /** At most three bytes: their letters, then pads. */
  lemma LastBytes(x: seq<byte>)
    requires |x| <= 3
    ensures var n := |Sixes(Unsigned(x), 8 * |x|)|;
            n == (8 * |x| + 5) / 6 && Encode(x) == Sixes(Unsigned(x), 8 * |x|) + Pads((4 - n) % 4)
  {
    hide *;
    SixesLength(Unsigned(x), 8 * |x|);
    if |x| == 0 {
      LastNone(x);
    } else if |x| == 1 {
      LastOne(x);
    } else if |x| == 2 {
      LastTwo(x);
    } else {
      LastThree(x);
    }
  }

  lemma LastNone(x: seq<byte>)
    requires x == []
    ensures Encode(x) == Sixes(Unsigned(x), 0) + Pads(0)
  {
  }

  lemma SixesEnd(u: nat, shift: int)
    requires shift <= 0
    ensures Sixes(u, shift) == []
  {
  }

  lemma SmallPads()
    ensures Pads(0) == [] && Pads(1) == [PAD] && Pads(2) == [PAD, PAD]
  {
    assert Pads(1) == [] + [PAD];
  }

  lemma EncodeShort(x: seq<byte>)
    requires 1 <= |x| <= 3
    ensures |x| == 1 ==> Encode(x) == Letters(Be24(x[0], 0, 0))[..2] + [PAD, PAD]
    ensures |x| == 2 ==> Encode(x) == Letters(Be24(x[0], x[1], 0))[..3] + [PAD]
    ensures |x| == 3 ==> Encode(x) == Letters(Be24(x[0], x[1], x[2]))
  {
    hide Letters;
  }

  lemma LettersAre(v: int)
    requires 0 <= v < 0x100_0000
    ensures Letters(v) == [Letter(v / 0x4_0000), Letter(v / 0x1000 % 64), Letter(v / 64 % 64), Letter(v % 64)]
  {
    hide Letter;
  }

  lemma SixesOfOne(u: nat)
    ensures Sixes(u, 8) == [Letter(u * 64 / 256 % 64), Letter(u * 64 / 4 % 64)]
  {
    hide *;
    Powers();
    SixesStep(u, 8, 256);
    SixesStep(u, 2, 4);
    SixesEnd(u, -4);
  }

  lemma SixesOfTwo(u: nat)
    ensures Sixes(u, 16) == [Letter(u * 64 / 0x1_0000 % 64), Letter(u * 64 / 1024 % 64), Letter(u * 64 / 16 % 64)]
  {
    hide *;
    Powers();
    SixesStep(u, 16, 0x1_0000);
    SixesStep(u, 10, 1024);
    SixesStep(u, 4, 16);
    SixesEnd(u, -2);
  }

  lemma LastOne(x: seq<byte>)
    requires |x| == 1
    ensures Encode(x) == Sixes(Unsigned(x), 8) + Pads(2)
  {
    hide *;
    var u, v := Unsigned(x), Be24(x[0], 0, 0);
    OneSextets(x);
    SmallPads();
    SixesOfOne(u);
    EncodeShort(x);
  }

  lemma LastTwo(x: seq<byte>)
    requires |x| == 2
    ensures Encode(x) == Sixes(Unsigned(x), 16) + Pads(1)
  {
    hide *;
    var u, v := Unsigned(x), Be24(x[0], x[1], 0);
    TwoSextets(x);
    SmallPads();
    SixesOfTwo(u);
    EncodeShort(x);
  }

  lemma LastThree(x: seq<byte>)
    requires |x| == 3
    ensures Encode(x) == Sixes(Unsigned(x), 24) + Pads(0)
  {
    hide *;
    var u, v := Unsigned(x), Be24(x[0], x[1], x[2]);
    ThreeSextets(x);
    Powers();
    EncodeShort(x);
    SmallPads();
    SixesStep(u, 24, 0x100_0000);
    SixesStep(u, 18, 0x4_0000);
    SixesStep(u, 12, 0x1000);
    SixesStep(u, 6, 64);
    SixesEnd(u, 0);
    LettersAre(v);
  }

  lemma OneSextets(x: seq<byte>)
    requires |x| == 1
    ensures var u, v := Unsigned(x), Be24(x[0], 0, 0);
            0 <= v < 0x100_0000 && u * 64 / 256 % 64 == v / 0x4_0000 && u * 64 / 4 % 64 == v / 0x1000 % 64
    ensures Letters(Be24(x[0], 0, 0))[..2] == [Letter(Unsigned(x) * 64 / 256 % 64), Letter(Unsigned(x) * 64 / 4 % 64)]
  {
    assert Unsigned(x) == x[0] as int && Be24(x[0], 0, 0) == x[0] as int * 0x1_0000;
    LettersAre(Be24(x[0], 0, 0));
    hide *;
    OneByteSextets(x[0]);
  }

  lemma OneByteSextets(a: byte)
    ensures a as int * 64 / 256 % 64 == a as int * 0x1_0000 / 0x4_0000
    ensures a as int * 64 / 4 % 64 == a as int * 0x1_0000 / 0x1000 % 64
  {
    var u: int := a;
    assert u * 64 / 256 == u / 4 && u * 0x1_0000 / 0x4_0000 == u / 4;
    assert u * 64 / 4 == u * 16 && u * 0x1_0000 / 0x1000 == u * 16;
  }

  lemma TwoSextets(x: seq<byte>)
    requires |x| == 2
    ensures var u, v := Unsigned(x), Be24(x[0], x[1], 0);
            && 0 <= v < 0x100_0000 && u * 64 / 0x1_0000 % 64 == v / 0x4_0000
            && u * 64 / 1024 % 64 == v / 0x1000 % 64 && u * 64 / 16 % 64 == v / 64 % 64
    ensures Letters(Be24(x[0], x[1], 0))[..3]
            == [Letter(Unsigned(x) * 64 / 0x1_0000 % 64), Letter(Unsigned(x) * 64 / 1024 % 64),
                Letter(Unsigned(x) * 64 / 16 % 64)]
  {
    Unsigned2(x);
    var u := Unsigned(x);
    assert Be24(x[0], x[1], 0) == u * 256 && 0 <= u < 0x1_0000;
    LettersAre(u * 256);
    hide *;
    TwoByteSextets(u);
  }

  /** The letters of 16 bits, shifted as the encoder does and as a 24-bit group. */
  lemma TwoByteSextets(u: int)
    requires 0 <= u < 0x1_0000
    ensures u * 64 / 0x1_0000 % 64 == u * 256 / 0x4_0000
    ensures u * 64 / 1024 % 64 == u * 256 / 0x1000 % 64
    ensures u * 64 / 16 % 64 == u * 256 / 64 % 64
  {
    DropByte(u, 0, 1024);
    DropByte(u, 0, 16);
    assert u * 64 / 0x1_0000 == u / 1024 && u * 64 / 1024 == u / 16 && u * 64 / 16 == u * 4 && u * 256 / 64 == u * 4;
  }

  lemma ThreeSextets(x: seq<byte>)
    requires |x| == 3
    ensures var u, v := Unsigned(x), Be24(x[0], x[1], x[2]);
            && 0 <= u == v < 0x100_0000 && u * 64 / 0x100_0000 % 64 == v / 0x4_0000
            && u * 64 / 0x4_0000 % 64 == v / 0x1000 % 64 && u * 64 / 0x1000 % 64 == v / 64 % 64
            && u * 64 / 64 % 64 == v % 64
    ensures x[3..] == []
  {
    hide *;
    Unsigned3(x);
    Be24Bound(x[0], x[1], x[2]);
    SextetsOf(Be24(x[0], x[1], x[2]));
  }

  lemma Be24Bound(a: byte, b: byte, c: byte)
    ensures 0 <= Be24(a, b, c) < 0x100_0000
  {
  }

  lemma SextetsOf(v: int)
    requires 0 <= v < 0x100_0000
    ensures v * 64 / 0x100_0000 % 64 == v / 0x4_0000 && v * 64 / 0x4_0000 % 64 == v / 0x1000 % 64
    ensures v * 64 / 0x1000 % 64 == v / 64 % 64 && v * 64 / 64 % 64 == v % 64
  {
    DropSextet(v, 0x4_0000);
    DropSextet(v, 0x1000);
    DropSextet(v, 64);
    assert 0 <= v / 0x4_0000 < 64;
  }

  lemma DropSextet(v: int, m: int)
    requires v >= 0 && m > 0
    ensures v * 64 / (64 * m) == v / m
  {
    var q, r := v / m, v % m;
    assert v == q * m + r;
    assert v * 64 == q * (64 * m) + 64 * r;
    ModUnique(v * 64, 64 * m, q, 64 * r);
  }

  lemma DropByte(v: int, d: byte, m: int)
    requires v >= 0 && m > 0
    ensures (v * 256 + d) / (256 * m) == v / m
  {
    var q, r := v / m, v % m;
    assert v == q * m + r;
    assert v * 256 + d == q * (256 * m) + (256 * r + d);
    ModUnique(v * 256 + d, 256 * m, q, 256 * r + d);
  }

  /** Four letters from 32 bits of which the last 8 are not used. */
  lemma TopLetters(a: byte, b: byte, c: byte, d: byte)
    ensures var bits, v := Be32(a, b, c, d), Be24(a, b, c);
            && 0 <= v < 0x100_0000 && bits / 0x400_0000 == v / 0x4_0000 && bits / 0x10_0000 % 64 == v / 0x1000 % 64
            && bits / 0x4000 % 64 == v / 64 % 64 && bits / 256 % 64 == v % 64
  {
    var bits, v := Be32(a, b, c, d), Be24(a, b, c);
    assert bits == v * 256 + d && 0 <= v < 0x100_0000;
    hide Be32, Be24;
    DropByte(v, d, 1);
    DropByte(v, d, 64);
    DropByte(v, d, 0x1000);
    DropByte(v, d, 0x4_0000);
  }

  lemma Emitted(was: seq<byte>, done: seq<byte>, c: byte)
    requires |done| < |was|
    ensures Overwrite(was, 0, done)[|done| := c] == Overwrite(was, 0, done + [c])
  {
  }

  /** `*dst++ = c` */
  method Emit(out: array<byte>, dst: nat, c: byte, ghost was: seq<byte>, ghost done: seq<byte>)
    requires dst == |done| < out.Length == |was| && out[..] == Overwrite(was, 0, done)
    modifies out
    ensures out[..] == Overwrite(was, 0, done + [c])
  {
    Emitted(was, done, c);
    ghost var before := out[..];
    out[dst] := c;
    assert out[..] == before[dst := c];
  }

  method EmitGroup(out: array<byte>, dst: nat, bits: nat, ghost v: int, ghost was: seq<byte>, ghost done: seq<byte>)
    requires dst == |done| && dst + 4 <= out.Length == |was| && out[..] == Overwrite(was, 0, done)
    requires 0 <= v < 0x100_0000 && bits / 0x400_0000 == v / 0x4_0000 && bits / 0x10_0000 % 64 == v / 0x1000 % 64
    requires bits / 0x4000 % 64 == v / 64 % 64 && bits / 256 % 64 == v % 64
    modifies out
    ensures out[..] == Overwrite(was, 0, done + Letters(v))
  {
    hide Overwrite, Letter;
    ghost var l := Letters(v);
    Emit(out, dst, Letter(bits / 0x400_0000), was, done);
    Emit(out, dst + 1, Letter(bits / 0x10_0000 % 64), was, done + [l[0]]);
    Emit(out, dst + 2, Letter(bits / 0x4000 % 64), was, done + [l[0]] + [l[1]]);
    Emit(out, dst + 3, Letter(bits / 256 % 64), was, done + [l[0]] + [l[1]] + [l[2]]);
    assert done + [l[0]] + [l[1]] + [l[2]] + [l[3]] == done + l;
  }

  /** srs_av_base64_encode. It refuses inputs of a quarter of 2^32 bytes and too small buffers, and otherwise writes the
      encoding and a terminator, nothing else. */
  method AvBase64Encode(out: array<byte>, outSize: nat, inp: array<byte>, inSize: nat) returns (ok: bool)
    requires out != inp && outSize <= out.Length && inSize <= inp.Length
    modifies out
    ensures ok <==> inSize < 0x3fff_ffff && outSize >= Base64Size(inSize)
    ensures !ok ==> out[..] == old(out[..])
    ensures ok ==> var coded := Encode(inp[..inSize]) + [0];
                   |coded| <= outSize && out[..] == Overwrite(old(out[..]), 0, coded)
  {
    if inSize >= 0x3fff_ffff || outSize < Base64Size(inSize) {
      return false;
    }
    EncodeLength(inp[..inSize]);
    EncodeInto(out, inp, inSize);
    ok := true;
  }

  /** The loops of the encoder, when there is room. */
  method EncodeInto(out: array<byte>, inp: array<byte>, inSize: nat)
    requires out != inp && inSize <= inp.Length && |Encode(inp[..inSize])| + 1 <= out.Length
    modifies out
    ensures out[..] == Overwrite(old(out[..]), 0, Encode(inp[..inSize]) + [0])
  {
    hide *;
    ghost var was, x := out[..], inp[..inSize];
    OverwriteNothing(was, 0);
    ghost var done: seq<byte> := [];
    var i, dst := 0, 0;
    assert x[0..] == x && [] + Encode(x) == Encode(x);
    while inSize - i > 3
      invariant 0 <= i <= inSize && dst == |done| && dst % 4 == 0 && dst <= out.Length
      invariant out[..] == Overwrite(was, 0, done) && done + Encode(x[i..]) == Encode(x)
      decreases inSize - i
    {
      done := EncodeThree(out, dst, inp, i, inSize, was, done, x);
      i := i + 3;
      dst := dst + 4;
    }
    assert x[i..] == inp[i..inSize];
    EncodeLast(out, dst, inp, i, inSize, was, done);
  }

  lemma EncodeGroup(x: seq<byte>)
    requires |x| > 2
    ensures var v := Be24(x[0], x[1], x[2]); 0 <= v < 0x100_0000 && Encode(x) == Letters(v) + Encode(x[3..])
  {
  }

  lemma Be32NotNegative(a: byte, b: byte, c: byte, d: byte)
    ensures Be32(a, b, c, d) >= 0
  {
  }

  /** Three bytes, read as part of four, become four letters. */
  method EncodeThree(out: array<byte>, dst: nat, inp: array<byte>, i: nat, inSize: nat, ghost was: seq<byte>,
                     ghost done: seq<byte>, ghost x: seq<byte>)
    returns (ghost now: seq<byte>)
    requires out != inp && i + 3 < inSize <= inp.Length && x == inp[..inSize] && |was| == out.Length
    requires dst == |done| && |Encode(x)| <= out.Length
    requires done + Encode(x[i..]) == Encode(x) && out[..] == Overwrite(was, 0, done)
    modifies out
    ensures |now| == |done| + 4 && |now| <= |was| && out[..] == Overwrite(was, 0, now)
    ensures now + Encode(x[i + 3..]) == Encode(x)
  {
    hide Overwrite, Encode, Letters, Be24, Be32;
    ghost var rest := x[i..];
    TopLetters(inp[i], inp[i + 1], inp[i + 2], inp[i + 3]);
    var bits := Be32(inp[i], inp[i + 1], inp[i + 2], inp[i + 3]);
    Be32NotNegative(inp[i], inp[i + 1], inp[i + 2], inp[i + 3]);
    ghost var v := Be24(inp[i], inp[i + 1], inp[i + 2]);
    assert rest[0] == inp[i] && rest[1] == inp[i + 1] && rest[2] == inp[i + 2] && rest[3..] == x[i + 3..];
    EncodeGroup(rest);
    assert done + (Letters(v) + Encode(rest[3..])) == (done + Letters(v)) + Encode(rest[3..]);
    assert dst + 4 <= |Encode(x)|;
    EmitGroup(out, dst, bits, v, was, done);
    now := done + Letters(v);
  }

  /** The last bytes as one number. */
  method LastBits(inp: array<byte>, from: nat, inSize: nat) returns (bits: nat, shift: int)
    requires from <= inSize <= inp.Length
    ensures bits == Unsigned(inp[from..inSize]) && shift == 8 * (inSize - from)
  {
    ghost var rest := inp[from..inSize];
    var i := from;
    bits, shift := 0, 0;
    while i < inSize
      invariant from <= i <= inSize && shift == 8 * (i - from) && bits == Unsigned(rest[..i - from])
    {
      assert rest[..i - from + 1][..i - from] == rest[..i - from];
      bits := bits * 256 + inp[i];
      i := i + 1;
      shift := shift + 8;
    }
    assert rest[..inSize - from] == rest;
  }

  method EmitSixes(out: array<byte>, at: nat, bits: nat, bitCount: int, ghost was: seq<byte>, ghost before: seq<byte>)
    returns (dst: nat)
    requires at == |before| && at + |Sixes(bits, bitCount)| <= out.Length == |was|
             && out[..] == Overwrite(was, 0, before)
    modifies out
    ensures dst == at + |Sixes(bits, bitCount)| && out[..] == Overwrite(was, 0, before + Sixes(bits, bitCount))
  {
    hide Overwrite, Letter, Pow2;
    ghost var sixes, done := Sixes(bits, bitCount), before;
    var shift := bitCount;
    dst := at;
    while shift > 0
      invariant dst == |done| && done + Sixes(bits, shift) == before + sixes
      invariant out[..] == Overwrite(was, 0, done)
      decreases shift
    {
      var c := Letter(bits * 64 / Pow2(shift) % 64);
      assert done + ([c] + Sixes(bits, shift - 6)) == (done + [c]) + Sixes(bits, shift - 6);
      assert |done + Sixes(bits, shift)| == |before + sixes|;
      Emit(out, dst, c, was, done);
      done := done + [c];
      dst := dst + 1;
      shift := shift - 6;
    }
    assert done == before + sixes;
  }

  method EmitPads(out: array<byte>, at: nat, ghost was: seq<byte>, ghost before: seq<byte>) returns (dst: nat)
    requires at == |before| && at + (4 - at % 4) % 4 <= out.Length == |was| && out[..] == Overwrite(was, 0, before)
    modifies out
    ensures dst == at + (4 - at % 4) % 4 && out[..] == Overwrite(was, 0, before + Pads((4 - at % 4) % 4))
  {
    hide Overwrite;
    ghost var n := 0;
    dst := at;
    assert before + [] == before;
    while dst % 4 != 0
      invariant dst == at + n && n <= (4 - at % 4) % 4 && out[..] == Overwrite(was, 0, before + Pads(n))
      decreases (4 - at % 4) % 4 - n
    {
      Emit(out, dst, PAD, was, before + Pads(n));
      assert before + (Pads(n) + [PAD]) == before + Pads(n) + [PAD];
      dst := dst + 1;
      n := n + 1;
    }
  }

  /** The last bytes, the pads and the terminator. */
  method EncodeLast(out: array<byte>, at: nat, inp: array<byte>, from: nat, inSize: nat, ghost was: seq<byte>,
                    ghost before: seq<byte>)
    requires out != inp && from <= inSize <= inp.Length && inSize - from <= 3
    requires at == |before| && at % 4 == 0 && |was| == out.Length
    requires at + |Encode(inp[from..inSize])| + 1 <= out.Length && out[..] == Overwrite(was, 0, before)
    modifies out
    ensures out[..] == Overwrite(was, 0, before + Encode(old(inp[from..inSize])) + [0])
  {
    hide Overwrite, Sixes, Encode, Unsigned, Pads;
    var bits, shift := LastBits(inp, from, inSize);
    ghost var sixes := Sixes(bits, shift);
    LastBytes(inp[from..inSize]);
    SixesLength(bits, shift);
    ghost var coded := Encode(inp[from..inSize]);
    assert |coded| == |sixes| + (4 - |sixes|) % 4;
    var dst := EmitSixes(out, at, bits, shift, was, before);
    assert (4 - dst % 4) % 4 == (4 - |sixes|) % 4;
    dst := EmitPads(out, dst, was, before + sixes);
    assert before + sixes + Pads((4 - |sixes|) % 4) == before + coded;
    Emit(out, dst, 0, was, before + coded);
  }

  // ---------- the decoder ----------

  /** Up to four letters: how many there are, their value, and the table entry that stopped the step. */
  function Steps(s: seq<byte>): (r: (nat, int, byte))
    requires Terminated(s)
    ensures r.0 <= 4 && r.1 >= 0 && (r.0 < 4 ==> r.2 >= 64)
  {
    FirstFour(s);
    if Map2(s[0]) >= 64 then (0, 0, Map2(s[0]))
    else if Map2(s[1]) >= 64 then (1, Map2(s[0]) as int, Map2(s[1]))
    else
      var v := Map2(s[0]) as int * 64 + Map2(s[1]);
      if Map2(s[2]) >= 64 then (2, v, Map2(s[2]))
      else
        var w := v * 64 + Map2(s[2]);
        if Map2(s[3]) >= 64 then (3, w, Map2(s[3])) else (4, w * 64 + Map2(s[3]), Map2(s[3]))
  }

  function Three(v: int): (r: seq<byte>)
    requires 0 <= v < 0x100_0000
    ensures |r| == 3
  {
    [v / 0x1_0000, v / 256 % 256, v % 256]
  }

  lemma DecodeBySteps(s: seq<byte>)
    requires Terminated(s)
    ensures var t := Steps(s);
            && (t.0 == 0 || t.0 == 1 ==> Decode(s) == Decoded([], t.2 == 0xfe))
            && (t.0 == 2 ==> t.1 < 0x1000 && Decode(s) == Decoded([t.1 / 16], t.2 == 0xfe))
            && (t.0 == 3 ==> t.1 < 0x4_0000 && Decode(s) == Decoded([t.1 / 1024, t.1 / 4 % 256], t.2 == 0xfe))
            && (t.0 == 4 ==>
                  && t.1 < 0x100_0000 && |s| >= 4 && Terminated(s[4..])
                  && var r := Decode(s[4..]);
                     Decode(s) == Decoded(Three(t.1) + r.bytes, r.valid))
  {
    FirstFour(s);
    hide Map2, Terminated;
  }

  /** The four BASE64_DEC_STEPs. */
  method TakeSteps(inp: array<byte>, at: nat) returns (k: nat, v: int, bits: byte)
    requires at <= inp.Length && Terminated(inp[at..])
    ensures (k, v, bits) == Steps(inp[at..])
  {
    hide Map2;
    ghost var s := inp[at..];
    FirstFour(s);
    bits := Map2(inp[at]);
    if bits >= 64 {
      return 0, 0, bits;
    }
    v := bits;
    bits := Map2(inp[at + 1]);
    if bits >= 64 {
      return 1, v, bits;
    }
    v := v * 64 + bits;
    bits := Map2(inp[at + 2]);
    if bits >= 64 {
      return 2, v, bits;
    }
    v := v * 64 + bits;
    bits := Map2(inp[at + 3]);
    if bits >= 64 {
      return 3, v, bits;
    }
    return 4, v * 64 + bits, bits;
  }

  lemma LastBytesOf(v: int)
    requires v >= 0
    ensures v < 0x1000 ==> v / 16 % 256 == v / 16
    ensures v < 0x4_0000 ==> v / 1024 % 256 == v / 1024
    ensures v * 4 / 16 % 256 == v / 4 % 256
  {
  }

  /** The labels out3 to out0. */
  method Finish(out: array<byte>, at: nat, k: nat, value: int, bits: byte, ghost s: seq<byte>) returns (r: int)
    requires Terminated(s) && k < 4 && (k, value, bits) == Steps(s) && at + |Decode(s).bytes| <= out.Length
    modifies out
    ensures var d := Decode(s);
            && r == (if d.valid then at + |d.bytes| else -1)
            && out[..] == Overwrite(old(out[..]), at, d.bytes)
  {
    DecodeBySteps(s);
    LastBytesOf(value);
    assert bits == 0xfe || bits == 0xff by { FirstFour(s); }
    hide Steps, Decode, Terminated;
    var dst, v := at, value;
    if k == 3 {
      out[dst] := v / 1024 % 256;
      dst := dst + 1;
      v := v * 4;
    }
    if k >= 2 {
      out[dst] := v / 16 % 256;
      dst := dst + 1;
    }
    r := if bits % 2 == 1 then -1 else dst;
  }

  /** The first byte that is no letter. */
  function EndOf(s: seq<byte>): byte
    requires Terminated(s)
  {
    if Map2(s[0]) >= 64 then Map2(s[0]) else EndOf(s[1..])
  }

  /** With no bytes left, at most one letter is. */
  lemma NoBytesLeft(s: seq<byte>)
    requires Terminated(s) && Decode(s).bytes == []
    ensures Decode(s).valid <==> EndOf(s) == 0xfe
  {
    FirstFour(s);
    hide Map2;
    if Map2(s[0]) < 64 {
      assert s[1..][0] == s[1];
    }
  }

  /** The endless loop behind a full buffer. */
  method SkipLetters(inp: array<byte>, from: nat) returns (bits: byte)
    requires from <= inp.Length && Terminated(inp[from..])
    ensures bits == EndOf(inp[from..])
  {
    var at := from;
    while true
      invariant from <= at <= inp.Length && Terminated(inp[at..]) && EndOf(inp[at..]) == EndOf(inp[from..])
      decreases inp.Length - at
    {
      assert inp[at..][1..] == inp[at + 1..];
      bits := Map2(inp[at]);
      if bits >= 64 {
        return;
      }
      at := at + 1;
    }
  }

  /** What is out and what is still to come make up the result. */
  ghost predicate Underway(d: Decoded, done: seq<byte>, s: seq<byte>) {
    Terminated(s) && d == Decoded(done + Decode(s).bytes, Decode(s).valid)
  }

  lemma UnderwayFirst(s: seq<byte>)
    requires Terminated(s)
    ensures Underway(Decode(s), [], s)
  {
    hide Decode, Terminated;
    assert [] + Decode(s).bytes == Decode(s).bytes;
  }

  lemma UnderwayEnds(d: Decoded, done: seq<byte>, s: seq<byte>)
    requires Underway(d, done, s)
    ensures Terminated(s)
  {
    hide Decode, Terminated;
  }

  lemma UnderwayNext(d: Decoded, done: seq<byte>, s: seq<byte>)
    requires Underway(d, done, s) && Steps(s).0 == 4
    ensures |s| >= 4
    ensures var v := Steps(s).1;
            0 <= v < 0x100_0000 && Underway(d, done + Three(v), s[4..])
            && |done| + 3 <= |d.bytes|
  {
    DecodeBySteps(s);
    hide Steps, Decode;
    var v := Steps(s).1;
    assert done + (Three(v) + Decode(s[4..]).bytes)
           == done + Three(v) + Decode(s[4..]).bytes;
  }

  /** Three bytes, and with AV_WN32 a zero behind them, as long as that stays inside the buffer. */
  method StoreGroup(out: array<byte>, dst: nat, v: int, outSize: nat, ghost done: seq<byte>)
    requires 0 <= v < 0x100_0000 && dst + 3 <= outSize <= out.Length && out[..dst] == done
    modifies out
    ensures out[..dst + 3] == done + Three(v)
    ensures out[outSize..] == old(out[outSize..])
  {
    ghost var was := out[..];
    out[dst] := v / 0x1_0000;
    out[dst + 1] := v / 256 % 256;
    out[dst + 2] := v % 256;
    if outSize - dst > 3 {
      out[dst + 3] := 0;
    }
  }

  /** srs_av_base64_decode. When the decoded bytes fit, they are in front of the buffer, their number or -1 is the
      result, and nothing is written behind the buffer. */
  method AvBase64Decode(out: array<byte>, inp: array<byte>, outSize: nat) returns (r: int)
    requires out != inp && outSize <= out.Length && Terminated(inp[..]) && |Decode(inp[..]).bytes| <= outSize
    modifies out
    ensures var d := Decode(old(inp[..]));
            && r == (if d.valid then |d.bytes| else -1)
            && out[..|d.bytes|] == d.bytes && out[outSize..] == old(out[outSize..])
  {
    hide *;
    ghost var d, done := Decode(inp[..]), [];
    var dst, at := 0, 0;
    assert inp[0..] == inp[..];
    UnderwayFirst(inp[0..]);
    while outSize - dst > 3
      invariant at <= inp.Length && dst == |done| <= outSize && Underway(d, done, inp[at..])
      invariant |d.bytes| <= outSize
      invariant out[..dst] == done && out[outSize..] == old(out[outSize..])
      decreases outSize - dst
    {
      UnderwayEnds(d, done, inp[at..]);
      var k, v, bits := TakeSteps(inp, at);
      if k < 4 {
        r := FinishIn(out, dst, k, v, bits, outSize, d, done, inp[at..]);
        return;
      }
      UnderwayNext(d, done, inp[at..]);
      assert inp[at..][4..] == inp[at + 4..];
      StoreGroup(out, dst, v, outSize, done);
      done := done + Three(v);
      dst := dst + 3;
      at := at + 4;
    }
    UnderwayEnds(d, done, inp[at..]);
    if outSize - dst != 0 {
      var k, v, bits := TakeSteps(inp, at);
      if k < 4 {
        r := FinishIn(out, dst, k, v, bits, outSize, d, done, inp[at..]);
        return;
      }
      UnderwayNext(d, done, inp[at..]);
      assert inp[at..][4..] == inp[at + 4..];
      StoreGroup(out, dst, v, outSize, done);
      done := done + Three(v);
      dst := dst + 3;
      at := at + 4;
    }
    FullBuffer(d, done, inp[at..], outSize);
    var bits := SkipLetters(inp, at);
    r := if bits % 2 == 1 then -1 else dst;
  }

  lemma FullBuffer(d: Decoded, done: seq<byte>, s: seq<byte>, outSize: nat)
    requires Underway(d, done, s) && |done| == outSize >= |d.bytes|
    ensures d.bytes == done && Terminated(s) && (d.valid <==> EndOf(s) == 0xfe)
            && (EndOf(s) == 0xfe || EndOf(s) == 0xff)
  {
    hide Decode, EndOf;
    assert |Decode(s).bytes| == 0;
    assert done + [] == done;
    NoBytesLeft(s);
    EndOfIs(s);
  }

  lemma {:induction false} EndOfIs(s: seq<byte>)
    requires Terminated(s)
    ensures EndOf(s) == 0xfe || EndOf(s) == 0xff
  {
    if Map2(s[0]) < 64 { EndOfIs(s[1..]); }
  }

  /** The last letters, seen from the whole result. */
  method FinishIn(out: array<byte>, dst: nat, k: nat, v: int, bits: byte, outSize: nat, ghost d: Decoded,
                  ghost done: seq<byte>, ghost s: seq<byte>) returns (r: int)
    requires Underway(d, done, s) && k < 4 && Terminated(s) && (k, v, bits) == Steps(s)
    requires dst == |done| && |d.bytes| <= outSize <= out.Length && out[..dst] == done
    modifies out
    ensures r == (if d.valid then |d.bytes| else -1)
    ensures out[..|d.bytes|] == d.bytes && out[outSize..] == old(out[outSize..])
  {
    hide Steps, Decode;
    r := Finish(out, dst, k, v, bits, s);
  }

  /** Main result in buffers: what the encoder writes, wherever its buffer ends, the decoder takes back. */
  method EncodeThenDecode(inp: array<byte>, inSize: nat, coded: array<byte>, out: array<byte>, outSize: nat)
    returns (r: int)
    requires inp != coded && coded != out && inSize <= inp.Length && inSize <= outSize <= out.Length
    requires inSize < 0x3fff_ffff && Base64Size(inSize) <= coded.Length
    modifies coded, out
    ensures r == inSize && out[..inSize] == old(inp[..inSize]) && out[outSize..] == old(out[outSize..])
  {
    hide *;
    ghost var x, was := inp[..inSize], coded[..];
    var ok := AvBase64Encode(coded, coded.Length, inp, inSize);
    CodedBuffer(was, Encode(x) + [0]);
    ghost var rest := was[|Encode(x)| + 1..];
    assert coded[..] == Encode(x) + [0] + rest;
    RoundTrip(x, rest);
    r := AvBase64Decode(out, coded, outSize);
  }

  lemma CodedBuffer(was: seq<byte>, s: seq<byte>)
    requires |s| <= |was|
    ensures Overwrite(was, 0, s) == s + was[|s|..]
  {
  }

  // ---------- any string ----------

  /** A letter of the alphabet: A-Z, a-z, 0-9, + and /. */
  predicate IsLetter(c: byte) { 65 <= c <= 90 || 97 <= c <= 122 || 48 <= c <= 57 || c == 43 || c == 47 }

  /** How many letters a string starts with. */
  function LettersIn(s: seq<byte>): (n: nat)
    ensures n <= |s|
  {
    if s == [] || !IsLetter(s[0]) then 0 else 1 + LettersIn(s[1..])
  }

  lemma LetterIs(c: byte)
    ensures Map2(c) < 64 <==> IsLetter(c)
    ensures Map2(c) == 0xfe <==> c == 0 || c == PAD
  {
  }

  /** What four letters do to the number of letters. */
  lemma LettersInFour(s: seq<byte>)
    requires |s| >= 4 && IsLetter(s[0]) && IsLetter(s[1]) && IsLetter(s[2]) && IsLetter(s[3])
    ensures LettersIn(s) == 4 + LettersIn(s[4..])
  {
    hide IsLetter;
    assert s[1..][1..] == s[2..] && s[2..][1..] == s[3..] && s[3..][1..] == s[4..];
    assert LettersIn(s) == 1 + LettersIn(s[1..]) && LettersIn(s[1..]) == 1 + LettersIn(s[2..]);
    assert LettersIn(s[2..]) == 1 + LettersIn(s[3..]) && LettersIn(s[3..]) == 1 + LettersIn(s[4..]);
  }

  lemma {:induction false} FewAt(s: seq<byte>)
    requires Terminated(s)
    ensures var n := LettersIn(s);
            && n < |s| && !IsLetter(s[n]) && (forall i :: 0 <= i < n ==> IsLetter(s[i]))
    decreases |s|
  {
    LetterIs(s[0]);
    hide IsLetter, Map2;
    if IsLetter(s[0]) {
      FewAt(s[1..]);
      assert forall i :: 0 < i < |s| ==> s[i] == s[1..][i - 1];
    }
  }

  /** Main result for any string that ends: it is valid exactly when the first byte that is no letter is a pad or the
      end, and it gives three bytes for every four letters, and one or two for the last two or three. */
  lemma {:induction false} DecodesExactly(s: seq<byte>)
    requires Terminated(s)
    ensures LettersIn(s) < |s|
    ensures Decode(s).valid <==> s[LettersIn(s)] == 0 || s[LettersIn(s)] == PAD
    ensures |Decode(s).bytes| == LettersIn(s) / 4 * 3 + (if LettersIn(s) % 4 == 0 then 0 else LettersIn(s) % 4 - 1)
    decreases |s|
  {
    FewAt(s);
    DecodesBy(s);
    hide Decode, IsLetter, Map2;
    if LettersIn(s) >= 4 {
      assert IsLetter(s[0]) && IsLetter(s[1]) && IsLetter(s[2]) && IsLetter(s[3]);
      LettersInFour(s);
      DecodesExactly(s[4..]);
      var n := LettersIn(s[4..]);
      assert s[4..][n] == s[4 + n];
      assert (4 + n) / 4 == n / 4 + 1 && (4 + n) % 4 == n % 4;
    }
  }

  /** The decoder by the number of letters. */
  lemma DecodesBy(s: seq<byte>)
    requires Terminated(s)
    ensures var n := LettersIn(s);
            && n < |s|
            && (n < 4 ==> |Decode(s).bytes| == (if n == 0 then 0 else n - 1)
                          && (Decode(s).valid <==> s[n] == 0 || s[n] == PAD))
            && (n >= 4 ==> |s| >= 4 && Terminated(s[4..]) && |Decode(s).bytes| == 3 + |Decode(s[4..]).bytes|
                           && (Decode(s).valid <==> Decode(s[4..]).valid))
  {
    FewAt(s);
    FirstFour(s);
    var n := LettersIn(s);
    LetterIs(s[0]);
    if |s| > 1 { LetterIs(s[1]); }
    if |s| > 2 { LetterIs(s[2]); }
    if |s| > 3 { LetterIs(s[3]); }
    hide Map2, IsLetter, LettersIn, Terminated;
    assert n >= 1 ==> IsLetter(s[0]);
    assert n >= 2 ==> IsLetter(s[1]);
    assert n >= 3 ==> IsLetter(s[2]);
    assert n >= 4 ==> IsLetter(s[3]);
  }
}
