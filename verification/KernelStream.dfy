/** SrsStream: a cursor over a byte buffer. An assertion of the source is a precondition here. */
module KernelStream {
  import opened Bytes

  /** `b` with the bytes from `start` replaced by `s`. */
  function Overwrite(b: seq<byte>, start: nat, s: seq<byte>): (r: seq<byte>)
    requires start + |s| <= |b|
    ensures |r| == |b|
  {
    b[..start] + s + b[start + |s|..]
  }

  lemma OverwriteTwice(b: seq<byte>, start: nat, s: seq<byte>, t: seq<byte>)
    requires start + |s| + |t| <= |b|
    ensures Overwrite(Overwrite(b, start, s), start + |s|, t) == Overwrite(b, start, s + t)
  {
  }

  /** Bytes behind the written ones stay. */
  lemma OverwriteKeeps(b: seq<byte>, start: nat, s: seq<byte>, from: nat, to: nat)
    requires start + |s| <= from <= to <= |b|
    ensures Overwrite(b, start, s)[from..to] == b[from..to]
  {
  }

  /** Bytes that already hold `t` need not be written. */
  lemma OverwriteSkipped(b: seq<byte>, start: nat, s: seq<byte>, t: seq<byte>)
    requires start + |s| + |t| <= |b| && b[start + |s|..start + |s| + |t|] == t
    ensures Overwrite(b, start, s) == Overwrite(b, start, s + t)
  {
    assert b[start + |s|..] == t + b[start + |s| + |t|..];
  }

  /** One more byte of `s`. */
  lemma OverwriteNext(b: seq<byte>, start: nat, s: seq<byte>, i: nat)
    requires start + |s| <= |b| && i < |s|
    ensures Overwrite(b, start, s[..i])[start + i := s[i]] == Overwrite(b, start, s[..i + 1])
  {
    assert s[..i + 1] == s[..i] + [s[i]];
  }

  lemma OverwriteNothing(b: seq<byte>, start: nat)
    requires start <= |b|
    ensures Overwrite(b, start, []) == b
  {
  }

  lemma OverwriteAll(b: seq<byte>, s: seq<byte>)
    requires |s| == |b|
    ensures Overwrite(b, 0, s) == s
  {
  }

  class SrsStream {
    var bytes: array<byte>
    var nbBytes: int
    var p: int

    constructor ()
      ensures nbBytes == 0 && p == 0 && fresh(bytes)
    {
      bytes := new byte[0];
      nbBytes := 0;
      p := 0;
    }

    /** Attach a buffer; refused without one or with a size that is not positive. */
    method Initialize(b: array?<byte>, nb: int) returns (ok: bool)
      requires b != null ==> nb <= b.Length
      modifies this
      ensures ok <==> b != null && nb > 0
      ensures ok ==> bytes == b && nbBytes == nb && p == 0
      ensures !ok ==> bytes == old(bytes) && nbBytes == old(nbBytes) && p == old(p)
    {
      if b == null || nb <= 0 {
        return false;
      }
      nbBytes := nb;
      bytes := b;
      p := 0;
      return true;
    }

    ghost predicate Valid()
      reads this
    {
      0 <= nbBytes <= bytes.Length && 0 <= p
    }

    /** The bytes that the cursor moves over. */
    ghost function Data(): seq<byte>
      requires Valid()
      reads this, bytes
    {
      bytes[..nbBytes]
    }

    predicate Empty()
      reads this
    {
      p >= nbBytes
    }

    /** `require`, which asserts that its argument is positive. */
    predicate Require(n: int)
      requires n > 0
      reads this
    {
      n <= nbBytes - p
    }

    method Skip(n: int)
      modifies this`p
      ensures p == old(p) + n
    {
      p := p + n;
    }

    method Read1() returns (v: byte)
      requires Valid() && Require(1)
      modifies this`p
      ensures Valid() && Data() == old(Data())
      ensures p == old(p) + 1 && v == old(Data()[p])
    {
      v := bytes[p];
      p := p + 1;
    }

    /** Two bytes, unsigned; callers that need the sign of int16_t apply Signed16. */
    method Read2() returns (v: int)
      requires Valid() && Require(2)
      modifies this`p
      ensures Valid() && Data() == old(Data())
      ensures p == old(p) + 2 && v == old(Be16(Data()[p], Data()[p + 1]))
    {
      v := Be16(bytes[p], bytes[p + 1]);
      p := p + 2;
    }

    method Read3() returns (v: int)
      requires Valid() && Require(3)
      modifies this`p
      ensures Valid() && Data() == old(Data())
      ensures p == old(p) + 3 && v == old(Be24(Data()[p], Data()[p + 1], Data()[p + 2]))
    {
      v := Be24(bytes[p], bytes[p + 1], bytes[p + 2]);
      p := p + 3;
    }

    /** Four bytes, unsigned. */
    method Read4() returns (v: int)
      requires Valid() && Require(4)
      modifies this`p
      ensures Valid() && Data() == old(Data())
      ensures p == old(p) + 4 && v == old(Be32(Data()[p], Data()[p + 1], Data()[p + 2], Data()[p + 3]))
    {
      v := Be32(bytes[p], bytes[p + 1], bytes[p + 2], bytes[p + 3]);
      p := p + 4;
    }

    method ReadBytes(n: int) returns (s: seq<byte>)
      requires n > 0 && Valid() && Require(n)
      modifies this`p
      ensures Valid() && Data() == old(Data())
      ensures p == old(p) + n && s == old(Data()[p..p + n])
    {
      s := bytes[p..p + n];
      p := p + n;
    }

    /** Write the next bytes; write_1bytes to write_8bytes and write_bytes are this with a fixed length. */
    method Write(s: seq<byte>)
      requires Valid() && p + |s| <= nbBytes
      modifies this`p, bytes
      ensures p == old(p) + |s|
      ensures bytes[..] == Overwrite(old(bytes[..]), old(p), s)
    {
      hide Overwrite;
      ghost var was, start := bytes[..], p;
      OverwriteNothing(was, start);
      for i := 0 to |s|
        invariant p == start + i
        invariant bytes[..] == Overwrite(was, start, s[..i])
      {
        ghost var before := bytes[..];
        bytes[p] := s[i];
        assert bytes[..] == before[start + i := s[i]];
        OverwriteNext(was, start, s, i);
        p := p + 1;
      }
      assert s[..|s|] == s;
    }
  }
}
