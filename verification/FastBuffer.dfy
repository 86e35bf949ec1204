/**
 SrsFastBuffer: a receive buffer over one array with a read and an end position. What it shows its user is a queue over
 all bytes that the reader delivered: nothing is lost, repeated or reordered by moving, resetting or enlarging.
 */
module FastBuffer {
  import opened Bytes
  import opened KernelStream

  const DEFAULT_SIZE := 131072
  const MAX_SIZE := 262144

  /** ISrsBufferReader: delivers `source` in pieces of its own choice, and fails when the pieces are used up. */
  class BufferReader {
    var source: seq<byte>
    var sizes: seq<nat>

    constructor (source: seq<byte>, sizes: seq<nat>)
      ensures this.source == source && this.sizes == sizes
    {
      this.source := source;
      this.sizes := sizes;
    }

    /** Nothing more will come. */
    predicate Dry()
      reads this
    {
      sizes == [] || source == []
    }

    /** At least one byte and at most `size`, or an error. */
    method Read(buf: array<byte>, at: nat, size: int) returns (ok: bool, nread: nat)
      requires 0 < size && at + size <= buf.Length
      modifies this, buf
      ensures ok <==> !old(Dry())
      ensures !ok ==> Dry() && source == old(source) && buf[..] == old(buf[..])
      ensures ok ==> 0 < nread <= size && nread <= |old(source)| && source == old(source)[nread..]
      ensures ok ==> buf[..] == Overwrite(old(buf[..]), at, old(source)[..nread])
    {
      if Dry() {
        return false, 0;
      }
      nread := Min(if sizes[0] == 0 then 1 else sizes[0], Min(size, |source|));
      sizes := sizes[1..];
      hide Overwrite;
      ghost var was, s := buf[..], source[..nread];
      OverwriteNothing(was, at);
      for i := 0 to nread
        invariant buf[..] == Overwrite(was, at, s[..i])
        invariant source == old(source)
      {
        ghost var before := buf[..];
        buf[at + i] := source[i];
        assert buf[..] == before[at + i := s[i]];
        OverwriteNext(was, at, s, i);
      }
      assert s[..nread] == s;
      source := source[nread..];
      ok := true;
    }
  }

  datatype GrowError = GrowOk | ReadFailed | Overflow

  class SrsFastBuffer {
    var buffer: array<byte>
    var nbBuffer: int
    var p: int
    var end: int
    /** All bytes that came from the reader. */
    ghost var received: seq<byte>

    /** buffer <= p <= end <= buffer + nb_buffer, and the bytes before `end` are the last ones received. */
    ghost predicate Valid()
      reads this, buffer
    {
      && buffer.Length == nbBuffer && 0 <= p <= end <= nbBuffer
      && end <= |received| && buffer[..end] == received[|received| - end..]
    }

    /** How many of the received bytes the user has taken. */
    ghost function Taken(): (n: int)
      requires Valid()
      reads this, buffer
      ensures 0 <= n <= |received|
    {
      |received| - (end - p)
    }

    /** The queue: received and not taken. */
    ghost function Held(): (s: seq<byte>)
      requires Valid()
      reads this, buffer
      ensures s == received[Taken()..]
    {
      HeldIsLast(buffer[..end], received, p);
      assert buffer[p..end] == buffer[..end][p..];
      buffer[p..end]
    }

    constructor ()
      ensures Valid() && received == [] && nbBuffer == DEFAULT_SIZE && fresh(buffer)
    {
      nbBuffer := DEFAULT_SIZE;
      buffer := new byte[DEFAULT_SIZE];
      p, end := 0, 0;
      received := [];
    }

    function Size(): int
      reads this
    {
      end - p
    }

    /** Only enlarges, and keeps the bytes and the positions. */
    method SetBuffer(bufferSize: int)
      requires Valid()
      modifies this
      ensures Valid() && received == old(received) && Taken() == old(Taken()) && p == old(p) && end == old(end)
      ensures buffer == old(buffer) || fresh(buffer)
      ensures nbBuffer == var wanted := Min(bufferSize, MAX_SIZE);
                          if wanted <= old(nbBuffer) then old(nbBuffer) else wanted
    {
      var nbResize := Min(bufferSize, MAX_SIZE);
      if nbResize <= nbBuffer {
        return;
      }
      var start, nbBytes := p, end - p;
      var bigger := new byte[nbResize];
      for i := 0 to nbBuffer
        invariant buffer == old(buffer) && nbBuffer == old(nbBuffer) && p == old(p) && end == old(end)
        invariant received == old(received) && buffer[..] == old(buffer[..])
        invariant bigger[..i] == buffer[..i]
      {
        bigger[i] := buffer[i];
      }
      assert bigger[..end] == bigger[..nbBuffer][..end] == buffer[..nbBuffer][..end] == buffer[..end];
      buffer := bigger;
      nbBuffer := nbResize;
      p := start;
      end := p + nbBytes;
    }

    method Read1Byte() returns (b: byte)
      requires Valid() && Size() >= 1
      modifies this`p
      ensures Valid() && Taken() == old(Taken()) + 1 && b == received[old(Taken())]
    {
      assert Held()[0] == received[Taken()..][0];
      b := buffer[p];
      p := p + 1;
    }

    method ReadSlice(size: int) returns (s: seq<byte>)
      requires Valid() && 0 <= size <= Size()
      modifies this`p
      ensures Valid() && Taken() == old(Taken()) + size && s == received[old(Taken())..old(Taken()) + size]
    {
      assert Held()[..size] == received[Taken()..][..size];
      s := buffer[p..p + size];
      assert s == Held()[..size];
      p := p + size;
    }

    /** Forwards or back; going back shows the same bytes again. */
    method Skip(size: int)
      requires Valid() && size <= Size() && 0 <= p + size
      modifies this`p
      ensures Valid() && Taken() == old(Taken()) + size
    {
      p := p + size;
    }

    /** memmove of the held bytes to the start. */
    method MoveToStart()
      requires Valid() && p < end
      modifies this`p, this`end, buffer
      ensures Valid() && Taken() == old(Taken()) && Size() == old(Size()) && p == 0
    {
      var from, n := p, end - p;
      ghost var held := buffer[p..end];
      assert held == received[|received| - n..] by { assert held == Held(); }
      for i := 0 to n
        invariant p == from && end == from + n && buffer.Length == nbBuffer
        invariant forall j :: 0 <= j < i ==> buffer[j] == held[j]
        invariant forall j :: i <= j < n ==> buffer[from + j] == held[j]
      {
        buffer[i] := buffer[from + i];
      }
      p := 0;
      end := n;
      assert buffer[..end] == held;
    }

    /** Make room behind the held bytes; false when even moving them does not give `required` bytes. */
    method MakeRoom(required: int) returns (ok: bool)
      requires Valid() && Size() < required && !(Size() == nbBuffer < required)
      modifies this`p, this`end, buffer
      ensures Valid() && Taken() == old(Taken()) && Size() == old(Size())
      ensures ok == (nbBuffer - Size() >= required)
      ensures ok ==> nbBuffer - end >= required
    {
      if nbBuffer - end < required {
        if end - p == 0 {
          p, end := 0, 0;
          assert received[|received|..] == [];
        } else {
          MoveToStart();
        }
        if nbBuffer - end < required {
          return false;
        }
      }
      ok := true;
    }

    /** Append what the reader gives until `required` bytes are held. On success they are; the received bytes only grow,
        and by exactly what the reader gave. Overflow is reported exactly when the held bytes and `required` more do
        not fit together. */
    method Grow(reader: BufferReader, required: int) returns (r: GrowError)
      requires Valid() && (Size() < required ==> !(Size() == nbBuffer < required))
      modifies this, buffer, reader
      ensures Valid() && buffer == old(buffer) && nbBuffer == old(nbBuffer) && Taken() == old(Taken())
      ensures received + reader.source == old(received + reader.source) && old(received) <= received
      ensures r == GrowOk <==> Size() >= required
      ensures r == ReadFailed ==> reader.Dry()
      ensures r == Overflow <==> old(Size()) < required && nbBuffer - old(Size()) < required
      ensures r == Overflow || old(Size()) >= required ==> received == old(received)
    {
      if end - p >= required {
        return GrowOk;
      }
      var room := MakeRoom(required);
      if !room {
        return Overflow;
      }
      var nbFree := nbBuffer - end;
      while end - p < required
        invariant Valid() && buffer == old(buffer) && nbBuffer == old(nbBuffer) && Taken() == old(Taken())
        invariant nbFree == nbBuffer - end && nbFree + (end - p) >= required
        invariant received + reader.source == old(received + reader.source) && old(received) <= received
        decreases required - (end - p)
      {
        var ok := ReadMore(reader, nbFree);
        if !ok {
          return ReadFailed;
        }
        nbFree := nbBuffer - end;
      }
      r := GrowOk;
    }

    /** One call of the reader, which always gets positive free space. */
    method ReadMore(reader: BufferReader, nbFree: int) returns (ok: bool)
      requires Valid() && 0 < nbFree == nbBuffer - end
      modifies this`end, this`received, buffer, reader
      ensures Valid() && Taken() == old(Taken()) && end >= old(end) && (ok ==> end > old(end))
      ensures received + reader.source == old(received + reader.source) && old(received) <= received
      ensures !ok ==> reader.Dry() && end == old(end)
    {
      ghost var was, before, source := buffer[..end], received, reader.source;
      ghost var all := buffer[..];
      var nread: nat;
      ok, nread := reader.Read(buffer, end, nbFree);
      if ok {
        ghost var more := source[..nread];
        assert buffer[..end + nread] == was + more;
        received := received + more;
        end := end + nread;
        assert received[|received| - end..] == before[|before| - (end - nread)..] + more;
        assert source == more + reader.source;
        assert before + more + reader.source == before + (more + reader.source);
      } else {
        assert all == buffer[..];
      }
    }
  }

  lemma HeldIsLast(b: seq<byte>, received: seq<byte>, p: int)
    requires 0 <= p <= |b| <= |received| && b == received[|received| - |b|..]
    ensures b[p..] == received[|received| - (|b| - p)..]
  {
  }

  function Joined(slices: seq<seq<byte>>): seq<byte> {
    if slices == [] then [] else Joined(slices[..|slices| - 1]) + slices[|slices| - 1]
  }

  /** A run of the buffer: take `n` bytes, growing first, or ask for a larger buffer. */
  datatype Op = Take(n: nat) | Enlarge(size: int)

  /** The capacity after set_buffer. */
  function Enlarged(capacity: int, size: int): int {
    var wanted := Min(size, MAX_SIZE); if wanted <= capacity then capacity else wanted
  }

  /** Nobody asks for more than the capacity that the buffer has by then. */
  predicate FitOps(ops: seq<Op>, capacity: int) {
    if ops == [] then true
    else if ops[0].Take? then ops[0].n <= capacity && FitOps(ops[1..], capacity)
    else FitOps(ops[1..], Enlarged(capacity, ops[0].size))
  }

  /** The sizes asked for. */
  function Sizes(ops: seq<Op>): seq<nat> {
    if ops == [] then [] else (if ops[0].Take? then [ops[0].n] else []) + Sizes(ops[1..])
  }

  function Lengths(slices: seq<seq<byte>>): (r: seq<nat>)
    ensures |r| == |slices|
  {
    seq(|slices|, i requires 0 <= i < |slices| => |slices[i]|)
  }

  /** What was taken so far is the front of what was received, and nothing of the reader's bytes is missing. */
  ghost predicate Queue(b: SrsFastBuffer, reader: BufferReader, slices: seq<seq<byte>>, all: seq<byte>)
    reads b, b.buffer, reader
  {
    b.Valid() && Joined(slices) == b.received[..b.Taken()] && b.received + reader.source == all
  }

  /** One slice. */
  method TakeSlice(b: SrsFastBuffer, reader: BufferReader, n: nat, ghost slices: seq<seq<byte>>, ghost all: seq<byte>)
    returns (r: GrowError, s: seq<byte>)
    requires Queue(b, reader, slices, all) && n <= b.nbBuffer
    modifies b, b.buffer, reader
    ensures b.buffer == old(b.buffer) && b.nbBuffer == old(b.nbBuffer)
    ensures r == GrowOk ==> |s| == n && Queue(b, reader, slices + [s], all)
    ensures r != GrowOk ==> Queue(b, reader, slices, all) && b.Size() < n
    ensures r == ReadFailed ==> reader.Dry()
    ensures r == Overflow ==> b.nbBuffer - b.Size() < n
  {
    ghost var before := b.received;
    s := [];
    r := b.Grow(reader, n);
    assert before[..b.Taken()] == b.received[..b.Taken()];
    if r == GrowOk {
      s := b.ReadSlice(n);
      assert (slices + [s])[..|slices|] == slices;
      assert Joined(slices + [s]) == b.received[..b.Taken()];
    }
  }

  /** Main result: over every run of grow, read_slice and set_buffer, and however the reader delivers, the slices
      taken, the bytes held and what the reader still has are the reader's bytes in order; a run without an error
      takes every size, and one with an error stops where the next size is neither held nor to be had. */
  method RunOps(b: SrsFastBuffer, reader: BufferReader, ops: seq<Op>) returns (slices: seq<seq<byte>>, r: GrowError)
    requires b.Valid() && b.received == [] && FitOps(ops, b.nbBuffer)
    modifies b, b.buffer, reader
    ensures b.Valid() && Lengths(slices) <= Sizes(ops) && (r == GrowOk ==> Lengths(slices) == Sizes(ops))
    ensures Joined(slices) + b.Held() + reader.source == old(reader.source)
    ensures r != GrowOk ==> Stopped(b, reader, Sizes(ops), |slices|, r)
  {
    hide Queue, FitFrom, Accounted, Stopped, Lengths, Sizes;
    slices := [];
    r := GrowOk;
    ghost var all := reader.source;
    FirstQueue(b, reader);
    RunStarts(ops, b.nbBuffer);
    var i := 0;
    while i < |ops|
      invariant 0 <= i <= |ops| && r == GrowOk && (b.buffer == old(b.buffer) || fresh(b.buffer))
      invariant Queue(b, reader, slices, all) && FitFrom(ops, i, b.nbBuffer) && Accounted(slices, ops, i)
    {
      NextFits(ops, i, b.nbBuffer);
      if ops[i].Take? {
        var s;
        r, s := TakeSlice(b, reader, ops[i].n, slices, all);
        if r != GrowOk {
          StoppedHere(b, reader, slices, ops, i, r);
          break;
        }
        Took(slices, s, ops, i);
        slices := slices + [s];
      } else {
        EnlargeBuffer(b, reader, ops[i].size, slices, all);
        Skipped(slices, ops, i);
      }
      i := i + 1;
    }
    TakenSizes(slices, ops, i);
    WholeQueue(b, reader, slices, all);
  }

  method EnlargeBuffer(b: SrsFastBuffer, reader: BufferReader, size: int, ghost slices: seq<seq<byte>>,
                       ghost all: seq<byte>)
    requires Queue(b, reader, slices, all)
    modifies b
    ensures Queue(b, reader, slices, all) && b.nbBuffer == Enlarged(old(b.nbBuffer), size)
    ensures b.buffer == old(b.buffer) || fresh(b.buffer)
  {
    b.SetBuffer(size);
  }

  lemma FirstQueue(b: SrsFastBuffer, reader: BufferReader)
    requires b.Valid() && b.received == []
    ensures Queue(b, reader, [], reader.source)
  {
    assert [] + reader.source == reader.source;
  }

  lemma WholeQueue(b: SrsFastBuffer, reader: BufferReader, slices: seq<seq<byte>>, all: seq<byte>)
    requires Queue(b, reader, slices, all)
    ensures b.Valid() && Joined(slices) + b.Held() + reader.source == all
  {
    assert b.received == b.received[..b.Taken()] + b.Held();
  }

  /** The rest of the operations fits. */
  predicate FitFrom(ops: seq<Op>, i: nat, capacity: int) { i <= |ops| && FitOps(ops[i..], capacity) }

  /** The slices taken are those of the first `i` operations. */
  predicate Accounted(slices: seq<seq<byte>>, ops: seq<Op>, i: nat) {
    i <= |ops| && Lengths(slices) + Sizes(ops[i..]) == Sizes(ops)
  }

  lemma RunStarts(ops: seq<Op>, capacity: int)
    requires FitOps(ops, capacity)
    ensures FitFrom(ops, 0, capacity) && Accounted([], ops, 0)
  {
    hide FitOps, Sizes;
    assert ops[0..] == ops && Lengths([]) == [];
  }

  lemma NextFits(ops: seq<Op>, i: nat, capacity: int)
    requires i < |ops| && FitFrom(ops, i, capacity)
    ensures ops[i].Take? ==> ops[i].n <= capacity && FitFrom(ops, i + 1, capacity)
    ensures ops[i].Enlarge? ==> FitFrom(ops, i + 1, Enlarged(capacity, ops[i].size))
  {
    assert ops[i..][0] == ops[i] && ops[i..][1..] == ops[i + 1..];
    hide Enlarged;
  }

  lemma NextSizes(ops: seq<Op>, i: nat)
    requires i < |ops|
    ensures Sizes(ops[i..]) == (if ops[i].Take? then [ops[i].n] else []) + Sizes(ops[i + 1..])
  {
    assert ops[i..][0] == ops[i] && ops[i..][1..] == ops[i + 1..];
  }

  /** The next size is not held, and the reader is dry or the buffer too small for it. */
  predicate Stopped(b: SrsFastBuffer, reader: BufferReader, sizes: seq<nat>, next: nat, r: GrowError)
    reads b, reader
  {
    && next < |sizes| && b.Size() < sizes[next]
    && if r == ReadFailed then reader.Dry() else b.nbBuffer - b.Size() < sizes[next]
  }

  lemma StoppedHere(b: SrsFastBuffer, reader: BufferReader, slices: seq<seq<byte>>, ops: seq<Op>, i: nat, r: GrowError)
    requires i < |ops| && ops[i].Take? && Accounted(slices, ops, i)
    requires b.Size() < ops[i].n && if r == ReadFailed then reader.Dry() else b.nbBuffer - b.Size() < ops[i].n
    ensures Stopped(b, reader, Sizes(ops), |slices|, r)
  {
    hide Lengths, Sizes;
    NextSizes(ops, i);
    assert (Lengths(slices) + Sizes(ops[i..]))[|slices|] == ops[i].n;
  }

  lemma Took(slices: seq<seq<byte>>, s: seq<byte>, ops: seq<Op>, i: nat)
    requires i < |ops| && ops[i].Take? && ops[i].n == |s| && Accounted(slices, ops, i)
    ensures Accounted(slices + [s], ops, i + 1)
  {
    hide Lengths, Sizes;
    LengthsSnoc(slices, s);
    NextSizes(ops, i);
    assert Lengths(slices) + ([|s|] + Sizes(ops[i + 1..])) == Lengths(slices) + [|s|] + Sizes(ops[i + 1..]);
  }

  lemma Skipped(slices: seq<seq<byte>>, ops: seq<Op>, i: nat)
    requires i < |ops| && ops[i].Enlarge? && Accounted(slices, ops, i)
    ensures Accounted(slices, ops, i + 1)
  {
    hide Lengths, Sizes;
    NextSizes(ops, i);
    assert [] + Sizes(ops[i + 1..]) == Sizes(ops[i + 1..]);
  }

  lemma TakenSizes(slices: seq<seq<byte>>, ops: seq<Op>, i: nat)
    requires Accounted(slices, ops, i)
    ensures Lengths(slices) <= Sizes(ops) && (i == |ops| ==> Lengths(slices) == Sizes(ops))
  {
    assert i == |ops| ==> ops[i..] == [] && Sizes(ops[i..]) == [];
    hide Lengths, Sizes;
    assert Sizes(ops)[..|slices|] == Lengths(slices);
    assert Lengths(slices) + [] == Lengths(slices);
  }

  lemma LengthsSnoc(slices: seq<seq<byte>>, s: seq<byte>)
    ensures Lengths(slices + [s]) == Lengths(slices) + [|s|]
  {
  }
}
