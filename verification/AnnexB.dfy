/**
 The byte stream format of Annex B of ITU-T H.264: start codes N[00] 00 00 01, the splitter annexb_demux and the reader
 avc_demux_annexb_format.
 */
module AnnexB {
  import opened Bytes
  import opened KernelStream

  /** Zeros and a one, `n >= 3` bytes in all, at `pos`. */
  predicate IsStartCode(d: seq<byte>, pos: nat, n: nat) {
    n >= 3 && pos + n <= |d| && d[pos + n - 1] == 1 && forall i :: pos <= i < pos + n - 1 ==> d[i] == 0
  }

  /** The size of the start code at `pos`, 0 without one. */
  function StartCode(d: seq<byte>, pos: nat): (n: nat)
    ensures n > 0 ==> IsStartCode(d, pos, n)
    decreases |d| - pos
  {
    if |d| - pos < 3 || d[pos] != 0 || d[pos + 1] != 0 then 0
    else if d[pos + 2] == 1 then 3
    else
      var n := StartCode(d, pos + 1);
      if n == 0 then 0 else n + 1
  }

  /** The scan finds every start code, and there is at most one at a position. */
  lemma {:induction false} FindsStartCode(d: seq<byte>, pos: nat, n: nat)
    requires IsStartCode(d, pos, n)
    ensures StartCode(d, pos) == n
    decreases n
  {
    if n > 3 {
      assert d[pos + 2] == 0;
      FindsStartCode(d, pos + 1, n - 1);
    }
  }

  /** The first position from `pos` on with a start code, or the end. */
  function NextStart(d: seq<byte>, pos: nat): (q: nat)
    requires pos <= |d|
    ensures pos <= q <= |d| && (q == |d| || StartCode(d, q) > 0)
    ensures forall i :: pos <= i < q ==> StartCode(d, i) == 0
    decreases |d| - pos
  {
    if pos == |d| || StartCode(d, pos) > 0 then pos else NextStart(d, pos + 1)
  }

  lemma {:induction false} NextStartIs(d: seq<byte>, pos: nat, q: nat)
    requires pos <= q <= |d| && (q == |d| || StartCode(d, q) > 0)
    requires forall i :: pos <= i < q ==> StartCode(d, i) == 0
    ensures NextStart(d, pos) == q
    decreases q - pos
  {
    if pos < q { NextStartIs(d, pos + 1, q); }
  }

  /** A start code of `code` bytes and the frame behind it. */
  datatype Piece = Piece(code: nat, frame: seq<byte>)

  predicate AtStart(d: seq<byte>, pos: nat) { pos == |d| || (pos < |d| && StartCode(d, pos) > 0) }

  /** What repeated annexb_demux makes of the bytes from `pos` on. */
  function Split(d: seq<byte>, pos: nat): seq<Piece>
    requires AtStart(d, pos)
    decreases |d| - pos
  {
    if pos == |d| then []
    else
      var n := StartCode(d, pos);
      var end := NextStart(d, pos + n);
      [Piece(n, d[pos + n..end])] + Split(d, end)
  }

  function Zeros(n: nat): (r: seq<byte>)
    ensures |r| == n && forall i :: 0 <= i < n ==> r[i] == 0
  {
    seq(n, _ => 0)
  }

  function PieceBytes(p: Piece): seq<byte> { (if p.code == 0 then [] else Zeros(p.code - 1) + [1]) + p.frame }

  function Join(pieces: seq<Piece>): seq<byte> {
    if pieces == [] then [] else PieceBytes(pieces[0]) + Join(pieces[1..])
  }

  lemma StartCodeBytes(d: seq<byte>, pos: nat, n: nat)
    requires IsStartCode(d, pos, n)
    ensures d[pos..pos + n] == Zeros(n - 1) + [1]
  {
  }

  lemma JoinCons(p: Piece, pieces: seq<Piece>)
    ensures Join([p] + pieces) == PieceBytes(p) + Join(pieces)
  {
    assert ([p] + pieces)[1..] == pieces;
  }

  lemma JoinNothing(d: seq<byte>)
    ensures AtStart(d, |d|) && Join(Split(d, |d|)) == []
  {
  }

  /** Nothing is lost: the pieces are the input. */
  lemma {:induction false} SplitIsLossless(d: seq<byte>, pos: nat)
    requires AtStart(d, pos)
    ensures Join(Split(d, pos)) == d[pos..]
    decreases |d| - pos
  {
    hide Join, StartCode, NextStart, Zeros, Split;
    if pos == |d| {
      JoinNothing(d);
    } else {
      SplitUnfolds(d, pos);
      var n := StartCode(d, pos);
      var end := NextStart(d, pos + n);
      var p := Piece(n, d[pos + n..end]);
      SplitIsLossless(d, end);
      StartCodeBytes(d, pos, n);
      assert d[pos..] == d[pos..pos + n] + d[pos + n..end] + d[end..];
      JoinCons(p, Split(d, end));
    }
  }

  /** A frame that the splitter keeps whole: no start code in it, and in front of another piece it does not end in a
      zero, which would be part of the next start code. */
  ghost predicate CleanFrame(frame: seq<byte>, last: bool) {
    && (forall q, n :: 0 <= q && 0 <= n ==> !IsStartCode(frame, q, n))
    && (!last && frame != [] ==> frame[|frame| - 1] != 0)
  }

  ghost predicate Clean(pieces: seq<Piece>) {
    forall i :: 0 <= i < |pieces| ==> pieces[i].code >= 3 && CleanFrame(pieces[i].frame, i == |pieces| - 1)
  }

  /** No start code begins inside a frame. */
  lemma FrameIsClean(d: seq<byte>, pos: nat, end: nat)
    requires pos <= end <= |d| && AtStart(d, end)
    requires forall i :: pos <= i < end ==> StartCode(d, i) == 0
    ensures CleanFrame(d[pos..end], end == |d|)
  {
    var frame := d[pos..end];
    forall q, n | 0 <= q && 0 <= n ensures !IsStartCode(frame, q, n) {
      if IsStartCode(frame, q, n) {
        assert d[pos + q + n - 1] == frame[q + n - 1];
        forall i | pos + q <= i < pos + q + n - 1 ensures d[i] == 0 {
          assert d[i] == frame[i - pos];
        }
        FindsStartCode(d, pos + q, n);
        assert false;
      }
    }
    if end < |d| && pos < end && d[end - 1] == 0 {
      FindsStartCode(d, end - 1, StartCode(d, end) + 1);
      assert false;
    }
  }

  /** Every result of the splitter is clean. */
  lemma {:induction false} SplitIsClean(d: seq<byte>, pos: nat)
    requires AtStart(d, pos)
    ensures Clean(Split(d, pos))
    decreases |d| - pos
  {
    hide CleanFrame, Clean, StartCode;
    if pos == |d| {
      NothingClean();
    } else {
      var n := StartCode(d, pos);
      var end := NextStart(d, pos + n);
      SplitIsClean(d, end);
      FrameIsClean(d, pos + n, end);
      var rest := Split(d, end);
      assert (rest == []) == (end == |d|);
      CleanCons(Piece(n, d[pos + n..end]), rest);
      assert Split(d, pos) == [Piece(n, d[pos + n..end])] + rest;
    }
  }

  lemma NothingClean()
    ensures Clean([])
  {
  }

  lemma CleanCons(p: Piece, rest: seq<Piece>)
    requires p.code >= 3 && CleanFrame(p.frame, rest == []) && Clean(rest)
    ensures Clean([p] + rest)
  {
    hide CleanFrame;
    var all := [p] + rest;
    assert forall i :: 0 < i < |all| ==> all[i] == rest[i - 1];
  }

  /** The positions of a clean frame in a stream are not start codes. */
  lemma CleanFrameStays(d: seq<byte>, pos: nat, frame: seq<byte>, q: nat)
    requires pos + |frame| <= |d| && d[pos..pos + |frame|] == frame && AtStart(d, pos + |frame|)
    requires CleanFrame(frame, pos + |frame| == |d|) && pos <= q < pos + |frame|
    ensures StartCode(d, q) == 0
  {
    var n := StartCode(d, q);
    if n > 0 {
      if q + n <= pos + |frame| {
        StartCodeInside(d, pos, frame, q, n);
        assert false;
      } else {
        LastIsZero(d, pos, frame, q, n);
        assert false;
      }
    }
  }

  lemma StartCodeInside(d: seq<byte>, pos: nat, frame: seq<byte>, q: nat, n: nat)
    requires pos <= q && q + n <= pos + |frame| <= |d| && d[pos..pos + |frame|] == frame && IsStartCode(d, q, n)
    ensures IsStartCode(frame, q - pos, n)
  {
    forall i | 0 <= i < |frame| ensures frame[i] == d[pos + i] {
    }
  }

  lemma LastIsZero(d: seq<byte>, pos: nat, frame: seq<byte>, q: nat, n: nat)
    requires pos <= q < pos + |frame| < q + n <= |d| && d[pos..pos + |frame|] == frame && IsStartCode(d, q, n)
    ensures frame[|frame| - 1] == 0
  {
    assert frame[|frame| - 1] == d[pos + |frame| - 1];
  }

  /** Clean pieces are found again, wherever they lie. */
  lemma {:induction false} CleanSplits(d: seq<byte>, pos: nat, pieces: seq<Piece>)
    requires pos <= |d| && d[pos..] == Join(pieces) && Clean(pieces)
    ensures AtStart(d, pos) && Split(d, pos) == pieces
    decreases |pieces|
  {
    hide *;
    if pieces == [] {
      NoPieces(d, pos);
    } else {
      var p, more := pieces[0], pieces[1..];
      var start, end := pos + p.code, pos + p.code + |p.frame|;
      assert pieces == [p] + more;
      JoinCons(p, more);
      CleanTail(pieces);
      PieceLies(d, pos, p, Join(more));
      CleanSplits(d, end, more);
      JoinEmpty(more);
      forall q | start <= q < end ensures StartCode(d, q) == 0 {
        CleanFrameStays(d, start, p.frame, q);
      }
      SplitOnce(d, pos, p, end);
    }
  }

  lemma NoPieces(d: seq<byte>, pos: nat)
    requires pos <= |d| && d[pos..] == Join([])
    ensures AtStart(d, pos) && Split(d, pos) == []
  {
  }

  lemma CleanTail(pieces: seq<Piece>)
    requires pieces != [] && Clean(pieces)
    ensures Clean(pieces[1..]) && pieces[0].code >= 3 && CleanFrame(pieces[0].frame, pieces[1..] == [])
    ensures pieces[1..] != [] ==> pieces[1..][0].code >= 3
  {
    hide CleanFrame;
  }

  lemma SplitOnce(d: seq<byte>, pos: nat, p: Piece, end: nat)
    requires 3 <= p.code == StartCode(d, pos) && pos + p.code <= end <= |d| && AtStart(d, end)
    requires d[pos + p.code..end] == p.frame && forall q :: pos + p.code <= q < end ==> StartCode(d, q) == 0
    ensures AtStart(d, pos) && Split(d, pos) == [p] + Split(d, end)
  {
    hide StartCode, Split, NextStart;
    StartCodeEnds(d, pos);
    SplitUnfolds(d, pos);
    NextStartIs(d, pos + p.code, end);
  }

  lemma StartCodeEnds(d: seq<byte>, pos: nat)
    requires StartCode(d, pos) > 0
    ensures pos + 3 <= pos + StartCode(d, pos) <= |d|
  {
  }

  lemma SplitUnfolds(d: seq<byte>, pos: nat)
    requires StartCode(d, pos) > 0
    ensures AtStart(d, pos) && pos + StartCode(d, pos) <= |d|
    ensures var n := StartCode(d, pos); var end := NextStart(d, pos + n);
            Split(d, pos) == [Piece(n, d[pos + n..end])] + Split(d, end)
  {
    StartCodeEnds(d, pos);
    hide StartCode, NextStart;
  }

  lemma JoinEmpty(pieces: seq<Piece>)
    requires pieces != [] ==> pieces[0].code >= 3
    ensures Join(pieces) == [] <==> pieces == []
  {
  }

  lemma PieceLies(d: seq<byte>, pos: nat, p: Piece, rest: seq<byte>)
    requires pos <= |d| && d[pos..] == PieceBytes(p) + rest && p.code >= 3
    ensures var end := pos + p.code + |p.frame|;
            end <= |d| && d[end..] == rest && d[pos + p.code..end] == p.frame
    ensures StartCode(d, pos) == p.code
  {
    hide StartCode;
    var n, end, tail := p.code, pos + p.code + |p.frame|, d[pos..];
    assert tail == Zeros(n - 1) + [1] + p.frame + rest;
    assert d[end..] == tail[n + |p.frame|..] == rest;
    assert d[pos + n..end] == tail[n..n + |p.frame|] == p.frame;
    forall i | pos <= i < pos + n - 1 ensures d[i] == 0 {
      assert d[i] == tail[i - pos];
    }
    assert d[pos + n - 1] == tail[n - 1];
    FindsStartCode(d, pos, n);
  }

  /** Main result: joined pieces are split into the same pieces exactly when they are clean. */
  lemma SplitsBackExactlyWhenClean(pieces: seq<Piece>)
    ensures AtStart(Join(pieces), 0) && Split(Join(pieces), 0) == pieces <==> Clean(pieces)
  {
    var d := Join(pieces);
    assert d[0..] == d;
    if Clean(pieces) {
      CleanSplits(d, 0, pieces);
    }
    if AtStart(d, 0) {
      SplitIsClean(d, 0);
    }
  }

  function NonEmptyFrames(pieces: seq<Piece>): seq<seq<byte>> {
    if pieces == [] then []
    else (if pieces[0].frame == [] then [] else [pieces[0].frame]) + NonEmptyFrames(pieces[1..])
  }

  lemma NonEmptyCons(p: Piece, pieces: seq<Piece>)
    ensures NonEmptyFrames([p] + pieces)
            == if p.frame == [] then NonEmptyFrames(pieces) else [p.frame] + NonEmptyFrames(pieces)
  {
    assert ([p] + pieces)[1..] == pieces;
  }

  // ---------- the methods ----------

  /** srs_avc_startswith_annexb. */
  method StartsWithAnnexB(stream: SrsStream) returns (n: nat)
    requires stream.Valid() && stream.p <= stream.nbBytes
    ensures n == StartCode(stream.Data(), stream.p)
  {
    hide IsStartCode;
    ghost var d := stream.Data();
    var k: nat := 0;
    while true
      invariant stream.p + k <= |d|
      invariant StartCode(d, stream.p) == (var r := StartCode(d, stream.p + k); if r == 0 then 0 else r + k)
      decreases |d| - stream.p - k
    {
      if !stream.Require(k + 3) {
        return 0;
      }
      var at := stream.p + k;
      if stream.bytes[at] != 0 || stream.bytes[at + 1] != 0 {
        return 0;
      }
      if stream.bytes[at + 2] == 1 {
        return k + 3;
      }
      k := k + 1;
    }
  }

  /** Step over bytes until a start code or the end. */
  method SkipFrame(stream: SrsStream)
    requires stream.Valid() && stream.p <= stream.nbBytes
    modifies stream`p
    ensures stream.Valid() && stream.Data() == old(stream.Data())
    ensures stream.p == NextStart(stream.Data(), old(stream.p))
  {
    hide StartCode;
    ghost var d := stream.Data();
    while !stream.Empty()
      invariant stream.Valid() && stream.p <= stream.nbBytes && stream.Data() == d
      invariant NextStart(d, old(stream.p)) == NextStart(d, stream.p)
      decreases |d| - stream.p
    {
      var n := StartsWithAnnexB(stream);
      if n > 0 {
        break;
      }
      stream.Skip(1);
    }
  }

  /** The frame behind a start code of `n` bytes, and the step to its end. */
  method TakeFrame(stream: SrsStream, n: nat) returns (frame: seq<byte>)
    requires stream.Valid() && stream.p < stream.nbBytes && n == StartCode(stream.Data(), stream.p) > 0
    modifies stream`p
    ensures stream.Valid() && old(stream.p) < stream.p <= stream.nbBytes && stream.Data() == old(stream.Data())
    ensures AtStart(stream.Data(), stream.p)
    ensures var d := stream.Data(); Split(d, old(stream.p)) == [Piece(n, frame)] + Split(d, stream.p)
  {
    hide StartCode, Split, NextStart;
    ghost var was := stream.p;
    StartCodeEnds(stream.Data(), was);
    SplitUnfolds(stream.Data(), was);
    stream.Skip(n);
    var start := stream.p;
    SkipFrame(stream);
    frame := stream.bytes[start..stream.p];
    assert frame == stream.Data()[start..stream.p];
  }

  /** annexb_demux: the next frame, behind its start code. Each call on a stream that is not empty moves on. */
  method AnnexbDemux(stream: SrsStream) returns (ok: bool, frame: seq<byte>)
    requires stream.Valid() && stream.p <= stream.nbBytes
    modifies stream`p
    ensures stream.Valid() && stream.p <= stream.nbBytes && stream.Data() == old(stream.Data())
    ensures ok == AtStart(stream.Data(), old(stream.p))
    ensures !ok ==> stream.p == old(stream.p) && frame == []
    ensures ok ==> AtStart(stream.Data(), stream.p)
    ensures ok && old(stream.p) == stream.nbBytes ==> stream.p == old(stream.p) && frame == []
    ensures ok && old(stream.p) < stream.nbBytes ==>
              var d, n := stream.Data(), StartCode(stream.Data(), old(stream.p));
              old(stream.p) < stream.p && Split(d, old(stream.p)) == [Piece(n, frame)] + Split(d, stream.p)
  {
    hide StartCode;
    frame := [];
    ok := true;
    if !stream.Empty() {
      var n := StartsWithAnnexB(stream);
      if n == 0 {
        return false, [];
      }
      frame := TakeFrame(stream, n);
    }
  }

  const MAX_UNITS := 128

  /** SrsCodecSample, as the units collected. */
  class Sample {
    var units: seq<seq<byte>>

    constructor ()
      ensures units == []
    {
      units := [];
    }

    method AddSampleUnit(unit: seq<byte>) returns (ok: bool)
      modifies this
      ensures ok == (|old(units)| < MAX_UNITS)
      ensures units == if ok then old(units) + [unit] else old(units)
    {
      ok := |units| < MAX_UNITS;
      if ok {
        units := units + [unit];
      }
    }
  }

  datatype DemuxResult = Demuxed | TryOthers | DecodeError

  /** `units` and then as many of `more` as the sample takes. */
  function Filled(units: seq<seq<byte>>, more: seq<seq<byte>>): seq<seq<byte>> {
    if |units| + |more| <= MAX_UNITS then units + more
    else if |units| >= MAX_UNITS then units
    else units + more[..MAX_UNITS - |units|]
  }

  lemma FilledNext(units: seq<seq<byte>>, unit: seq<byte>, more: seq<seq<byte>>)
    ensures |units| < MAX_UNITS ==> Filled(units, [unit] + more) == Filled(units + [unit], more)
    ensures |units| >= MAX_UNITS ==> Filled(units, [unit] + more) == units
  {
  }

  lemma FilledNothing(units: seq<seq<byte>>)
    requires |units| <= MAX_UNITS
    ensures Filled(units, []) == units
  {
    assert units + [] == units;
  }

  lemma NothingLeft(d: seq<byte>)
    ensures AtStart(d, |d|) && NonEmptyFrames(Split(d, |d|)) == []
  {
  }

  /** avc_demux_annexb_format: the frames of the splitter that are not empty, up to 128. */
  method AvcDemuxAnnexbFormat(stream: SrsStream, sample: Sample) returns (r: DemuxResult)
    requires stream.Valid() && stream.p <= stream.nbBytes && |sample.units| <= MAX_UNITS
    modifies stream`p, sample
    ensures stream.Valid() && stream.p <= stream.nbBytes && stream.Data() == old(stream.Data())
    ensures r == TryOthers <==> StartCode(stream.Data(), old(stream.p)) == 0
    ensures r == TryOthers ==> stream.p == old(stream.p) && sample.units == old(sample.units)
    ensures r != TryOthers ==>
              var frames := NonEmptyFrames(Split(stream.Data(), old(stream.p)));
              && sample.units == Filled(old(sample.units), frames)
              && (r == Demuxed <==> |old(sample.units)| + |frames| <= MAX_UNITS)
  {
    hide StartCode, Split, NonEmptyFrames, Filled;
    ghost var d, start, was := stream.Data(), stream.p, sample.units;
    var n := StartsWithAnnexB(stream);
    if n == 0 {
      return TryOthers;
    }
    StartCodeEnds(d, start);
    ghost var frames := NonEmptyFrames(Split(d, start));
    while !stream.Empty()
      invariant stream.Valid() && stream.p <= stream.nbBytes && stream.Data() == d && AtStart(d, stream.p)
      invariant |sample.units| <= MAX_UNITS
      invariant var left := NonEmptyFrames(Split(d, stream.p));
                Filled(was, frames) == Filled(sample.units, left)
                && |was| + |frames| == |sample.units| + |left|
      decreases |d| - stream.p
    {
      ghost var before := stream.p;
      n := StartsWithAnnexB(stream);
      var unit := TakeFrame(stream, n);
      ghost var rest := NonEmptyFrames(Split(d, stream.p));
      NonEmptyCons(Piece(n, unit), Split(d, stream.p));
      if unit != [] {
        FilledNext(sample.units, unit, rest);
        var ok := sample.AddSampleUnit(unit);
        if !ok {
          return DecodeError;
        }
      }
    }
    NothingLeft(d);
    FilledNothing(sample.units);
    r := Demuxed;
  }
}
