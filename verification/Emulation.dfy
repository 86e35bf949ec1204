/**
 Emulation prevention (sections 7.3.1 and 7.4.1 of ITU-T H.264): the encoder of the standard, and the removal loop of
 avc_demux_sps, which looks at the bytes it has put out instead of those it has read.
 */
module Emulation {
  import opened Bytes
  import opened KernelStream
  import opened AnnexB

  /** The loop: `x` is still to be read, `out` has been put out. */
  function Unescape(out: seq<byte>, x: seq<byte>): (r: seq<byte>)
    ensures out <= r
    decreases |x|
  {
    if x == [] then out
    else if |out| > 2 && out[|out| - 2] == 0 && out[|out| - 1] == 0 && x[0] == 3 then
      if |x| == 1 then out else Unescape(out + [x[1]], x[2..])
    else Unescape(out + [x[0]], x[1..])
  }

  /** The removal loop of avc_demux_sps, from the cursor to the end. */
  method RemoveEmulation(stream: SrsStream, rbsp: array<byte>) returns (nb: nat)
    requires stream.Valid() && stream.p <= stream.nbBytes && rbsp.Length >= stream.nbBytes && rbsp != stream.bytes
    modifies stream`p, rbsp
    ensures nb <= rbsp.Length && rbsp[..nb] == Unescape([], old(stream.Data()[stream.p..]))
  {
    ghost var d := stream.Data();
    nb := 0;
    while !stream.Empty()
      invariant stream.Valid() && stream.Data() == d && nb <= stream.p <= |d|
      invariant Unescape([], d[old(stream.p)..]) == Unescape(rbsp[..nb], d[stream.p..])
      decreases |d| - stream.p
    {
      ghost var left, out := d[stream.p..], rbsp[..nb];
      rbsp[nb] := stream.Read1();
      assert left[1..] == d[stream.p..];
      if nb > 2 && rbsp[nb - 2] == 0 && rbsp[nb - 1] == 0 && rbsp[nb] == 3 {
        if stream.Empty() {
          break;
        }
        rbsp[nb] := stream.Read1();
        assert left[2..] == d[stream.p..];
        nb := nb + 1;
        assert rbsp[..nb] == out + [left[1]];
        continue;
      }
      nb := nb + 1;
      assert rbsp[..nb] == out + [left[0]];
    }
  }

  // ---------- the encoder of the standard ----------

  /** `zeros` zero bytes were written since the last other byte or the last inserted one. */
  function EscapeFrom(r: seq<byte>, k: nat, zeros: nat): seq<byte>
    requires k <= |r|
    decreases |r| - k
  {
    if k == |r| then if r != [] && r[|r| - 1] == 0 then [3] else []
    else if zeros == 2 && r[k] <= 3 then [3, r[k]] + EscapeFrom(r, k + 1, if r[k] == 0 then 1 else 0)
    else [r[k]] + EscapeFrom(r, k + 1, if r[k] == 0 then zeros + 1 else 0)
  }

  function Escape(r: seq<byte>): seq<byte> { EscapeFrom(r, 0, 0) }

  /** The zeros right before position `k`. */
  function ZerosBefore(r: seq<byte>, k: nat): (n: nat)
    requires k <= |r|
    ensures n <= k && (n > 0 <==> k > 0 && r[k - 1] == 0)
  {
    if k == 0 || r[k - 1] != 0 then 0 else ZerosBefore(r, k - 1) + 1
  }

  /** How many of these zeros the encoder has counted. */
  function Counted(zeros: nat): nat { if zeros == 0 then 0 else if zeros % 2 == 1 then 1 else 2 }

  /** What the loop gets wrong: the third byte is inserted while fewer than three bytes are out, ... */
  predicate StartsBadly(r: seq<byte>) { |r| >= 2 && r[0] == 0 && r[1] == 0 && (|r| == 2 || r[2] <= 3) }

  /** ... or a 3 stands behind an odd number of zeros, three or more, ... */
  predicate BadThree(r: seq<byte>, k: nat)
    requires k < |r|
  {
    r[k] == 3 && ZerosBefore(r, k) >= 3 && ZerosBefore(r, k) % 2 == 1
  }

  /** ... or a single zero stands at the end. */
  predicate EndsBadly(r: seq<byte>) { ZerosBefore(r, |r|) == 1 }

  predicate Removable(r: seq<byte>) {
    !StartsBadly(r) && !EndsBadly(r) && forall k :: 0 <= k < |r| ==> !BadThree(r, k)
  }

  /** Where the loop goes wrong, if anywhere at or after `k`. */
  predicate GoesWrongAt(r: seq<byte>, k: nat)
    requires k <= |r|
  {
    if k == |r| then EndsBadly(r) || (|r| == 2 && StartsBadly(r))
    else BadThree(r, k) || (k == 2 && StartsBadly(r))
  }

  /** One position: the loop is in step before and after it. */
  lemma Step(r: seq<byte>, k: nat)
    requires k < |r| && !GoesWrongAt(r, k)
    ensures Unescape(r[..k], EscapeFrom(r, k, Counted(ZerosBefore(r, k))))
            == Unescape(r[..k + 1], EscapeFrom(r, k + 1, Counted(ZerosBefore(r, k + 1))))
  {
    var zeros, rest := ZerosBefore(r, k), EscapeFrom(r, k + 1, Counted(ZerosBefore(r, k + 1)));
    assert r[..k] + [r[k]] == r[..k + 1];
    LastTwo(r, k);
    if Counted(zeros) == 2 && r[k] <= 3 {
      assert ([3, r[k]] + rest)[2..] == rest;
    } else {
      assert ([r[k]] + rest)[1..] == rest;
    }
  }

  lemma LastTwo(r: seq<byte>, k: nat)
    requires k <= |r|
    ensures ZerosBefore(r, k) >= 2 <==> k >= 2 && r[k - 2] == 0 && r[k - 1] == 0
  {
    if k >= 1 && r[k - 1] == 0 {
      assert ZerosBefore(r, k) == ZerosBefore(r, k - 1) + 1;
    }
  }

  /** In step from `k` on, when nothing goes wrong. */
  lemma {:induction false} RemovesFrom(r: seq<byte>, k: nat)
    requires k <= |r| && forall i :: k <= i <= |r| ==> !GoesWrongAt(r, i)
    ensures Unescape(r[..k], EscapeFrom(r, k, Counted(ZerosBefore(r, k)))) == r
    decreases |r| - k
  {
    if k < |r| {
      hide GoesWrongAt, Counted, ZerosBefore;
      Step(r, k);
      RemovesFrom(r, k + 1);
    } else {
      hide Counted, ZerosBefore, Unescape, EscapeFrom;
      assert !GoesWrongAt(r, k);
      assert r[..k] == r;
      AtEnd(r);
    }
  }

  /** The byte appended behind a last zero is dropped. */
  lemma AtEnd(r: seq<byte>)
    requires !GoesWrongAt(r, |r|)
    ensures Unescape(r, EscapeFrom(r, |r|, Counted(ZerosBefore(r, |r|)))) == r
  {
    LastTwo(r, |r|);
  }

  /** One byte too many: from then on the output is not `r`. */
  lemma {:induction false} AheadFails(r: seq<byte>, k: nat)
    requires k <= |r|
    ensures k < |r| ==> Unescape(r[..k] + [3], EscapeFrom(r, k, 0)) != r
    ensures forall x :: k == |r| ==> Unescape(r + [3], x) != r
    decreases |r| - k
  {
    if k < |r| {
      var out, rest := r[..k] + [3], EscapeFrom(r, k + 1, if r[k] == 0 then 1 else 0);
      assert EscapeFrom(r, k, 0) == [r[k]] + rest && ([r[k]] + rest)[1..] == rest;
      if r[k] == 3 {
        assert out + [3] == r[..k + 1] + [3];
        AheadFails(r, k + 1);
      } else {
        assert out <= Unescape(out, EscapeFrom(r, k, 0));
        assert out[k] == 3;
      }
    }
  }

  /** One byte too few, and a 3 is missing. */
  lemma {:induction false} BehindFails(r: seq<byte>, j: nat)
    requires 0 < j < |r| && r[j - 1] == 3 && r[j] == 3
    ensures Unescape(r[..j], EscapeFrom(r, j + 1, 0)) != r
    decreases |r| - j
  {
    if j + 1 < |r| {
      var c, rest := r[j + 1], EscapeFrom(r, j + 2, if r[j + 1] == 0 then 1 else 0);
      assert EscapeFrom(r, j + 1, 0) == [c] + rest && ([c] + rest)[1..] == rest;
      if c == 3 {
        assert r[..j] + [c] == r[..j + 1];
        BehindFails(r, j + 1);
      } else {
        var out := r[..j] + [c];
        assert out <= Unescape(out, rest);
        assert out[j] == c;
      }
    }
  }

  /** A third byte inserted too early stays. */
  lemma BadStartStays(r: seq<byte>)
    requires |r| > 2 && StartsBadly(r)
    ensures Unescape(r[..2], EscapeFrom(r, 2, 2)) != r
  {
    var rest := EscapeFrom(r, 3, if r[2] == 0 then 1 else 0);
    var coded := EscapeFrom(r, 2, 2);
    assert coded == [3, r[2]] + rest;
    assert coded[1..] == [r[2]] + rest == EscapeFrom(r, 2, 0);
    AheadFails(r, 2);
  }

  /** A 3 that was dropped is missing. */
  lemma BadThreeStays(r: seq<byte>, k: nat)
    requires k < |r| && BadThree(r, k)
    ensures Unescape(r[..k], EscapeFrom(r, k, 1)) != r
  {
    LastTwo(r, k);
    var coded, rest := EscapeFrom(r, k, 1), EscapeFrom(r, k + 1, 0);
    assert coded == [3] + rest;
    if k + 1 < |r| {
      var c, more := r[k + 1], EscapeFrom(r, k + 2, if r[k + 1] == 0 then 1 else 0);
      assert rest == [c] + more && coded[2..] == more && coded[1] == c;
      var out := r[..k] + [c];
      if c == 3 {
        assert out == r[..k + 1];
        BehindFails(r, k + 1);
      } else {
        assert out <= Unescape(out, more);
        assert out[k] == c;
      }
    }
  }

  /** Going wrong at `k` cannot be repaired. */
  lemma WrongStaysWrong(r: seq<byte>, k: nat)
    requires k <= |r| && GoesWrongAt(r, k)
    ensures Unescape(r[..k], EscapeFrom(r, k, Counted(ZerosBefore(r, k)))) != r
  {
    if k == |r| {
      LastTwo(r, k);
      assert r[..k] == r && EscapeFrom(r, k, Counted(ZerosBefore(r, k))) == [3];
      AheadFails(r, k);
    } else if BadThree(r, k) {
      BadThreeStays(r, k);
    } else {
      assert ZerosBefore(r, 0) == 0 && ZerosBefore(r, 1) == 1 && ZerosBefore(r, 2) == 2;
      BadStartStays(r);
    }
  }

  lemma {:induction false} ExactFrom(r: seq<byte>, k: nat)
    requires k <= |r|
    ensures Unescape(r[..k], EscapeFrom(r, k, Counted(ZerosBefore(r, k)))) == r
            <==> forall i :: k <= i <= |r| ==> !GoesWrongAt(r, i)
    decreases |r| - k
  {
    hide GoesWrongAt, Counted, ZerosBefore, Unescape, EscapeFrom;
    if GoesWrongAt(r, k) {
      WrongStaysWrong(r, k);
    } else if k < |r| {
      Step(r, k);
      ExactFrom(r, k + 1);
    } else {
      RemovesFrom(r, k);
    }
  }

  /** Main result: the loop undoes emulation prevention exactly for these byte strings. */
  lemma RemovalIsExact(r: seq<byte>)
    ensures Unescape([], Escape(r)) == r <==> Removable(r)
  {
    hide Unescape, EscapeFrom;
    ExactFrom(r, 0);
    assert r[..0] == [];
    if |r| >= 2 && StartsBadly(r) {
      assert GoesWrongAt(r, 2);
    }
    if Removable(r) {
      forall i | 0 <= i <= |r| ensures !GoesWrongAt(r, i) {
      }
    } else if !StartsBadly(r) && !EndsBadly(r) {
      var k :| 0 <= k < |r| && BadThree(r, k);
      assert GoesWrongAt(r, k);
    } else if EndsBadly(r) {
      assert GoesWrongAt(r, |r|);
    }
  }

  /** In particular it does whenever the data does not start with two zeros, has no 00 00 00 03 and does not end in a
      single zero. */
  lemma RemovalOfOrdinaryData(r: seq<byte>)
    requires |r| >= 2 ==> r[0] != 0 || r[1] != 0
    requires forall k :: 0 <= k < |r| - 3 ==> !(r[k] == 0 && r[k + 1] == 0 && r[k + 2] == 0 && r[k + 3] == 3)
    requires r != [] && r[|r| - 1] == 0 ==> |r| >= 2 && r[|r| - 2] == 0
    ensures Unescape([], Escape(r)) == r
  {
    RemovalIsExact(r);
    forall k | 0 <= k < |r| ensures !BadThree(r, k) {
      LastThree(r, k);
    }
    LastTwo(r, |r|);
  }

  lemma LastThree(r: seq<byte>, k: nat)
    requires k <= |r|
    ensures ZerosBefore(r, k) >= 3 ==> k >= 3 && r[k - 3] == 0 && r[k - 3 + 1] == 0 && r[k - 3 + 2] == 0
  {
    LastTwo(r, k);
    if k > 0 {
      LastTwo(r, k - 1);
    }
  }

  // ---------- what emulation prevention is for ----------

  /** No 00 00 00, 00 00 01 or 00 00 02. */
  predicate NoCode(s: seq<byte>) {
    forall q :: 0 <= q < |s| - 2 ==> !(s[q] == 0 && s[q + 1] == 0 && s[q + 2] <= 2)
  }

  /** Such a string whose last zeros are exactly `zeros` many, behind another byte. */
  predicate Safe(s: seq<byte>, zeros: nat) {
    && zeros < |s| && s[|s| - 1 - zeros] != 0
    && (forall i :: |s| - zeros <= i < |s| ==> s[i] == 0)
    && NoCode(s)
  }

  lemma SafeNext(s: seq<byte>, b: byte, zeros: nat)
    requires Safe(s, zeros) && zeros <= 2 && !(zeros == 2 && b <= 2)
    ensures Safe(s + [b], if b == 0 then zeros + 1 else 0)
  {
  }

  /** No start code, and no zero at the end. */
  lemma {:induction false} EscapedIsSafe(r: seq<byte>, k: nat, zeros: nat, before: seq<byte>)
    requires k <= |r| && zeros <= 2 && Safe(before, zeros)
    requires zeros > 0 <==> k > 0 && r[k - 1] == 0
    ensures var all := before + EscapeFrom(r, k, zeros); all[|all| - 1] != 0 && NoCode(all)
    decreases |r| - k
  {
    hide Safe, NoCode;
    if k == |r| {
      SafeEnd(r, zeros, before);
    } else {
      var inserted := zeros == 2 && r[k] <= 3;
      var zeros' := if r[k] != 0 then 0 else if inserted then 1 else zeros + 1;
      var next := if inserted then before + [3] + [r[k]] else before + [r[k]];
      if inserted {
        SafeNext(before, 3, zeros);
        SafeNext(before + [3], r[k], 0);
      } else {
        SafeNext(before, r[k], zeros);
      }
      EscapedIsSafe(r, k + 1, zeros', next);
      var rest := EscapeFrom(r, k + 1, zeros');
      if inserted {
        assert EscapeFrom(r, k, zeros) == [3, r[k]] + rest;
        assert before + [3] + [r[k]] + rest == before + ([3, r[k]] + rest);
      } else {
        assert before + [r[k]] + rest == before + ([r[k]] + rest);
      }
    }
  }

  lemma SafeEnd(r: seq<byte>, zeros: nat, before: seq<byte>)
    requires zeros <= 2 && Safe(before, zeros) && (zeros > 0 <==> |r| > 0 && r[|r| - 1] == 0)
    ensures var all := before + EscapeFrom(r, |r|, zeros); all[|all| - 1] != 0 && NoCode(all)
  {
    if zeros > 0 {
      SafeNext(before, 3, zeros);
    } else {
      assert before + [] == before;
    }
  }

  /** A NAL unit, its header byte and its escaped data, is a frame that the Annex B splitter keeps whole. */
  lemma NalUnitIsClean(header: byte, r: seq<byte>, last: bool)
    requires header != 0
    ensures CleanFrame([header] + Escape(r), last)
  {
    EscapedIsSafe(r, 0, 0, [header]);
    var nal := [header] + Escape(r);
    forall q, n | 0 <= q && 0 <= n ensures !IsStartCode(nal, q, n) {
      NoCodeNoStart(nal, q, n);
    }
  }

  lemma NoCodeNoStart(s: seq<byte>, q: nat, n: nat)
    requires NoCode(s)
    ensures !IsStartCode(s, q, n)
  {
    if n >= 3 && q + n <= |s| {
      assert !(s[q + n - 3] == 0 && s[q + n - 3 + 1] == 0 && s[q + n - 3 + 2] <= 2);
    }
  }
}
