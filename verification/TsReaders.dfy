/**
 The reading side of srs_kernel_ts.cpp over an SrsStream: each method moves the cursor as the source does and is
 proved equal to the function of TsParse with the same name.
 */
module TsReaders {
  import opened Bytes
  import opened TsWire
  import opened TsParse
  import opened KernelStream

  /** A part of fixed size that is skipped when its flag is set. */
  method SkipPart(stream: SrsStream, present: bool, n: int) returns (ok: bool)
    requires n > 0
    modifies stream`p
    ensures ok <==> (present ==> n <= stream.nbBytes - old(stream.p))
    ensures stream.p == old(stream.p) + (if ok && present then n else 0)
  {
    if present {
      if !stream.Require(n) {
        return false;
      }
      stream.Skip(n);
    }
    return true;
  }

  method ReadPcr(stream: SrsStream, present: bool) returns (ok: bool, pcr: Option<int>)
    requires stream.Valid() && stream.p <= stream.nbBytes
    modifies stream`p
    ensures stream.Valid() && stream.Data() == old(stream.Data())
    ensures ok <==> (present ==> old(stream.p) + 6 <= stream.nbBytes)
    ensures ok ==> stream.p == old(stream.p) + (if present then 6 else 0)
    ensures ok ==> pcr == (if present then Some(PcrAt(stream.Data(), old(stream.p))) else None)
  {
    hide Be32;
    if !present {
      return true, None;
    }
    if !stream.Require(6) {
      return false, None;
    }
    var high := stream.Read4();
    var middle := stream.Read1();
    var low := stream.Read1();
    return true, Some((high * 2 + middle / 128) % 0x2_0000_0000);
  }

  /** transport_private_data: a length byte and that many bytes. */
  method SkipPrivateData(stream: SrsStream, present: bool) returns (ok: bool)
    requires stream.Valid() && stream.p <= stream.nbBytes
    modifies stream`p
    ensures stream.Valid() && stream.Data() == old(stream.Data())
    ensures var d, p := stream.Data(), old(stream.p);
            (ok <==> (present ==> p < |d| && p + 1 + (d[p] as int) <= |d|))
            && (ok ==> stream.p == p + (if present then d[p] as int + 1 else 0))
  {
    if present {
      if !stream.Require(1) {
        return false;
      }
      var n := stream.Read1();
      if n > 0 {
        if !stream.Require(n) {
          return false;
        }
        stream.Skip(n);
      }
    }
    return true;
  }

  /** The optional parts of an adaptation field after its flags byte. */
  method ReadAfOptional(stream: SrsStream, flags: byte) returns (ok: bool, pcr: Option<int>)
    requires stream.Valid() && stream.p <= stream.nbBytes
    modifies stream`p
    ensures stream.Valid() && stream.Data() == old(stream.Data())
    ensures ok <==> AfOptionalEnd(stream.Data(), flags, old(stream.p)).Some?
    ensures ok ==> pcr == (if Flag(flags, 16) then Some(PcrAt(stream.Data(), old(stream.p))) else None)
  {
    hide PcrAt, Flag, AfExtensionEnd;
    ok, pcr := ReadPcr(stream, Flag(flags, 16));
    if !ok {
      return;
    }
    ok := SkipPart(stream, Flag(flags, 8), 6);
    if !ok {
      return;
    }
    ok := SkipPart(stream, Flag(flags, 4), 1);
    if !ok {
      return;
    }
    ok := SkipPrivateData(stream, Flag(flags, 2));
    if !ok {
      return;
    }
    ok := ReadAfExtension(stream, flags);
  }

  method ReadAfExtension(stream: SrsStream, flags: byte) returns (ok: bool)
    requires stream.Valid() && stream.p <= stream.nbBytes
    modifies stream`p
    ensures stream.Valid() && stream.Data() == old(stream.Data())
    ensures ok <==> AfExtensionEnd(stream.Data(), flags, old(stream.p)).Some?
  {
    if !Flag(flags, 1) {
      return true;
    }
    var start := stream.p;
    if !stream.Require(2) {
      return false;
    }
    var length := stream.Read1();
    var ltwfv := stream.Read1();
    ok := SkipPart(stream, Flag(ltwfv, 128), 2);
    if !ok {
      return false;
    }
    ok := SkipPart(stream, Flag(ltwfv, 64), 3);
    if !ok {
      return false;
    }
    ok := SkipPart(stream, Flag(ltwfv, 32), 5);
    if !ok {
      return false;
    }
    stream.Skip(length - (stream.p - start));
    return true;
  }

  /** SrsTsAdaptationField::decode. */
  method ReadAf(stream: SrsStream, control: int) returns (ok: bool, pcr: Option<int>)
    requires stream.Valid()
    modifies stream`p
    ensures stream.Valid() && stream.Data() == old(stream.Data())
    ensures var r := DecodeAf(stream.Data(), old(stream.p), control);
            (ok <==> r.AfOk?) && (ok ==> stream.p == r.pos && pcr == r.pcr)
  {
    if !stream.Require(2) {
      return false, None;
    }
    var length := stream.Read1();
    if control == CONTROL_BOTH && length > 182 {
      return false, None;
    }
    if control == CONTROL_ADAPTION && length != 183 {
      return false, None;
    }
    if length == 0 {
      return true, None;
    }
    var posAf := stream.p;
    var flags := stream.Read1();
    ok, pcr := ReadAfOptional(stream, flags);
    if ok {
      stream.Skip(length - (stream.p - posAf));
    }
  }

  /** SrsTsMessage::dump. */
  method ReadDump(stream: SrsStream, m: Message) returns (r: Message)
    requires stream.Valid()
    modifies stream`p
    ensures stream.Valid() && stream.Data() == old(stream.Data())
    ensures (r, stream.p) == Dump(stream.Data(), old(stream.p), m)
  {
    if stream.Empty() {
      return m;
    }
    var n := stream.nbBytes - stream.p;
    if m.pesLength > 0 {
      n := Min(n, m.pesLength - |m.payload|);
    }
    if n > 0 {
      var chunk := stream.ReadBytes(n);
      return m.(payload := m.payload + chunk);
    }
    return m;
  }

  /** SrsTsPayloadPES::decode_33bits_dts_pts. */
  method ReadTime33(stream: SrsStream) returns (r: TimeResult)
    requires stream.Valid()
    modifies stream`p
    ensures stream.Valid() && stream.Data() == old(stream.Data())
    ensures r == DecodeTime33(stream.Data(), old(stream.p)) && (r.TimeOk? ==> stream.p == old(stream.p) + 5)
  {
    if !stream.Require(5) {
      return TimeFailed;
    }
    var first := stream.Read1();
    if first % 2 != 1 || first / 16 == 0 {
      return TimeFailed;
    }
    var mid := stream.Read2();
    if mid % 2 != 1 {
      return TimeFailed;
    }
    var low := stream.Read2();
    if low % 2 != 1 {
      return TimeFailed;
    }
    return TimeOk(first / 2 % 8 * 0x4000_0000 + mid / 2 * 0x8000 + low / 2);
  }

  /** The timestamps that the flags announce; without them those of the message. */
  method ReadTimes(stream: SrsStream, pefv: byte, m: Message) returns (pts: TimeResult, dts: TimeResult)
    requires stream.Valid() && (pefv / 64 == 2 ==> stream.Require(5)) && (pefv / 64 == 3 ==> stream.Require(10))
    modifies stream`p
    ensures stream.Valid() && stream.Data() == old(stream.Data())
    ensures var d, p := stream.Data(), old(stream.p);
            var first := if pefv / 64 >= 2 then DecodeTime33(d, p) else TimeOk(m.pts);
            var second := if pefv / 64 == 3 then DecodeTime33(d, p + 5)
                          else if pefv / 64 == 2 then first else TimeOk(m.dts);
            (pts.TimeFailed? || dts.TimeFailed? <==> first.TimeFailed? || second.TimeFailed?)
            && (pts.TimeOk? && dts.TimeOk? ==> pts == first && dts == second)
  {
    hide DecodeTime33;
    pts, dts := TimeOk(m.pts), TimeOk(m.dts);
    if pefv / 64 == 2 {
      pts := ReadTime33(stream);
      dts := pts;
    }
    if pefv / 64 == 3 {
      pts := ReadTime33(stream);
      if pts.TimeOk? {
        dts := ReadTime33(stream);
      }
    }
  }

  method SkipStuffing(stream: SrsStream, stuffings: int) returns (ok: bool)
    requires stream.Valid()
    modifies stream`p
    ensures stream.Valid() && stream.Data() == old(stream.Data())
    ensures ok <==> stuffings <= 0 || Has(stream.Data(), old(stream.p), stuffings)
    ensures ok ==> stream.p == old(stream.p) + (if stuffings > 0 then stuffings else 0)
  {
    if stuffings > 0 {
      if !stream.Require(stuffings) {
        return false;
      }
      stream.Skip(stuffings);
    }
    return true;
  }

  /** The optional PES header; the PES extension itself is not modelled. */
  method ReadPesOptional(stream: SrsStream, length: int, m: Message) returns (r: PesHeaderResult)
    requires stream.Valid() && 0 <= length
    modifies stream`p
    ensures stream.Valid() && stream.Data() == old(stream.Data())
    ensures r == DecodePesOptional(stream.Data(), old(stream.p), length, m)
    ensures r.PesHeaderOk? ==> stream.p == r.pos
  {
    hide DecodeTime33, Flag, PesRequired;
    var posPacket := stream.p;
    if !stream.Require(3) {
      return PesHeaderFailed(m, PesError);
    }
    var oocv := stream.Read1();
    var pefv := stream.Read1();
    var headerLength := stream.Read1();
    var posHeader := stream.p;
    var required := PesRequired(pefv);
    if required == 0 {
      return PesHeaderFailed(m, Abort);
    }
    if !stream.Require(required) {
      return PesHeaderFailed(m, PesError);
    }
    if Flag(pefv, 1) {
      return PesHeaderFailed(m, Unmodelled);
    }
    var pts, dts := ReadTimes(stream, pefv, m);
    if pts.TimeFailed? || dts.TimeFailed? {
      return PesHeaderFailed(m, PesError);
    }
    var timed := m.(pts := pts.value, dts := dts.value);
    stream.Skip(posHeader + required - stream.p);
    var ok := SkipStuffing(stream, headerLength - (stream.p - posHeader));
    if !ok {
      return PesHeaderFailed(timed, PesError);
    }
    if length > 0 {
      var nbPacket := length - (stream.p - posPacket);
      timed := timed.(pesLength := if nbPacket > 0 then nbPacket else 0);
    }
    return PesHeaderOk(timed, stream.p);
  }

  method ReadUnitStart(stream: SrsStream, m: Message) returns (status: Status, msg: Message)
    requires stream.Valid()
    modifies stream`p
    ensures stream.Valid() && stream.Data() == old(stream.Data())
    ensures var r := DecodeUnitStart(stream.Data(), old(stream.p), m);
            status == r.status && r.msg == Some(msg) && (status == Success ==> stream.p == r.pos)
  {
    hide DecodePesOptional;
    if !stream.Require(6) {
      return PesError, m;
    }
    var prefix := stream.Read3();
    var sid := stream.Read1();
    var length := stream.Read2();
    if prefix != 1 {
      return PesError, m;
    }
    var m1 := m.(sid := sid);
    if sid == PADDING_STREAM_ID {
      stream.Skip(stream.nbBytes - stream.p);
      return Success, m1;
    }
    if IsRawStreamId(sid) {
      msg := ReadDump(stream, m1);
      return Success, msg;
    }
    var header := ReadPesOptional(stream, length, m1);
    match header {
      case PesHeaderFailed(m2, s) => return s, m2;
      case PesHeaderOk(m2, _) =>
        msg := ReadDump(stream, m2);
        return Success, msg;
    }
  }

  /** SrsTsPayloadPES::decode for a channel with `pending`; a reparse rewinds the stream to its start. */
  method ReadPes(stream: SrsStream, unitStart: bool, cc: byte, pending: Option<Message>)
    returns (status: Status, msg: Option<Message>, out: Option<Message>)
    requires stream.Valid() && 0 < stream.p && 0 < stream.nbBytes && cc < 16
    modifies stream`p
    ensures stream.Valid() && stream.Data() == old(stream.Data())
    ensures var r := DecodePes(stream.Data(), old(stream.p), unitStart, cc, pending);
            status == r.status && msg == r.msg && out == r.out && (status == Success ==> stream.p == r.pos)
  {
    hide DecodeUnitStart;
    var m := if pending.Some? then pending.value else FRESH_MESSAGE;
    var isFresh := m.Fresh();
    if isFresh && !unitStart {
      return PesError, Some(m), None;
    }
    if !isFresh && m.pesLength > 0 && !m.Completed(unitStart) && unitStart {
      stream.Skip(-stream.p);
      return Success, None, None;
    }
    if !isFresh {
      if m.cc >= cc && (m.cc + 1) % 16 > cc {
        stream.Skip(stream.nbBytes - stream.p);
        return Success, Some(m), None;
      }
      if (m.cc + 1) % 16 != cc {
        stream.Skip(-stream.p);
        return Success, None, None;
      }
    }
    m := m.(cc := cc);
    if !isFresh && m.Completed(unitStart) {
      stream.Skip(-stream.p);
      return Success, None, Some(m);
    }
    if !unitStart {
      m := ReadDump(stream, m);
    } else {
      status, m := ReadUnitStart(stream, m);
      if status != Success {
        return status, Some(m), None;
      }
    }
    if isFresh && m.pesLength == 0 {
      return Success, Some(m), None;
    }
    if m.Completed(unitStart) {
      return Success, None, Some(m);
    }
    return Success, Some(m), None;
  }
}
