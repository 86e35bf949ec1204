/**
 The encoding side of srs_kernel_ts.cpp as objects: SrsTsAdaptationField, SrsTsPayloadPES and SrsTsPacket, whose
 `Size` stores the lengths that `Encode` later writes.
 Only the fields that the encoder ever sets are kept; the other flags of the source stay 0.
 */
module TsMuxer {
  import opened Bytes
  import opened TsWire
  import opened TsParse
  import opened KernelStream

  lemma AfBytesParts(discontinuity: bool, pcr: Option<int>, reserved: nat, head: seq<byte>, written: seq<byte>)
    requires AfSize(pcr, reserved) <= 183
    requires head == [AfSize(pcr, reserved) - 1, (if discontinuity then 0x80 else 0) + (if pcr.Some? then 0x10 else 0)]
    requires written == if pcr.Some? then head + PcrBytes(pcr.value) else head
    ensures written + Stuffing(reserved) == AfBytes(discontinuity, pcr, reserved)
  {
    hide PcrBytes, Stuffing;
  }

  lemma PesHeaderParts(sid: byte, size: nat, dts: int, pts: int, fixed: seq<byte>, flags: seq<byte>, times: seq<byte>)
    requires var n := PesLengthField(size, dts, pts); fixed == [0, 0, 1, sid, n / 256, n % 256]
    requires flags == [0x80, if dts == pts then 0x80 else 0xC0, TimesSize(dts, pts)]
    requires times == if dts == pts then Time33(2, pts) else Time33(3, pts) + Time33(1, dts)
    ensures fixed + flags + times == PesHeader(sid, size, dts, pts)
  {
    hide Time33, PesLengthField;
  }

  class AdaptationField {
    var length: int
    var discontinuity: bool
    var pcrFlag: bool
    var pcrBase: int
    var reserved: int

    constructor ()
      ensures length == 0 && !discontinuity && !pcrFlag && reserved == 0
    {
      length, discontinuity, pcrFlag, pcrBase, reserved := 0, false, false, 0, 0;
    }

    ghost function Pcr(): Option<int>
      reads this
    {
      if pcrFlag then Some(pcrBase) else None
    }

    /** The size, stored minus one as the length field. */
    method Size() returns (sz: int)
      modifies this`length
      ensures reserved >= 0 ==> sz == AfSize(Pcr(), reserved)
      ensures length == sz - 1
    {
      sz := 2;
      sz := sz + (if pcrFlag then 6 else 0);
      sz := sz + reserved;
      length := sz - 1;
    }

    /** Writes the field that `Size` measured; stuffing bytes are skipped, so the buffer must hold 0xFF there. */
    method Encode(stream: SrsStream) returns (status: Status)
      requires stream.Valid() && reserved >= 0
      requires length == AfSize(Pcr(), reserved) - 1 && length <= 182
      requires stream.p + length + 1 <= stream.nbBytes
      requires stream.bytes[stream.p + length + 1 - reserved..stream.p + length + 1] == Stuffing(reserved)
      modifies stream`p, stream.bytes
      ensures status == Success
      ensures stream.p == old(stream.p) + length + 1
      ensures stream.bytes[..]
              == Overwrite(old(stream.bytes[..]), old(stream.p), AfBytes(discontinuity, Pcr(), reserved))
    {
      hide Overwrite, PcrBytes, AfBytes, Stuffing;
      ghost var before, start := stream.bytes[..], stream.p;
      if !stream.Require(2) {
        return AdaptationFieldError;
      }
      var head := [length, (if discontinuity then 0x80 else 0) + (if pcrFlag then 0x10 else 0)];
      stream.Write(head);
      if pcrFlag {
        if !stream.Require(6) {
          return AdaptationFieldError;
        }
        stream.Write(PcrBytes(pcrBase));
        OverwriteTwice(before, start, head, PcrBytes(pcrBase));
      }
      if reserved > 0 {
        stream.Skip(reserved);
      }
      ghost var written := if pcrFlag then head + PcrBytes(pcrBase) else head;
      OverwriteSkipped(before, start, written, Stuffing(reserved));
      AfBytesParts(discontinuity, Pcr(), reserved, head, written);
      return Success;
    }
  }

  class PesPayload {
    var streamId: byte
    var packetLength: int
    var ptsDtsFlags: int
    var headerDataLength: int
    var pts: int
    var dts: int

    constructor (sid: byte, size: int, dts: int, pts: int)
      ensures streamId == sid && packetLength == (if size > 0xFFFF then 0 else size)
      ensures ptsDtsFlags == (if dts == pts then 2 else 3) && this.dts == dts && this.pts == pts
    {
      streamId := sid;
      packetLength := if size > 0xFFFF then 0 else size;
      ptsDtsFlags := if dts == pts then 2 else 3;
      headerDataLength := 0;
      this.pts, this.dts := pts, dts;
    }

    ghost predicate Valid()
      reads this
    {
      ptsDtsFlags == (if dts == pts then 2 else 3) && 0 <= packetLength <= 0xFFFF
      && !IsRawStreamId(streamId) && streamId != PADDING_STREAM_ID
    }

    /** The header size; the part after the nine fixed bytes is stored as the header data length. */
    method Size() returns (sz: int)
      requires Valid()
      modifies this`headerDataLength
      ensures headerDataLength == TimesSize(dts, pts) && sz == 9 + TimesSize(dts, pts)
    {
      sz := 0;
      headerDataLength := 0;
      if !IsRawStreamId(streamId) && streamId != PADDING_STREAM_ID {
        sz := sz + 6;
        sz := sz + 3;
        headerDataLength := sz;
        sz := sz + (if ptsDtsFlags == 2 then 5 else 0);
        sz := sz + (if ptsDtsFlags == 3 then 10 else 0);
        headerDataLength := sz - headerDataLength;
      }
    }

    /** Writes the header that `Size` measured. */
    method Encode(stream: SrsStream, ghost size: nat) returns (status: Status)
      requires stream.Valid() && Valid() && headerDataLength == TimesSize(dts, pts)
      requires size > 0 && packetLength == (if size > 0xFFFF then 0 else size)
      requires stream.p + 9 + headerDataLength <= stream.nbBytes
      modifies stream`p, stream.bytes
      ensures status == Success
      ensures stream.p == old(stream.p) + 9 + headerDataLength
      ensures stream.bytes[..] == Overwrite(old(stream.bytes[..]), old(stream.p), PesHeader(streamId, size, dts, pts))
    {
      hide Overwrite, Time33, PesHeader;
      ghost var before, start := stream.bytes[..], stream.p;
      if !stream.Require(6) {
        return PesError;
      }
      var pplv := 0;
      if packetLength > 0 {
        pplv := packetLength + 3 + headerDataLength;
        pplv := if pplv > 0xFFFF then 0 else pplv;
      }
      var fixed := [0, 0, 1, streamId, pplv / 256, pplv % 256];
      stream.Write(fixed);
      if !stream.Require(3) {
        return PesError;
      }
      var flags := [0x80, ptsDtsFlags * 64, headerDataLength];
      stream.Write(flags);
      OverwriteTwice(before, start, fixed, flags);
      if !stream.Require(if ptsDtsFlags == 2 then 5 else 10) {
        return PesError;
      }
      ghost var times := if ptsDtsFlags == 2 then Time33(2, pts) else Time33(3, pts) + Time33(1, dts);
      if ptsDtsFlags == 2 {
        stream.Write(Time33(2, pts));
      }
      if ptsDtsFlags == 3 {
        stream.Write(Time33(3, pts));
        stream.Write(Time33(1, dts));
        OverwriteTwice(Overwrite(before, start, fixed + flags), start + 9, Time33(3, pts), Time33(1, dts));
      }
      OverwriteTwice(before, start, fixed + flags, times);
      PesHeaderParts(streamId, size, dts, pts, fixed, flags, times);
      return Success;
    }
  }

  datatype AfFields = AfFields(discontinuity: bool, pcr: Option<int>, reserved: nat)

  datatype PesFields = PesFields(sid: byte, packetLength: int, dts: int, pts: int)

  /** A packet as a value. */
  datatype PacketFields = PacketFields(unitStart: bool, pid: int, control: int, cc: byte,
                                       af: Option<AfFields>, pes: Option<PesFields>)
  {
    function AfLength(): nat { if af.Some? then AfSize(af.value.pcr, af.value.reserved) else 0 }

    function Reserved(): nat
      ensures Reserved() <= AfLength()
    {
      if af.Some? then af.value.reserved else 0
    }

    function Size(): nat { 4 + AfLength() + (if pes.Some? then 9 + TimesSize(pes.value.dts, pes.value.pts) else 0) }

    function Padded(stuffings: nat): PacketFields {
      if af.Some? then this.(control := CONTROL_BOTH, af := Some(af.value.(reserved := stuffings)))
      else this.(control := CONTROL_BOTH,
                 af := Some(AfFields(false, None, if stuffings > 2 then stuffings - 2 else 0)))
    }

    function Bytes(size: nat): (s: seq<byte>)
      requires AfLength() <= 183 && 0 <= control < 4
      ensures |s| == Size()
    {
      Header(unitStart, pid, control, cc)
      + (if af.Some? then AfBytes(af.value.discontinuity, af.value.pcr, af.value.reserved) else [])
      + (if pes.Some? then PesHeader(pes.value.sid, size, pes.value.dts, pes.value.pts) else [])
    }
  }

  class TsPacket {
    var unitStart: bool
    var pid: int
    var control: int
    var continuityCounter: byte
    var af: AdaptationField?
    var pes: PesPayload?

    /** create_pes_first. */
    constructor First(pid: int, sid: byte, cc: byte, discontinuity: bool, pcr: int, dts: int, pts: int, size: int)
      requires size > 0 && !IsRawStreamId(sid) && sid != PADDING_STREAM_ID && 0 <= pid < 0x2000
      ensures Valid() && fresh(Parts()) && pes != null
      ensures unitStart && this.pid == pid && continuityCounter == cc && control == Control(af != null)
      ensures pcr >= 0 ==> af != null && af.Pcr() == Some(pcr) && af.discontinuity == discontinuity && af.reserved == 0
      ensures pcr < 0 ==> af == null
      ensures pes.streamId == sid && pes.dts == dts && pes.pts == pts
              && pes.packetLength == (if size > 0xFFFF then 0 else size)
    {
      unitStart, this.pid, continuityCounter := true, pid, cc;
      control := CONTROL_PAYLOAD;
      af := null;
      new;
      pes := new PesPayload(sid, size, dts, pts);
      if pcr >= 0 {
        af := new AdaptationField();
        control := CONTROL_BOTH;
        af.discontinuity := discontinuity;
        af.pcrFlag := true;
        af.pcrBase := pcr;
      }
    }

    /** create_pes_continue. */
    constructor Continue(pid: int, cc: byte)
      requires 0 <= pid < 0x2000
      ensures Valid() && af == null && pes == null && fresh(Parts())
      ensures !unitStart && this.pid == pid && continuityCounter == cc && control == CONTROL_PAYLOAD
    {
      unitStart, this.pid, continuityCounter := false, pid, cc;
      control := CONTROL_PAYLOAD;
      af, pes := null, null;
    }

    ghost function Parts(): set<object>
      reads this
    {
      (if af != null then {af} else {}) + (if pes != null then {pes} else {})
    }

    ghost predicate Valid()
      reads this, Parts()
    {
      0 <= pid < 0x2000 && (control == CONTROL_PAYLOAD || control == CONTROL_BOTH)
      && (af != null ==> af.reserved >= 0) && (pes != null ==> pes.Valid())
    }

    /** Everything that the packet was told, without the lengths that `Size` stores. */
    ghost function Fields(): PacketFields
      requires Valid()
      reads this, Parts()
    {
      PacketFields(unitStart, pid, control, continuityCounter,
                   if af == null then None else Some(AfFields(af.discontinuity, af.Pcr(), af.reserved)),
                   if pes == null then None else Some(PesFields(pes.streamId, pes.packetLength, pes.dts, pes.pts)))
    }

    /** Whether the stored lengths are those of the current fields. */
    ghost predicate Sized()
      requires Valid()
      reads this, Parts()
    {
      (af != null ==> af.length == Fields().AfLength() - 1)
      && (pes != null ==> pes.headerDataLength == TimesSize(pes.dts, pes.pts))
    }

    /** The header size; the adaptation field and the PES header remember theirs for `Encode`. */
    method Size() returns (sz: int)
      requires Valid()
      modifies Parts()
      ensures Valid() && Sized() && Fields() == old(Fields())
      ensures sz == Fields().Size()
    {
      sz := 4;
      if af != null {
        var n := af.Size();
        sz := sz + n;
      }
      if pes != null {
        var n := pes.Size();
        sz := sz + n;
      }
    }

    /** Makes room for stuffing: a fresh adaptation field takes two of the bytes itself. */
    method Padding(stuffings: int)
      requires Valid() && stuffings > 0
      requires af == null ==> control == CONTROL_PAYLOAD
      modifies this`af, this`control, Parts()
      ensures Valid() && pes == old(pes) && fresh(Parts() - old(Parts()))
      ensures control == CONTROL_BOTH
      ensures Fields() == old(Fields()).Padded(stuffings)
    {
      var n := stuffings;
      if af == null {
        af := new AdaptationField();
        var sz := af.Size();
        n := if n - sz > 0 then n - sz else 0;
      }
      af.reserved := n;
      if control == CONTROL_PAYLOAD {
        control := CONTROL_BOTH;
      }
    }

    /** Writes the headers; stuffing bytes must already be in the buffer. */
    method Encode(stream: SrsStream, ghost size: nat) returns (status: Status)
      requires Valid() && Sized() && stream.Valid() && stream.p == 0 && stream.nbBytes == Fields().Size()
      requires Fields().af.Some? ==> AfSize(Fields().af.value.pcr, Fields().af.value.reserved) <= 183
      requires Fields().pes.Some? ==>
                 size > 0 && Fields().pes.value.packetLength == (if size > 0xFFFF then 0 else size)
      requires var n := 4 + Fields().AfLength();
               stream.bytes[n - Fields().Reserved()..n] == Stuffing(Fields().Reserved())
      modifies stream`p, stream.bytes
      ensures status == Success
      ensures stream.bytes[..] == Overwrite(old(stream.bytes[..]), 0, Fields().Bytes(size))
    {
      hide Overwrite, AfBytes, PesHeader, Stuffing, Header;
      ghost var before := stream.bytes[..];
      if !stream.Require(4) {
        return HeaderError;
      }
      ghost var fields := Fields();
      ghost var n := 4 + fields.AfLength();
      stream.Write(Header(unitStart, pid, control, continuityCounter));
      ghost var written := Header(unitStart, pid, control, continuityCounter);
      OverwriteKeeps(before, 0, written, n - fields.Reserved(), n);
      if af != null {
        status := af.Encode(stream);
        if status != Success {
          return;
        }
        OverwriteTwice(before, 0, written, AfBytes(af.discontinuity, af.Pcr(), af.reserved));
        written := written + AfBytes(af.discontinuity, af.Pcr(), af.reserved);
      }
      if pes != null {
        status := pes.Encode(stream, size);
        if status != Success {
          return;
        }
        OverwriteTwice(before, 0, written, PesHeader(pes.streamId, size, pes.dts, pes.pts));
        written := written + PesHeader(pes.streamId, size, pes.dts, pes.pts);
      }
      assert Fields() == fields;
      assert written == fields.Bytes(size);
      return Success;
    }
  }
}
