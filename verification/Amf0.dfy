/**
 The AMF0 values of srs_rtmp_amf0.cpp, what `write` puts in a stream for them, and what `read` makes of any bytes.
 The main results: reading is total, consumes at least a byte and stays inside the stream; and writing then reading
 gives a value back exactly when no string is longer than 32767 bytes and no number starts with the bytes 00 09.
 */
module Amf0 {
  import opened Bytes

  const MARKER_NUMBER: byte := 0x00
  const MARKER_BOOLEAN: byte := 0x01
  const MARKER_STRING: byte := 0x02
  const MARKER_OBJECT: byte := 0x03
  const MARKER_NULL: byte := 0x05
  const MARKER_UNDEFINED: byte := 0x06
  const MARKER_ECMA_ARRAY: byte := 0x08
  const MARKER_OBJECT_END: byte := 0x09
  const MARKER_STRICT_ARRAY: byte := 0x0A
  const MARKER_DATE: byte := 0x0B

  /** The eight bytes of a double or an int64_t, kept as they are. */
  type bits64 = s: seq<byte> | |s| == 8 witness [0, 0, 0, 0, 0, 0, 0, 0]

  type bits16 = s: seq<byte> | |s| == 2 witness [0, 0]

  type int32 = x: int | -0x8000_0000 <= x < 0x8000_0000

  datatype Property = Property(key: seq<byte>, value: Value)

  datatype Value =
    | Text(text: seq<byte>)
    | Boolean(flag: bool)
    | Number(number: bits64)
    | Null
    | Undefined
    | Object(props: seq<Property>)
    | EcmaArray(count: int32, props: seq<Property>)
    | StrictArray(count: int32, elems: seq<Value>)
    | Date(time: bits64, zone: bits16)
    | ObjectEnd

  // ---------- writing ----------

  const END_BYTES: seq<byte> := [0, 0, MARKER_OBJECT_END]

  function Utf8(s: seq<byte>): (b: seq<byte>)
    ensures |b| == 2 + |s|
  {
    [|s| / 256 % 256, |s| % 256] + s
  }

  function Enc(v: Value): (b: seq<byte>)
    ensures |b| >= 1 && b[0] != MARKER_OBJECT_END
    decreases v, 1
  {
    match v
    case Text(text) => [MARKER_STRING] + Utf8(text)
    case Boolean(flag) => [MARKER_BOOLEAN, if flag then 1 else 0]
    case Number(number) => [MARKER_NUMBER] + number
    case Null => [MARKER_NULL]
    case Undefined => [MARKER_UNDEFINED]
    case Object(props) => [MARKER_OBJECT] + EncProps(props) + END_BYTES
    case EcmaArray(count, props) => [MARKER_ECMA_ARRAY] + BigEndian(4, count) + EncProps(props) + END_BYTES
    case StrictArray(count, elems) => [MARKER_STRICT_ARRAY] + BigEndian(4, count) + EncElems(elems)
    case Date(time, zone) => [MARKER_DATE] + time + zone
    case ObjectEnd => END_BYTES
  }

  function EncProps(props: seq<Property>): (b: seq<byte>)
    decreases props, 0
  {
    if props == [] then [] else Utf8(props[0].key) + Enc(props[0].value) + EncProps(props[1..])
  }

  function EncElems(elems: seq<Value>): (b: seq<byte>)
    ensures |b| >= |elems|
    decreases elems, 0
  {
    if elems == [] then [] else Enc(elems[0]) + EncElems(elems[1..])
  }

  /** total_size of the source: the size predicted without writing. */
  function TotalSize(v: Value): (n: nat)
    decreases v, 1
  {
    match v
    case Text(text) => 1 + (2 + |text|)
    case Boolean(_) => 1 + 1
    case Number(_) => 1 + 8
    case Null => 1
    case Undefined => 1
    case Object(props) => 1 + PropsSize(props) + 3
    case EcmaArray(_, props) => 1 + 4 + PropsSize(props) + 3
    case StrictArray(_, elems) => 1 + 4 + ElemsSize(elems)
    case Date(_, _) => 1 + 8 + 2
    case ObjectEnd => 2 + 1
  }

  function PropsSize(props: seq<Property>): (n: nat)
    decreases props, 0
  {
    if props == [] then 0 else 2 + |props[0].key| + TotalSize(props[0].value) + PropsSize(props[1..])
  }

  function ElemsSize(elems: seq<Value>): (n: nat)
    decreases elems, 0
  {
    if elems == [] then 0 else TotalSize(elems[0]) + ElemsSize(elems[1..])
  }

  /** The predictor is exact: `write` emits total_size bytes. */
  lemma {:induction false} WritesTotalSize(v: Value)
    ensures |Enc(v)| == TotalSize(v)
    decreases v, 1
  {
    match v
    case Object(props) => PropsWriteTheirSize(props);
    case EcmaArray(_, props) => PropsWriteTheirSize(props);
    case StrictArray(_, elems) => ElemsWriteTheirSize(elems);
    case _ =>
  }

  lemma {:induction false} PropsWriteTheirSize(props: seq<Property>)
    ensures |EncProps(props)| == PropsSize(props)
    decreases props, 0
  {
    if props != [] {
      WritesTotalSize(props[0].value);
      PropsWriteTheirSize(props[1..]);
    }
  }

  lemma {:induction false} ElemsWriteTheirSize(elems: seq<Value>)
    ensures |EncElems(elems)| == ElemsSize(elems)
    decreases elems, 0
  {
    if elems != [] {
      WritesTotalSize(elems[0]);
      ElemsWriteTheirSize(elems[1..]);
    }
  }

  // ---------- reading ----------

  /** A value read and the position after it; every error of the source is `Failed`. */
  datatype Read<T> = Got(value: T, pos: int) | Failed

  predicate Has(d: seq<byte>, pos: int, n: int) { n <= |d| - pos }

  /** srs_amf0_is_object_eof: the three-byte look-ahead. */
  predicate IsObjectEof(d: seq<byte>, pos: int)
    requires 0 <= pos <= |d|
  {
    Has(d, pos, 3) && d[pos] == 0 && d[pos + 1] == 0 && d[pos + 2] == MARKER_OBJECT_END
  }

  /** srs_amf0_read_utf8: the length is a signed 16-bit integer, and a negative one reads as empty. */
  function ReadUtf8(d: seq<byte>, pos: int): (r: Read<seq<byte>>)
    requires 0 <= pos <= |d|
    ensures r.Got? ==> pos < r.pos <= |d| && |r.value| <= 0x7FFF
  {
    if !Has(d, pos, 2) then Failed
    else
      var length := Signed16(Be16(d[pos], d[pos + 1]));
      if length <= 0 then Got([], pos + 2)
      else if !Has(d, pos + 2, length) then Failed
      else Got(d[pos + 2..pos + 2 + length], pos + 2 + length)
  }

  /** SrsUnSortedHashtable::set: drop the first property of that name, then append. */
  function SetProperty(props: seq<Property>, key: seq<byte>, value: Value): (r: seq<Property>)
  {
    RemoveProperty(props, key) + [Property(key, value)]
  }

  function RemoveProperty(props: seq<Property>, key: seq<byte>): (r: seq<Property>)
  {
    if props == [] then []
    else if props[0].key == key then props[1..]
    else [props[0]] + RemoveProperty(props[1..], key)
  }

  /** srs_amf0_read_any. */
  function ReadAny(d: seq<byte>, pos: int): (r: Read<Value>)
    requires 0 <= pos <= |d|
    ensures r.Got? ==> pos < r.pos <= |d|
    decreases |d| - pos, 1
  {
    if IsObjectEof(d, pos) then Got(ObjectEnd, pos + 3)
    else if !Has(d, pos, 1) then Failed
    else
      var marker := d[pos];
      if marker == MARKER_STRING then
        var r := ReadUtf8(d, pos + 1);
        if r.Failed? then Failed else Got(Text(r.value), r.pos)
      else if marker == MARKER_BOOLEAN then
        if !Has(d, pos + 1, 1) then Failed else Got(Boolean(d[pos + 1] != 0), pos + 2)
      else if marker == MARKER_NUMBER then
        if !Has(d, pos + 1, 8) then Failed else Got(Number(d[pos + 1..pos + 9]), pos + 9)
      else if marker == MARKER_NULL then Got(Null, pos + 1)
      else if marker == MARKER_UNDEFINED then Got(Undefined, pos + 1)
      else if marker == MARKER_OBJECT then
        var r := ReadProps(d, pos + 1, []);
        if r.Failed? then Failed else Got(Object(r.value), r.pos)
      else if marker == MARKER_ECMA_ARRAY then
        if !Has(d, pos + 1, 4) then Failed
        else
          var r := ReadProps(d, pos + 5, []);
          if r.Failed? then Failed
          else Got(EcmaArray(Signed32(Be32(d[pos + 1], d[pos + 2], d[pos + 3], d[pos + 4])), r.value), r.pos)
      else if marker == MARKER_STRICT_ARRAY then
        if !Has(d, pos + 1, 4) then Failed
        else
          var count := Signed32(Be32(d[pos + 1], d[pos + 2], d[pos + 3], d[pos + 4]));
          var r := ReadElems(d, pos + 5, count, []);
          if r.Failed? then Failed else Got(StrictArray(count, r.value), r.pos)
      else if marker == MARKER_DATE then
        if !Has(d, pos + 1, 10) then Failed else Got(Date(d[pos + 1..pos + 9], d[pos + 9..pos + 11]), pos + 11)
      else Failed
  }

  /** The property loop of objects and ecma arrays; the end of the stream also ends it. */
  function ReadProps(d: seq<byte>, pos: int, props: seq<Property>): (r: Read<seq<Property>>)
    requires 0 <= pos <= |d|
    ensures r.Got? ==> pos <= r.pos <= |d|
    decreases |d| - pos, 0
  {
    if pos == |d| then Got(props, pos)
    else if IsObjectEof(d, pos) then Got(props, pos + 3)
    else
      var key := ReadUtf8(d, pos);
      if key.Failed? then Failed
      else
        var value := ReadAny(d, key.pos);
        if value.Failed? then Failed
        else ReadProps(d, value.pos, SetProperty(props, key.value, value.value))
  }

  /** The element loop of strict arrays. */
  function ReadElems(d: seq<byte>, pos: int, count: int, elems: seq<Value>): (r: Read<seq<Value>>)
    requires 0 <= pos <= |d|
    ensures r.Got? ==> pos <= r.pos <= |d|
    decreases |d| - pos, 2
  {
    if |elems| >= count || pos == |d| then Got(elems, pos)
    else
      var value := ReadAny(d, pos);
      if value.Failed? then Failed else ReadElems(d, value.pos, count, elems + [value.value])
  }

  // ---------- which values come back ----------

  predicate UniqueKeys(props: seq<Property>) {
    forall i, j :: 0 <= i < j < |props| ==> props[i].key != props[j].key
  }

  /** What the classes of the source maintain: `set` keeps keys unique, `append` keeps the count. */
  predicate WellFormed(v: Value)
    decreases v, 1
  {
    match v
    case Object(props) => UniqueKeys(props) && PropsWellFormed(props)
    case EcmaArray(_, props) => UniqueKeys(props) && PropsWellFormed(props)
    case StrictArray(count, elems) => count == |elems| && ElemsWellFormed(elems)
    case _ => true
  }

  predicate PropsWellFormed(props: seq<Property>)
    decreases props, 0
  {
    props == [] || (WellFormed(props[0].value) && PropsWellFormed(props[1..]))
  }

  predicate ElemsWellFormed(elems: seq<Value>)
    decreases elems, 0
  {
    elems == [] || (WellFormed(elems[0]) && ElemsWellFormed(elems[1..]))
  }

  /** The values that AMF0 as read here can carry. */
  predicate Representable(v: Value)
    decreases v, 1
  {
    match v
    case Text(text) => |text| <= 0x7FFF
    case Number(number) => number[0] != 0 || number[1] != MARKER_OBJECT_END
    case Object(props) => PropsRepresentable(props)
    case EcmaArray(_, props) => PropsRepresentable(props)
    case StrictArray(_, elems) => ElemsRepresentable(elems)
    case _ => true
  }

  predicate PropsRepresentable(props: seq<Property>)
    decreases props, 0
  {
    props == [] || (|props[0].key| <= 0x7FFF && Representable(props[0].value) && PropsRepresentable(props[1..]))
  }

  predicate ElemsRepresentable(elems: seq<Value>)
    decreases elems, 0
  {
    elems == [] || (Representable(elems[0]) && ElemsRepresentable(elems[1..]))
  }

  // ---------- writing then reading ----------

  /** `d` holds the bytes `b` at `pos`. */
  predicate At(d: seq<byte>, pos: int, b: seq<byte>) {
    0 <= pos && pos + |b| <= |d| && d[pos..pos + |b|] == b
  }

  lemma AtSplit(d: seq<byte>, pos: int, a: seq<byte>, b: seq<byte>)
    requires At(d, pos, a + b)
    ensures At(d, pos, a) && At(d, pos + |a|, b)
  {
    assert d[pos..pos + |a|] == (a + b)[..|a|];
    assert d[pos + |a|..pos + |a| + |b|] == (a + b)[|a|..];
  }

  lemma AtInside(d: seq<byte>, pos: int, b: seq<byte>)
    requires At(d, pos, b)
    ensures 0 <= pos && pos + |b| <= |d|
  {
  }

  lemma AtByte(d: seq<byte>, pos: int, b: seq<byte>, k: nat)
    requires At(d, pos, b) && k < |b|
    ensures d[pos + k] == b[k]
  {
    assert d[pos + k] == d[pos..pos + |b|][k];
  }

  lemma Utf8Back(d: seq<byte>, pos: int, s: seq<byte>)
    requires At(d, pos, Utf8(s)) && |s| <= 0x7FFF
    ensures ReadUtf8(d, pos) == Got(s, pos + 2 + |s|)
  {
    AtByte(d, pos, Utf8(s), 0);
    AtByte(d, pos, Utf8(s), 1);
    AtSplit(d, pos, [|s| / 256 % 256, |s| % 256], s);
    LengthBack(|s|);
    hide Be16, Signed16;
  }

  lemma LengthBack(n: nat)
    requires n <= 0x7FFF
    ensures Signed16(Be16(n / 256 % 256, n % 256)) == n
  {
  }

  lemma CountBack(d: seq<byte>, pos: int, count: int32)
    requires At(d, pos, BigEndian(4, count))
    ensures Signed32(Be32(d[pos], d[pos + 1], d[pos + 2], d[pos + 3])) == count
  {
    var b := BigEndian(4, count);
    AtByte(d, pos, b, 0);
    AtByte(d, pos, b, 1);
    AtByte(d, pos, b, 2);
    AtByte(d, pos, b, 3);
    Signed32RoundTrip(b, count);
  }

  /** A key that is not the end marker is not taken for one. */
  lemma KeyIsNotEof(d: seq<byte>, pos: int, key: seq<byte>, v: Value)
    requires |key| <= 0x7FFF && At(d, pos, Utf8(key) + Enc(v))
    ensures !IsObjectEof(d, pos)
  {
    var b := Utf8(key) + Enc(v);
    AtByte(d, pos, b, 0);
    AtByte(d, pos, b, 1);
    AtByte(d, pos, b, 2);
  }

  lemma EndIsEof(d: seq<byte>, pos: int)
    requires At(d, pos, END_BYTES)
    ensures 0 <= pos && pos + 3 <= |d| && IsObjectEof(d, pos)
  {
    AtByte(d, pos, END_BYTES, 0);
    AtByte(d, pos, END_BYTES, 1);
    AtByte(d, pos, END_BYTES, 2);
  }

  lemma {:induction false} RemoveAbsent(props: seq<Property>, key: seq<byte>)
    requires forall i :: 0 <= i < |props| ==> props[i].key != key
    ensures RemoveProperty(props, key) == props
  {
    if props != [] { RemoveAbsent(props[1..], key); }
  }

  lemma FreshKeyIsAppended(done: seq<Property>, props: seq<Property>)
    requires UniqueKeys(done + props) && props != []
    ensures SetProperty(done, props[0].key, props[0].value) == done + [props[0]]
  {
    assert forall i :: 0 <= i < |done| ==> done[i] == (done + props)[i];
    assert props[0] == (done + props)[|done|];
    RemoveAbsent(done, props[0].key);
  }

  lemma TextReadsBack(d: seq<byte>, pos: int, text: seq<byte>)
    requires At(d, pos, Enc(Text(text))) && Representable(Text(text))
    ensures ReadAny(d, pos) == Got(Text(text), pos + |Enc(Text(text))|)
  {
    hide ReadUtf8, ReadProps, ReadElems, Utf8;
    AtByte(d, pos, Enc(Text(text)), 0);
    AtSplit(d, pos, [MARKER_STRING], Utf8(text));
    Utf8Back(d, pos + 1, text);
  }

  lemma NumberReadsBack(d: seq<byte>, pos: int, v: Value)
    requires v.Number? && At(d, pos, Enc(v)) && Representable(v)
    ensures ReadAny(d, pos) == Got(v, pos + |Enc(v)|)
  {
    hide ReadUtf8, ReadProps, ReadElems, Utf8;
    var b := Enc(v);
    AtByte(d, pos, b, 0);
    AtByte(d, pos, b, 1);
    AtByte(d, pos, b, 2);
    AtSplit(d, pos, [MARKER_NUMBER], v.number);
  }

  lemma DateReadsBack(d: seq<byte>, pos: int, v: Value)
    requires v.Date? && At(d, pos, Enc(v)) && Representable(v)
    ensures ReadAny(d, pos) == Got(v, pos + |Enc(v)|)
  {
    hide ReadUtf8, ReadProps, ReadElems, Utf8;
    var b := Enc(v);
    AtByte(d, pos, b, 0);
    assert b == [MARKER_DATE] + (v.time + v.zone);
    AtSplit(d, pos, [MARKER_DATE], v.time + v.zone);
    AtSplit(d, pos + 1, v.time, v.zone);
  }

  lemma MarkerReadsBack(d: seq<byte>, pos: int, v: Value)
    requires v.Boolean? || v.Null? || v.Undefined? || v.ObjectEnd?
    requires At(d, pos, Enc(v)) && Representable(v)
    ensures ReadAny(d, pos) == Got(v, pos + |Enc(v)|)
  {
    hide ReadUtf8, ReadProps, ReadElems, Utf8;
    var b := Enc(v);
    AtByte(d, pos, b, 0);
    if v.Boolean? || v.ObjectEnd? { AtByte(d, pos, b, 1); }
    if v.ObjectEnd? { AtByte(d, pos, b, 2); }
  }

  lemma ScalarReadsBack(d: seq<byte>, pos: int, v: Value)
    requires At(d, pos, Enc(v)) && Representable(v)
    requires !v.Object? && !v.EcmaArray? && !v.StrictArray?
    ensures ReadAny(d, pos) == Got(v, pos + |Enc(v)|)
  {
    hide ReadAny, Enc, Representable;
    match v
    case Text(text) => TextReadsBack(d, pos, text);
    case Number(_) => NumberReadsBack(d, pos, v);
    case Date(_, _) => DateReadsBack(d, pos, v);
    case Boolean(_) => MarkerReadsBack(d, pos, v);
    case Null => MarkerReadsBack(d, pos, v);
    case Undefined => MarkerReadsBack(d, pos, v);
    case ObjectEnd => MarkerReadsBack(d, pos, v);
  }

  lemma ObjectBack(d: seq<byte>, pos: int, props: seq<Property>)
    requires At(d, pos, Enc(Object(props)))
    requires ReadProps(d, pos + 1, []) == Got(props, pos + 1 + |EncProps(props)| + 3)
    ensures ReadAny(d, pos) == Got(Object(props), pos + |Enc(Object(props))|)
  {
    hide ReadProps, ReadElems, EncProps;
    AtByte(d, pos, Enc(Object(props)), 0);
  }

  lemma EcmaArrayBack(d: seq<byte>, pos: int, count: int32, props: seq<Property>)
    requires At(d, pos, Enc(EcmaArray(count, props))) && At(d, pos + 1, BigEndian(4, count))
    requires ReadProps(d, pos + 5, []) == Got(props, pos + 5 + |EncProps(props)| + 3)
    ensures ReadAny(d, pos) == Got(EcmaArray(count, props), pos + |Enc(EcmaArray(count, props))|)
  {
    hide ReadProps, ReadElems, EncProps, BigEndian, Be32;
    AtByte(d, pos, Enc(EcmaArray(count, props)), 0);
    CountBack(d, pos + 1, count);
  }

  lemma StrictArrayBack(d: seq<byte>, pos: int, count: int32, elems: seq<Value>)
    requires At(d, pos, Enc(StrictArray(count, elems))) && At(d, pos + 1, BigEndian(4, count))
    requires ReadElems(d, pos + 5, count, []) == Got(elems, pos + 5 + |EncElems(elems)|)
    ensures ReadAny(d, pos) == Got(StrictArray(count, elems), pos + |Enc(StrictArray(count, elems))|)
  {
    hide ReadProps, ReadElems, EncElems, BigEndian, Be32;
    AtByte(d, pos, Enc(StrictArray(count, elems)), 0);
    CountBack(d, pos + 1, count);
  }

  /** One byte of marker, then the rest. */
  lemma AtMarker(d: seq<byte>, pos: int, marker: byte, rest: seq<byte>)
    requires At(d, pos, [marker] + rest)
    ensures At(d, pos + 1, rest)
  {
    AtSplit(d, pos, [marker], rest);
  }

  /** Where the parts of the values with parts are. */
  lemma ObjectParts(d: seq<byte>, pos: int, props: seq<Property>)
    requires At(d, pos, Enc(Object(props)))
    ensures At(d, pos + 1, EncProps(props) + END_BYTES)
  {
    hide EncProps, At;
    assert Enc(Object(props)) == [MARKER_OBJECT] + (EncProps(props) + END_BYTES);
    AtMarker(d, pos, MARKER_OBJECT, EncProps(props) + END_BYTES);
  }

  lemma EcmaArrayParts(d: seq<byte>, pos: int, count: int32, props: seq<Property>)
    requires At(d, pos, Enc(EcmaArray(count, props)))
    ensures At(d, pos + 1, BigEndian(4, count)) && At(d, pos + 5, EncProps(props) + END_BYTES)
  {
    hide EncProps, BigEndian, At;
    var rest := BigEndian(4, count) + (EncProps(props) + END_BYTES);
    assert Enc(EcmaArray(count, props)) == [MARKER_ECMA_ARRAY] + rest;
    AtMarker(d, pos, MARKER_ECMA_ARRAY, rest);
    AtSplit(d, pos + 1, BigEndian(4, count), EncProps(props) + END_BYTES);
  }

  lemma StrictArrayParts(d: seq<byte>, pos: int, count: int32, elems: seq<Value>)
    requires At(d, pos, Enc(StrictArray(count, elems)))
    ensures At(d, pos + 1, BigEndian(4, count)) && At(d, pos + 5, EncElems(elems))
  {
    hide EncElems, BigEndian, At;
    var rest := BigEndian(4, count) + EncElems(elems);
    assert Enc(StrictArray(count, elems)) == [MARKER_STRICT_ARRAY] + rest;
    AtMarker(d, pos, MARKER_STRICT_ARRAY, rest);
    AtSplit(d, pos + 1, BigEndian(4, count), EncElems(elems));
  }

  lemma {:induction false} ReadsBack(d: seq<byte>, pos: int, v: Value)
    requires At(d, pos, Enc(v)) && WellFormed(v) && Representable(v)
    ensures ReadAny(d, pos) == Got(v, pos + |Enc(v)|)
    decreases v, 1
  {
    hide ReadAny, ReadProps, ReadElems, Enc, EncProps, EncElems, BigEndian, At, UniqueKeys;
    match v
    case Object(props) =>
      ObjectParts(d, pos, props);
      assert [] + props == props;
      PropsReadBack(d, pos + 1, [], props);
      ObjectBack(d, pos, props);
    case EcmaArray(count, props) =>
      EcmaArrayParts(d, pos, count, props);
      assert [] + props == props;
      PropsReadBack(d, pos + 5, [], props);
      EcmaArrayBack(d, pos, count, props);
    case StrictArray(count, elems) =>
      StrictArrayParts(d, pos, count, elems);
      assert [] + elems == elems;
      ElemsReadBack(d, pos + 5, count, [], elems);
      StrictArrayBack(d, pos, count, elems);
    case _ =>
      ScalarReadsBack(d, pos, v);
  }

  lemma {:induction false} PropsReadBack(d: seq<byte>, pos: int, done: seq<Property>, props: seq<Property>)
    requires At(d, pos, EncProps(props) + END_BYTES)
    requires UniqueKeys(done + props) && PropsWellFormed(props) && PropsRepresentable(props)
    ensures ReadProps(d, pos, done) == Got(done + props, pos + |EncProps(props)| + 3)
    decreases props, 0
  {
    hide ReadAny, ReadUtf8, Enc, Utf8, IsObjectEof, At, WellFormed, Representable, UniqueKeys, SetProperty;
    if props == [] {
      assert done + props == done;
      assert EncProps(props) + END_BYTES == END_BYTES;
      EndIsEof(d, pos);
    } else {
      var key, value := props[0].key, props[0].value;
      var rest := EncProps(props[1..]) + END_BYTES;
      assert EncProps(props) + END_BYTES == Utf8(key) + (Enc(value) + rest);
      AtSplit(d, pos, Utf8(key), Enc(value) + rest);
      AtSplit(d, pos + 2 + |key|, Enc(value), rest);
      assert Utf8(key) + (Enc(value) + rest) == (Utf8(key) + Enc(value)) + rest;
      AtSplit(d, pos, Utf8(key) + Enc(value), rest);
      KeyIsNotEof(d, pos, key, value);
      Utf8Back(d, pos, key);
      ReadsBack(d, pos + 2 + |key|, value);
      FreshKeyIsAppended(done, props);
      assert done + [props[0]] + props[1..] == done + props;
      PropsReadBack(d, pos + 2 + |key| + |Enc(value)|, done + [props[0]], props[1..]);
    }
  }

  lemma {:induction false} ElemsReadBack(d: seq<byte>, pos: int, count: int, done: seq<Value>, elems: seq<Value>)
    requires At(d, pos, EncElems(elems)) && count == |done| + |elems|
    requires ElemsWellFormed(elems) && ElemsRepresentable(elems)
    ensures ReadElems(d, pos, count, done) == Got(done + elems, pos + |EncElems(elems)|)
    decreases elems, 0
  {
    hide ReadAny, ReadProps, ReadElems, Enc, EncProps, EncElems, At, WellFormed, Representable, ElemsWellFormed,
         ElemsRepresentable;
    AtInside(d, pos, EncElems(elems));
    if elems == [] {
      assert done + elems == done;
      NoElems(d, pos, count, done);
    } else {
      var v, rest := elems[0], elems[1..];
      ElemsParts(elems);
      AtSplit(d, pos, Enc(v), EncElems(rest));
      AtInside(d, pos + |Enc(v)|, EncElems(rest));
      ReadsBack(d, pos, v);
      assert done + [v] + rest == done + elems;
      ElemsReadBack(d, pos + |Enc(v)|, count, done + [v], rest);
      ReadsOneElem(d, pos, count, done, v, pos + |Enc(v)|);
    }
  }

  lemma NoElems(d: seq<byte>, pos: int, count: int, done: seq<Value>)
    requires 0 <= pos <= |d| && count == |done|
    ensures EncElems([]) == [] && ReadElems(d, pos, count, done) == Got(done, pos)
  {
    hide ReadAny;
  }

  lemma ElemsParts(elems: seq<Value>)
    requires elems != []
    ensures EncElems(elems) == Enc(elems[0]) + EncElems(elems[1..])
    ensures ElemsWellFormed(elems) == (WellFormed(elems[0]) && ElemsWellFormed(elems[1..]))
    ensures ElemsRepresentable(elems) == (Representable(elems[0]) && ElemsRepresentable(elems[1..]))
  {
    hide Enc, WellFormed, Representable;
  }

  lemma ReadsOneElem(d: seq<byte>, pos: int, count: int, done: seq<Value>, v: Value, next: int)
    requires 0 <= pos < next <= |d| && |done| < count && ReadAny(d, pos) == Got(v, next)
    ensures ReadElems(d, pos, count, done) == ReadElems(d, next, count, done + [v])
  {
    hide ReadAny;
  }

  // ---------- whatever the bytes, only representable values are read ----------

  lemma {:induction false} OnlyRepresentableRead(d: seq<byte>, pos: int)
    requires 0 <= pos <= |d|
    ensures var r := ReadAny(d, pos); r.Got? ==> Representable(r.value)
    decreases |d| - pos, 1
  {
    if !IsObjectEof(d, pos) && Has(d, pos, 1) {
      var marker := d[pos];
      if marker == MARKER_OBJECT {
        OnlyRepresentableProps(d, pos + 1, []);
      } else if marker == MARKER_ECMA_ARRAY && Has(d, pos + 1, 4) {
        OnlyRepresentableProps(d, pos + 5, []);
      } else if marker == MARKER_STRICT_ARRAY && Has(d, pos + 1, 4) {
        var count := Signed32(Be32(d[pos + 1], d[pos + 2], d[pos + 3], d[pos + 4]));
        OnlyRepresentableElems(d, pos + 5, count, []);
      }
    }
  }

  lemma {:induction false} OnlyRepresentableProps(d: seq<byte>, pos: int, props: seq<Property>)
    requires 0 <= pos <= |d| && PropsRepresentable(props)
    ensures var r := ReadProps(d, pos, props); r.Got? ==> PropsRepresentable(r.value)
    decreases |d| - pos, 0
  {
    if pos != |d| && !IsObjectEof(d, pos) {
      var key := ReadUtf8(d, pos);
      if key.Got? {
        OnlyRepresentableRead(d, key.pos);
        var value := ReadAny(d, key.pos);
        if value.Got? {
          SetRepresentable(props, key.value, value.value);
          OnlyRepresentableProps(d, value.pos, SetProperty(props, key.value, value.value));
        }
      }
    }
  }

  lemma {:induction false} OnlyRepresentableElems(d: seq<byte>, pos: int, count: int, elems: seq<Value>)
    requires 0 <= pos <= |d| && ElemsRepresentable(elems)
    ensures var r := ReadElems(d, pos, count, elems); r.Got? ==> ElemsRepresentable(r.value)
    decreases |d| - pos, 2
  {
    if |elems| < count && pos != |d| {
      OnlyRepresentableRead(d, pos);
      var value := ReadAny(d, pos);
      if value.Got? {
        ElemsSnoc(elems, value.value);
        OnlyRepresentableElems(d, value.pos, count, elems + [value.value]);
      }
    }
  }

  lemma {:induction false} SetRepresentable(props: seq<Property>, key: seq<byte>, value: Value)
    requires PropsRepresentable(props) && |key| <= 0x7FFF && Representable(value)
    ensures PropsRepresentable(SetProperty(props, key, value))
  {
    RemoveRepresentable(props, key);
    PropsSnoc(RemoveProperty(props, key), Property(key, value));
  }

  lemma {:induction false} RemoveRepresentable(props: seq<Property>, key: seq<byte>)
    requires PropsRepresentable(props)
    ensures PropsRepresentable(RemoveProperty(props, key))
  {
    if props != [] && props[0].key != key { RemoveRepresentable(props[1..], key); }
  }

  lemma {:induction false} PropsSnoc(props: seq<Property>, p: Property)
    requires PropsRepresentable(props) && |p.key| <= 0x7FFF && Representable(p.value)
    ensures PropsRepresentable(props + [p])
  {
    if props != [] {
      PropsSnoc(props[1..], p);
      assert (props + [p])[1..] == props[1..] + [p];
    }
  }

  lemma {:induction false} ElemsSnoc(elems: seq<Value>, v: Value)
    requires ElemsRepresentable(elems) && Representable(v)
    ensures ElemsRepresentable(elems + [v])
  {
    if elems != [] {
      ElemsSnoc(elems[1..], v);
      assert (elems + [v])[1..] == elems[1..] + [v];
    }
  }

  /** Reading what was written, with anything behind it, gives the value back and stops at its end. */
  ghost predicate RoundTrips(v: Value) {
    forall suffix :: ReadAny(Enc(v) + suffix, 0) == Got(v, |Enc(v)|)
  }

  /** Main result: for the values that the classes can hold, exactly the representable ones round-trip. */
  lemma RoundTripsExactlyWhenRepresentable(v: Value)
    requires WellFormed(v)
    ensures RoundTrips(v) <==> Representable(v)
  {
    if Representable(v) {
      forall suffix ensures ReadAny(Enc(v) + suffix, 0) == Got(v, |Enc(v)|) {
        assert (Enc(v) + suffix)[0..|Enc(v)|] == Enc(v);
        ReadsBack(Enc(v) + suffix, 0, v);
      }
    }
    if RoundTrips(v) {
      assert ReadAny(Enc(v) + [], 0) == Got(v, |Enc(v)|);
      OnlyRepresentableRead(Enc(v) + [], 0);
    }
  }
}
