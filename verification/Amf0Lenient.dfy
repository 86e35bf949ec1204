/**
 What the AMF0 reader makes of bytes that the writer never writes: keys that occur twice, objects and arrays that the
 end of the stream cuts off, odd booleans, negative lengths, unknown markers, and values cut in the middle.
 */
module Amf0Lenient {
  import opened Bytes
  import opened Amf0
  import Amf0Stream

  /** All properties set one after the other. */
  function SetAll(done: seq<Property>, props: seq<Property>): seq<Property>
    decreases |props|
  {
    if props == [] then done else SetAll(SetProperty(done, props[0].key, props[0].value), props[1..])
  }

  /** The last value of a key. */
  function LastValue(props: seq<Property>, key: seq<byte>): Option<Value> {
    if props == [] then None
    else if props[|props| - 1].key == key then Some(props[|props| - 1].value)
    else LastValue(props[..|props| - 1], key)
  }

  lemma {:induction false} SetAllSnoc(done: seq<Property>, props: seq<Property>, p: Property)
    ensures SetAll(done, props + [p]) == SetProperty(SetAll(done, props), p.key, p.value)
    decreases |props|
  {
    hide SetProperty;
    var all := props + [p];
    if props == [] {
      assert all[1..] == [];
    } else {
      assert all[0] == props[0] && all[1..] == props[1..] + [p];
      SetAllSnoc(SetProperty(done, props[0].key, props[0].value), props[1..], p);
    }
  }

  /** The last value of every key wins, and every key is there once. */
  lemma {:induction false} LastOneWins(props: seq<Property>)
    ensures var r := SetAll([], props);
            UniqueKeys(r) && forall p :: p in r <==> LastValue(props, p.key) == Some(p.value)
    decreases |props|
  {
    hide SetAll, UniqueKeys, SetProperty;
    if props == [] {
      NothingSet();
    } else {
      var front, last := props[..|props| - 1], props[|props| - 1];
      assert front + [last] == props;
      LastOneWins(front);
      SetAllSnoc([], front, last);
      var before := SetAll([], front);
      Amf0Stream.SetKeepsUnique(before, last.key, Some(last.value));
      Amf0Stream.SetChangesOneKey(before, last.key, last.value);
    }
  }

  lemma NothingSet()
    ensures SetAll([], []) == [] && UniqueKeys([])
  {
  }

  lemma ReadPropsStep(d: seq<byte>, pos: int, done: seq<Property>)
    requires 0 <= pos < |d| && !IsObjectEof(d, pos)
    requires ReadUtf8(d, pos).Got? && ReadAny(d, ReadUtf8(d, pos).pos).Got?
    ensures var key := ReadUtf8(d, pos);
            var value := ReadAny(d, key.pos);
            ReadProps(d, pos, done) == ReadProps(d, value.pos, SetProperty(done, key.value, value.value))
  {
    hide ReadAny, ReadUtf8, IsObjectEof, SetProperty;
  }

  lemma ReadPropsEnd(d: seq<byte>, pos: int, done: seq<Property>)
    requires 0 <= pos <= |d|
    ensures pos == |d| ==> ReadProps(d, pos, done) == Got(done, pos)
    ensures pos < |d| && IsObjectEof(d, pos) ==> ReadProps(d, pos, done) == Got(done, pos + 3)
  {
    hide ReadAny, ReadUtf8, IsObjectEof, SetProperty;
  }

  /** The property loop on any keys, ended by its end marker or by the end of the stream. */
  lemma {:induction false} PropsRead(d: seq<byte>, pos: int, done: seq<Property>, props: seq<Property>, cut: bool)
    requires PropsWellFormed(props) && PropsRepresentable(props)
    requires At(d, pos, EncProps(props) + (if cut then [] else END_BYTES)) && (cut ==> pos + |EncProps(props)| == |d|)
    ensures ReadProps(d, pos, done)
            == Got(SetAll(done, props), pos + |EncProps(props)| + if cut then 0 else 3)
    decreases |props|
  {
    hide ReadAny, ReadProps, ReadUtf8, Enc, Utf8, IsObjectEof, At, WellFormed, Representable, SetProperty;
    var tail := if cut then [] else END_BYTES;
    AtInside(d, pos, EncProps(props) + tail);
    if props == [] {
      ReadPropsEnd(d, pos, done);
      if !cut {
        assert EncProps(props) + END_BYTES == END_BYTES;
        EndIsEof(d, pos);
      }
    } else {
      var key, value := props[0].key, props[0].value;
      var rest := EncProps(props[1..]) + tail;
      assert EncProps(props) + tail == Utf8(key) + (Enc(value) + rest);
      AtSplit(d, pos, Utf8(key), Enc(value) + rest);
      AtSplit(d, pos + 2 + |key|, Enc(value), rest);
      assert Utf8(key) + (Enc(value) + rest) == (Utf8(key) + Enc(value)) + rest;
      AtSplit(d, pos, Utf8(key) + Enc(value), rest);
      KeyIsNotEof(d, pos, key, value);
      Utf8Back(d, pos, key);
      ReadsBack(d, pos + 2 + |key|, value);
      ReadPropsStep(d, pos, done);
      PropsRead(d, pos + 2 + |key| + |Enc(value)|, SetProperty(done, key, value), props[1..], cut);
    }
  }

  lemma ReadObject(d: seq<byte>, pos: int)
    requires 0 <= pos < |d| && d[pos] == MARKER_OBJECT
    ensures ReadAny(d, pos)
            == var r := ReadProps(d, pos + 1, []); if r.Failed? then Failed else Got(Object(r.value), r.pos)
  {
    hide ReadProps;
  }

  /** Main result: an object reads as its properties with the last value of every key, also when the stream ends where
      its end marker should be. */
  lemma ObjectReads(d: seq<byte>, pos: int, props: seq<Property>, cut: bool)
    requires PropsWellFormed(props) && PropsRepresentable(props)
    requires At(d, pos, [MARKER_OBJECT] + (EncProps(props) + (if cut then [] else END_BYTES)))
    requires cut ==> pos + 1 + |EncProps(props)| == |d|
    ensures ReadAny(d, pos)
            == Got(Object(SetAll([], props)), pos + 1 + |EncProps(props)| + if cut then 0 else 3)
  {
    hide ReadAny, ReadProps, EncProps, At, SetAll;
    var rest := EncProps(props) + if cut then [] else END_BYTES;
    AtInside(d, pos, [MARKER_OBJECT] + rest);
    AtByte(d, pos, [MARKER_OBJECT] + rest, 0);
    AtMarker(d, pos, MARKER_OBJECT, rest);
    ReadObject(d, pos);
    PropsRead(d, pos + 1, [], props, cut);
  }

  lemma ReadElemsStep(d: seq<byte>, pos: int, count: int, done: seq<Value>)
    requires 0 <= pos < |d| && |done| < count && ReadAny(d, pos).Got?
    ensures ReadElems(d, pos, count, done) == ReadElems(d, ReadAny(d, pos).pos, count, done + [ReadAny(d, pos).value])
  {
    hide ReadAny;
  }

  lemma ReadElemsEnd(d: seq<byte>, pos: int, count: int, done: seq<Value>)
    requires 0 <= pos <= |d| && (|done| >= count || pos == |d|)
    ensures ReadElems(d, pos, count, done) == Got(done, pos)
  {
  }

  /** An array takes as many elements as its count says, or all there are when the stream ends before. */
  lemma {:induction false} ElemsRead(d: seq<byte>, pos: int, count: int, done: seq<Value>, elems: seq<Value>)
    requires At(d, pos, EncElems(elems)) && ElemsWellFormed(elems) && ElemsRepresentable(elems)
    requires |done| + |elems| <= count && pos + |EncElems(elems)| == |d|
    ensures ReadElems(d, pos, count, done) == Got(done + elems, |d|)
    decreases |elems|
  {
    hide ReadAny, ReadElems, Enc, At, WellFormed, Representable;
    AtInside(d, pos, EncElems(elems));
    if elems == [] {
      ReadElemsEnd(d, pos, count, done);
      assert done + elems == done;
    } else {
      AtSplit(d, pos, Enc(elems[0]), EncElems(elems[1..]));
      ReadsBack(d, pos, elems[0]);
      ReadElemsStep(d, pos, count, done);
      assert done + [elems[0]] + elems[1..] == done + elems;
      ElemsRead(d, pos + |Enc(elems[0])|, count, done + [elems[0]], elems[1..]);
    }
  }

  /** Any byte but 0 is true. */
  lemma AnyByteIsBoolean(d: seq<byte>, pos: int)
    requires 0 <= pos && pos + 2 <= |d| && d[pos] == MARKER_BOOLEAN
    ensures ReadAny(d, pos) == Got(Boolean(d[pos + 1] != 0), pos + 2)
  {
    hide ReadProps, ReadElems, ReadUtf8;
  }

  /** A length of 0x8000 or more is negative and reads as the empty text, with nothing behind it taken. */
  lemma NegativeLengthIsEmpty(d: seq<byte>, pos: int)
    requires 0 <= pos && pos + 3 <= |d| && d[pos] == MARKER_STRING && d[pos + 1] >= 0x80
    ensures ReadAny(d, pos) == Got(Text([]), pos + 3)
  {
    NegativeLength(d[pos + 1], d[pos + 2]);
    hide ReadProps, ReadElems, Be16, Signed16;
  }

  lemma NegativeLength(a: byte, b: byte)
    requires a >= 0x80
    ensures Signed16(Be16(a, b)) < 0
  {
  }

  /** The markers that the reader knows. */
  predicate Known(marker: byte) {
    marker in {MARKER_NUMBER, MARKER_BOOLEAN, MARKER_STRING, MARKER_OBJECT, MARKER_NULL, MARKER_UNDEFINED,
               MARKER_ECMA_ARRAY, MARKER_STRICT_ARRAY, MARKER_DATE}
  }

  /** An unknown marker fails, and so does the end of the stream. */
  lemma UnknownMarkerFails(d: seq<byte>, pos: int)
    requires 0 <= pos <= |d| && (pos == |d| || !Known(d[pos]))
    ensures ReadAny(d, pos) == Failed
  {
    hide ReadProps, ReadElems, ReadUtf8;
  }

  /** Values without parts. */
  predicate Scalar(v: Value) { v.Text? || v.Boolean? || v.Number? || v.Null? || v.Undefined? || v.Date? }

  /** A scalar that the stream cuts off in the middle fails. */
  lemma CutScalarFails(d: seq<byte>, pos: int, v: Value, k: nat)
    requires Scalar(v) && Representable(v) && k < |Enc(v)| && 0 <= pos && pos + k == |d| && d[pos..] == Enc(v)[..k]
    ensures ReadAny(d, pos) == Failed
  {
    hide ReadProps, ReadElems, Signed16, Be16;
    var b := Enc(v);
    forall i | 0 <= i < k ensures d[pos + i] == b[i] {
      assert d[pos + i] == d[pos..][i];
    }
    if k > 0 { assert d[pos + 0] == b[0]; }
    if k > 1 { assert d[pos + 1] == b[1]; }
    if k > 2 { assert d[pos + 2] == b[2]; }
    if v.Text? && k >= 3 {
      LengthBack(|v.text|);
    }
  }
}
