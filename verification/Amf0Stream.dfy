/**
 The readers and writers of srs_rtmp_amf0.cpp over an SrsStream: they move its cursor, and objects and arrays collect
 their members in a table or a list in a loop. Every method is proved equal to its function in Amf0, so no input makes
 a reader trip an assertion of the stream or read outside it.
 */
module Amf0Stream {
  import opened Bytes
  import opened Amf0
  import opened KernelStream

  /** The first property of the name goes, the others keep their order. */
  lemma {:induction false} RemovesFirst(props: seq<Property>, key: seq<byte>, i: nat)
    requires i <= |props| && forall j :: 0 <= j < i ==> props[j].key != key
    requires i < |props| ==> props[i].key == key
    ensures RemoveProperty(props, key) == if i < |props| then props[..i] + props[i + 1..] else props
  {
    if i > 0 {
      var rest := props[1..];
      RemovesFirst(rest, key, i - 1);
      assert props == [props[0]] + rest;
      if i < |props| {
        assert [props[0]] + rest[..i - 1] == props[..i] && rest[i..] == props[i + 1..];
        assert [props[0]] + (rest[..i - 1] + rest[i..]) == ([props[0]] + rest[..i - 1]) + rest[i..];
      }
    }
  }

  lemma UniqueCons(first: Property, rest: seq<Property>)
    ensures UniqueKeys([first] + rest) <==> UniqueKeys(rest) && forall p :: p in rest ==> p.key != first.key
  {
    var all := [first] + rest;
    assert forall i :: 0 < i < |all| ==> all[i] == rest[i - 1] && rest[i - 1] in rest;
    if UniqueKeys(all) {
      forall i, j | 0 <= i < j < |rest|
        ensures rest[i].key != rest[j].key
      {
        assert all[i + 1] == rest[i] && all[j + 1] == rest[j];
      }
      forall p | p in rest
        ensures p.key != first.key
      {
        var k :| 0 <= k < |rest| && rest[k] == p;
        assert all[0] == first && all[k + 1] == p;
      }
    }
  }

  lemma {:induction false} RemovedKeys(props: seq<Property>, key: seq<byte>)
    requires UniqueKeys(props)
    ensures var r := RemoveProperty(props, key);
            UniqueKeys(r) && forall p :: p in r <==> p in props && p.key != key
  {
    if props != [] {
      hide UniqueKeys;
      var first, rest := props[0], props[1..];
      assert props == [first] + rest;
      UniqueCons(first, rest);
      RemovedKeys(rest, key);
      UniqueCons(first, RemoveProperty(rest, key));
    }
  }

  /** `set` keeps names unique. */
  lemma SetKeepsUnique(props: seq<Property>, key: seq<byte>, value: Option<Value>)
    ensures UniqueKeys(props) ==> UniqueKeys(RemoveProperty(props, key))
    ensures UniqueKeys(props) && value.Some? ==> UniqueKeys(SetProperty(props, key, value.value))
  {
    if UniqueKeys(props) {
      RemovedKeys(props, key);
      var r := RemoveProperty(props, key);
      assert forall i :: 0 <= i < |r| ==> r[i] in r;
    }
  }

  /** Afterwards the key has the new value, or none, and all other properties are those from before. */
  lemma {:induction false} SetChangesOneKey(props: seq<Property>, key: seq<byte>, value: Value)
    requires UniqueKeys(props)
    ensures forall p :: p in RemoveProperty(props, key) <==> p in props && p.key != key
    ensures forall p ::
              p in SetProperty(props, key, value) <==> p == Property(key, value) || (p in props && p.key != key)
  {
    RemovedKeys(props, key);
  }

  /** SrsUnSortedHashtable: properties in insertion order, at most one per name. */
  class UnsortedHashtable {
    var properties: seq<Property>

    constructor ()
      ensures properties == []
    {
      properties := [];
    }

    /** Without a value the property is only removed. */
    method Set(key: seq<byte>, value: Option<Value>)
      modifies this
      ensures properties == if value.Some? then SetProperty(old(properties), key, value.value)
                            else RemoveProperty(old(properties), key)
      ensures UniqueKeys(old(properties)) ==> UniqueKeys(properties)
    {
      SetKeepsUnique(properties, key, value);
      var i := 0;
      while i < |properties| && properties[i].key != key
        invariant 0 <= i <= |properties|
        invariant forall j :: 0 <= j < i ==> properties[j].key != key
      {
        i := i + 1;
      }
      RemovesFirst(properties, key, i);
      if i < |properties| {
        properties := properties[..i] + properties[i + 1..];
      }
      if value.Some? {
        properties := properties + [Property(key, value.value)];
      }
    }

    /** The property of that name, if any; with unique keys there is no other. */
    method GetProperty(name: seq<byte>) returns (r: Option<Value>)
      ensures r.Some? ==> Property(name, r.value) in properties
      ensures r.None? ==> forall p :: p in properties ==> p.key != name
    {
      for i := 0 to |properties|
        invariant forall j :: 0 <= j < i ==> properties[j].key != name
      {
        if properties[i].key == name {
          assert properties[i] == Property(name, properties[i].value);
          return Some(properties[i].value);
        }
      }
      return None;
    }
  }

  // ---------- reading ----------

  method LooksAtObjectEof(stream: SrsStream) returns (eof: bool)
    requires stream.Valid() && stream.p <= stream.nbBytes
    modifies stream`p
    ensures stream.Valid() && stream.Data() == old(stream.Data()) && stream.p == old(stream.p)
    ensures eof == IsObjectEof(stream.Data(), stream.p)
  {
    if stream.Require(3) {
      var flag := stream.Read3();
      stream.Skip(-3);
      return flag == 0x09;
    }
    return false;
  }

  method ReadUtf8String(stream: SrsStream) returns (ok: bool, value: seq<byte>)
    requires stream.Valid() && stream.p <= stream.nbBytes
    modifies stream`p
    ensures stream.Valid() && stream.Data() == old(stream.Data()) && stream.p <= stream.nbBytes
    ensures var r := ReadUtf8(stream.Data(), old(stream.p));
            (ok <==> r.Got?) && (ok ==> value == r.value && stream.p == r.pos)
  {
    if !stream.Require(2) {
      return false, [];
    }
    var word := stream.Read2();
    var length := Signed16(word);
    if length <= 0 {
      return true, [];
    }
    if !stream.Require(length) {
      return false, [];
    }
    value := stream.ReadBytes(length);
    return true, value;
  }

  /** discovery and read of one value. */
  method ReadValue(stream: SrsStream) returns (ok: bool, v: Value)
    requires stream.Valid() && stream.p <= stream.nbBytes
    modifies stream`p
    ensures stream.Valid() && stream.Data() == old(stream.Data()) && stream.p <= stream.nbBytes
    ensures var r := ReadAny(stream.Data(), old(stream.p));
            (ok <==> r.Got?) && (ok ==> v == r.value && stream.p == r.pos)
    decreases stream.nbBytes - stream.p, 1
  {
    hide ReadProps, ReadElems, ReadUtf8, IsObjectEof;
    var eof := LooksAtObjectEof(stream);
    if eof {
      assert Has(stream.Data(), stream.p, 3) by { EofHasThreeBytes(stream.Data(), stream.p); }
      stream.Skip(3);
      return true, ObjectEnd;
    }
    if !stream.Require(1) {
      return false, Null;
    }
    var marker := stream.Read1();
    if marker == MARKER_STRING {
      var text: seq<byte>;
      ok, text := ReadUtf8String(stream);
      return ok, Text(text);
    } else if marker == MARKER_NULL {
      return true, Null;
    } else if marker == MARKER_UNDEFINED {
      return true, Undefined;
    } else if marker == MARKER_OBJECT || marker == MARKER_ECMA_ARRAY || marker == MARKER_STRICT_ARRAY {
      ok, v := ReadContainer(stream, marker);
    } else {
      ok, v := ReadScalar(stream, marker);
    }
  }

  /** The values that hold others, behind their marker. */
  method ReadContainer(stream: SrsStream, marker: byte) returns (ok: bool, v: Value)
    requires stream.Valid() && 0 < stream.p <= stream.nbBytes && marker == stream.Data()[stream.p - 1]
    requires !IsObjectEof(stream.Data(), stream.p - 1)
    requires marker == MARKER_OBJECT || marker == MARKER_ECMA_ARRAY || marker == MARKER_STRICT_ARRAY
    modifies stream`p
    ensures stream.Valid() && stream.Data() == old(stream.Data()) && stream.p <= stream.nbBytes
    ensures var r := ReadAny(stream.Data(), old(stream.p) - 1);
            (ok <==> r.Got?) && (ok ==> v == r.value && stream.p == r.pos)
    decreases stream.nbBytes - stream.p, 1
  {
    hide ReadProps, ReadElems, ReadUtf8, IsObjectEof, Signed32, UniqueKeys;
    if marker == MARKER_OBJECT {
      var table := new UnsortedHashtable();
      ok := ReadProperties(stream, table);
      return ok, Object(table.properties);
    }
    if !stream.Require(4) {
      return false, Null;
    }
    var word := stream.Read4();
    if marker == MARKER_ECMA_ARRAY {
      var table := new UnsortedHashtable();
      ok := ReadProperties(stream, table);
      return ok, EcmaArray(Signed32(word), table.properties);
    }
    var elems: seq<Value>;
    ok, elems := ReadElements(stream, Signed32(word));
    return ok, StrictArray(Signed32(word), elems);
  }

  lemma EofHasThreeBytes(d: seq<byte>, pos: int)
    requires 0 <= pos <= |d| && IsObjectEof(d, pos)
    ensures Has(d, pos, 3)
  {
  }

  /** The fixed-size values, after their marker. */
  method ReadScalar(stream: SrsStream, marker: byte) returns (ok: bool, v: Value)
    requires stream.Valid() && 0 < stream.p <= stream.nbBytes && marker == stream.Data()[stream.p - 1]
    requires !IsObjectEof(stream.Data(), stream.p - 1)
    requires marker !in {MARKER_STRING, MARKER_NULL, MARKER_UNDEFINED, MARKER_OBJECT, MARKER_ECMA_ARRAY,
                            MARKER_STRICT_ARRAY}
    modifies stream`p
    ensures stream.Valid() && stream.Data() == old(stream.Data()) && stream.p <= stream.nbBytes
    ensures var r := ReadAny(stream.Data(), old(stream.p) - 1);
            (ok <==> r.Got?) && (ok ==> v == r.value && stream.p == r.pos)
  {
    hide ReadProps, ReadElems, ReadUtf8, IsObjectEof;
    if marker == MARKER_BOOLEAN {
      if !stream.Require(1) {
        return false, Null;
      }
      var b := stream.Read1();
      return true, Boolean(b != 0);
    } else if marker == MARKER_NUMBER {
      if !stream.Require(8) {
        return false, Null;
      }
      var b := stream.ReadBytes(8);
      return true, Number(b);
    } else if marker == MARKER_DATE {
      if !stream.Require(8) {
        return false, Null;
      }
      var time := stream.ReadBytes(8);
      if !stream.Require(2) {
        return false, Null;
      }
      var zone := stream.ReadBytes(2);
      return true, Date(time, zone);
    }
    return false, Null;
  }

  /** The property loop; `table` starts empty. */
  method ReadProperties(stream: SrsStream, table: UnsortedHashtable) returns (ok: bool)
    requires stream.Valid() && stream.p <= stream.nbBytes && table.properties == []
    modifies stream`p, table
    ensures stream.Valid() && stream.Data() == old(stream.Data()) && stream.p <= stream.nbBytes
    ensures UniqueKeys(table.properties)
    ensures var r := ReadProps(stream.Data(), old(stream.p), []);
            (ok <==> r.Got?) && (ok ==> table.properties == r.value && stream.p == r.pos)
    decreases stream.nbBytes - stream.p, 0
  {
    hide ReadAny, ReadUtf8, IsObjectEof;
    ghost var d, start := stream.Data(), stream.p;
    while !stream.Empty()
      invariant stream.Valid() && stream.Data() == d && start <= stream.p <= stream.nbBytes
      invariant ReadProps(d, start, []) == ReadProps(d, stream.p, table.properties)
      invariant UniqueKeys(table.properties)
      decreases stream.nbBytes - stream.p
    {
      var eof := LooksAtObjectEof(stream);
      if eof {
        EofHasThreeBytes(d, stream.p);
        stream.Skip(3);
        return true;
      }
      var name: seq<byte>, value: Value;
      ok, name := ReadUtf8String(stream);
      if !ok {
        return;
      }
      ok, value := ReadValue(stream);
      if !ok {
        return;
      }
      table.Set(name, Some(value));
    }
    return true;
  }

  method ReadElements(stream: SrsStream, count: int) returns (ok: bool, elems: seq<Value>)
    requires stream.Valid() && stream.p <= stream.nbBytes
    modifies stream`p
    ensures stream.Valid() && stream.Data() == old(stream.Data()) && stream.p <= stream.nbBytes
    ensures var r := ReadElems(stream.Data(), old(stream.p), count, []);
            (ok <==> r.Got?) && (ok ==> elems == r.value && stream.p == r.pos)
    decreases stream.nbBytes - stream.p, 2
  {
    hide ReadAny;
    ghost var d, start := stream.Data(), stream.p;
    elems := [];
    var i := 0;
    while i < count && !stream.Empty()
      invariant stream.Valid() && stream.Data() == d && start <= stream.p <= stream.nbBytes
      invariant i == |elems|
      invariant ReadElems(d, start, count, []) == ReadElems(d, stream.p, count, elems)
      decreases count - i
    {
      var value: Value;
      ok, value := ReadValue(stream);
      if !ok {
        return;
      }
      elems := elems + [value];
      i := i + 1;
    }
    return true, elems;
  }

  // ---------- writing ----------

  /** The state after `b` was written from `start`, or a refusal for lack of room. */
  twostate predicate Wrote(stream: SrsStream, ok: bool, b: seq<byte>)
    requires old(stream.Valid()) && old(stream.p) <= old(stream.nbBytes)
    reads stream, stream.bytes
  {
    && stream.bytes == old(stream.bytes) && stream.nbBytes == old(stream.nbBytes) && stream.Valid()
    && stream.p <= stream.nbBytes
    && (ok <==> old(stream.p) + |b| <= stream.nbBytes)
    && (ok ==> stream.p == old(stream.p) + |b|
               && stream.bytes[..] == Overwrite(old(stream.bytes[..]), old(stream.p), b))
  }

  /** A fixed run of bytes behind one `require`. */
  method WriteChecked(stream: SrsStream, b: seq<byte>) returns (ok: bool)
    requires stream.Valid() && stream.p <= stream.nbBytes && b != []
    modifies stream`p, stream.bytes
    ensures Wrote(stream, ok, b)
  {
    if !stream.Require(|b|) {
      return false;
    }
    stream.Write(b);
    return true;
  }

  method WriteUtf8String(stream: SrsStream, value: seq<byte>) returns (ok: bool)
    requires stream.Valid() && stream.p <= stream.nbBytes
    modifies stream`p, stream.bytes
    ensures Wrote(stream, ok, Utf8(value))
  {
    hide Overwrite;
    ghost var before, start := stream.bytes[..], stream.p;
    var length := [|value| / 256 % 256, |value| % 256];
    ok := WriteChecked(stream, length);
    if !ok {
      return;
    }
    if |value| <= 0 {
      assert length + value == length;
      return;
    }
    ok := WriteChecked(stream, value);
    if ok {
      OverwriteTwice(before, start, length, value);
    }
  }

  /** write of any value: it succeeds exactly when the bytes of the value fit. */
  method WriteValue(stream: SrsStream, v: Value) returns (ok: bool)
    requires stream.Valid() && stream.p <= stream.nbBytes
    modifies stream`p, stream.bytes
    ensures Wrote(stream, ok, Enc(v))
    decreases v, 1
  {
    hide Overwrite, Utf8, BigEndian, EncProps, EncElems;
    match v
    case Object(props) =>
      ok := WriteContainer(stream, [MARKER_OBJECT], props);
    case EcmaArray(count, props) =>
      ok := WriteContainer(stream, [MARKER_ECMA_ARRAY] + BigEndian(4, count), props);
    case StrictArray(count, elems) =>
      ghost var before, start := stream.bytes[..], stream.p;
      ok := WriteChecked(stream, [MARKER_STRICT_ARRAY] + BigEndian(4, count));
      if ok {
        ok := WriteElements(stream, elems);
        if ok {
          OverwriteTwice(before, start, [MARKER_STRICT_ARRAY] + BigEndian(4, count), EncElems(elems));
        }
      }
    case Text(text) =>
      ghost var before, start := stream.bytes[..], stream.p;
      ok := WriteChecked(stream, [MARKER_STRING]);
      if ok {
        ok := WriteUtf8String(stream, text);
        if ok {
          OverwriteTwice(before, start, [MARKER_STRING], Utf8(text));
        }
      }
    case Boolean(flag) => ok := WriteChecked(stream, [MARKER_BOOLEAN, if flag then 1 else 0]);
    case Number(number) => ok := WriteChecked(stream, [MARKER_NUMBER] + number);
    case Null => ok := WriteChecked(stream, [MARKER_NULL]);
    case Undefined => ok := WriteChecked(stream, [MARKER_UNDEFINED]);
    case Date(time, zone) => ok := WriteChecked(stream, [MARKER_DATE] + time + zone);
    case ObjectEnd => ok := WriteChecked(stream, END_BYTES);
  }

  /** Objects and ecma arrays: head, properties, end marker. */
  method WriteContainer(stream: SrsStream, head: seq<byte>, props: seq<Property>) returns (ok: bool)
    requires stream.Valid() && stream.p <= stream.nbBytes && head != []
    modifies stream`p, stream.bytes
    ensures Wrote(stream, ok, head + EncProps(props) + END_BYTES)
    decreases props, 1
  {
    hide Overwrite;
    ghost var before, start := stream.bytes[..], stream.p;
    ok := WriteChecked(stream, head);
    if !ok {
      return;
    }
    ok := WriteProperties(stream, props);
    if !ok {
      return;
    }
    OverwriteTwice(before, start, head, EncProps(props));
    ok := WriteChecked(stream, END_BYTES);
    if ok {
      OverwriteTwice(before, start, head + EncProps(props), END_BYTES);
    }
  }

  method WriteProperties(stream: SrsStream, props: seq<Property>) returns (ok: bool)
    requires stream.Valid() && stream.p <= stream.nbBytes
    modifies stream`p, stream.bytes
    ensures Wrote(stream, ok, EncProps(props))
    decreases props, 0
  {
    hide Overwrite, Utf8, Enc;
    ghost var before, start := stream.bytes[..], stream.p;
    OverwriteNothing(before, start);
    EncPropsBounds(props);
    for i := 0 to |props|
      invariant stream.bytes == old(stream.bytes) && stream.nbBytes == old(stream.nbBytes) && stream.Valid()
      invariant stream.p == start + |EncProps(props[..i])| <= stream.nbBytes
      invariant stream.bytes[..] == Overwrite(before, start, EncProps(props[..i]))
    {
      var name, value := props[i].key, props[i].value;
      EncPropsNext(props, i);
      ok := WriteUtf8String(stream, name);
      if !ok {
        return;
      }
      OverwriteTwice(before, start, EncProps(props[..i]), Utf8(name));
      ok := WriteValue(stream, value);
      if !ok {
        return;
      }
      OverwriteTwice(before, start, EncProps(props[..i]) + Utf8(name), Enc(value));
    }
    assert props[..|props|] == props;
    return true;
  }

  method WriteElements(stream: SrsStream, elems: seq<Value>) returns (ok: bool)
    requires stream.Valid() && stream.p <= stream.nbBytes
    modifies stream`p, stream.bytes
    ensures Wrote(stream, ok, EncElems(elems))
    decreases elems, 0
  {
    hide Overwrite, Enc;
    ghost var before, start := stream.bytes[..], stream.p;
    OverwriteNothing(before, start);
    EncElemsBounds(elems);
    for i := 0 to |elems|
      invariant stream.bytes == old(stream.bytes) && stream.nbBytes == old(stream.nbBytes) && stream.Valid()
      invariant stream.p == start + |EncElems(elems[..i])| <= stream.nbBytes
      invariant stream.bytes[..] == Overwrite(before, start, EncElems(elems[..i]))
    {
      EncElemsNext(elems, i);
      ok := WriteValue(stream, elems[i]);
      if !ok {
        return;
      }
      OverwriteTwice(before, start, EncElems(elems[..i]), Enc(elems[i]));
    }
    assert elems[..|elems|] == elems;
    return true;
  }

  lemma {:induction false} EncPropsAppend(a: seq<Property>, b: seq<Property>)
    ensures EncProps(a + b) == EncProps(a) + EncProps(b)
  {
    hide Enc, Utf8;
    if a == [] {
      assert a + b == b;
    } else {
      assert (a + b)[1..] == a[1..] + b;
      EncPropsAppend(a[1..], b);
    }
  }

  lemma EncPropsNext(props: seq<Property>, i: nat)
    requires i < |props|
    ensures EncProps(props[..i + 1]) == EncProps(props[..i]) + Utf8(props[i].key) + Enc(props[i].value)
    ensures |EncProps(props[..i + 1])| <= |EncProps(props)|
  {
    hide Enc, Utf8;
    assert props[..i + 1] == props[..i] + [props[i]];
    EncPropsAppend(props[..i], [props[i]]);
    assert EncProps([props[i]]) == Utf8(props[i].key) + Enc(props[i].value) + EncProps([]);
    assert props == props[..i + 1] + props[i + 1..];
    EncPropsAppend(props[..i + 1], props[i + 1..]);
  }

  lemma EncPropsBounds(props: seq<Property>)
    ensures EncProps(props[..0]) == []
  {
  }

  lemma {:induction false} EncElemsAppend(a: seq<Value>, b: seq<Value>)
    ensures EncElems(a + b) == EncElems(a) + EncElems(b)
  {
    hide Enc;
    if a == [] {
      assert a + b == b;
    } else {
      assert (a + b)[1..] == a[1..] + b;
      EncElemsAppend(a[1..], b);
    }
  }

  lemma EncElemsNext(elems: seq<Value>, i: nat)
    requires i < |elems|
    ensures EncElems(elems[..i + 1]) == EncElems(elems[..i]) + Enc(elems[i])
    ensures |EncElems(elems[..i + 1])| <= |EncElems(elems)|
  {
    hide Enc;
    assert elems[..i + 1] == elems[..i] + [elems[i]];
    EncElemsAppend(elems[..i], [elems[i]]);
    assert EncElems([elems[i]]) == Enc(elems[i]) + EncElems([]);
    assert elems == elems[..i + 1] + elems[i + 1..];
    EncElemsAppend(elems[..i + 1], elems[i + 1..]);
  }

  lemma EncElemsBounds(elems: seq<Value>)
    ensures EncElems(elems[..0]) == []
  {
  }
}
