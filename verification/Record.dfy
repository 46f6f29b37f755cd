/** The record format (record.rs): header of column count and serial types, then the column bodies. */
module Record {
  import opened Bytes
  import opened Values
  import Varint

  // ---- Little-endian two's complement ---------------------------------------------------

  /** The low `k` bytes of `x`, least significant first. */
  function LeBytes(x: int, k: nat): (b: seq<byte>)
    ensures |b| == k
    decreases k
  { if k == 0 then [] else [x % 256] + LeBytes(x / 256, k - 1) }

  /** The number such bytes stand for: the last byte has the sign. */
  function Signed(b: seq<byte>): int
    requires b != []
  {
    if |b| == 1 then (if b[0] < 128 then b[0] as int else b[0] as int - 256)
    else b[0] as int + 256 * Signed(b[1..])
  }

  /** The numbers of `k` bytes lie below `Half(k)` and not below its negative. */
  function Half(k: nat): (h: int)
    requires k > 0
    ensures h > 0
  { if k == 1 then 128 else 256 * Half(k - 1) }

  lemma {:induction false} SignedRange(b: seq<byte>)
    requires b != []
    ensures -Half(|b|) <= Signed(b) < Half(|b|)
  {
    if |b| > 1 { SignedRange(b[1..]); }
  }

  lemma HalfOf8()
    ensures Half(8) == TWO63 && Half(6) == 0x8000_0000_0000 && Half(4) == 0x8000_0000 && Half(3) == 0x80_0000 && Half(2) == 0x8000
  {
    assert Half(2) == 0x8000;
    assert Half(4) == 256 * (256 * Half(2));
    assert Half(6) == 256 * (256 * Half(4));
    assert Half(8) == 256 * (256 * Half(6));
  }

  lemma {:induction false} SignedRoundTrip(x: int, k: nat)
    requires k > 0 && -Half(k) <= x < Half(k)
    ensures Signed(LeBytes(x, k)) == x
    decreases k
  {
    if k > 1 {
      SignedRoundTrip(x / 256, k - 1);
      assert LeBytes(x, k)[1..] == LeBytes(x / 256, k - 1);
    } else {
      assert LeBytes(x, 1) == [x % 256];
    }
  }

  /** `b` with `n` more bytes of its sign. */
  function Extended(b: seq<byte>, n: nat): (r: seq<byte>)
    requires b != []
    ensures |r| == |b| + n
  { b + seq(n, _ => if b[|b| - 1] < 128 then 0 else 255) }

  /** Bytes of sign bits at the end change nothing. */
  lemma {:induction false} SignExtended(b: seq<byte>, n: nat)
    requires b != []
    ensures Signed(Extended(b, n)) == Signed(b)
    decreases |b| + n
  {
    if n == 0 {
      assert Extended(b, 0) == b;
    } else if |b| > 1 {
      SignExtended(b[1..], n);
      assert Extended(b, n)[1..] == Extended(b[1..], n);
    } else {
      var sign := Extended(b, 1)[1..];
      SignExtended(sign, n - 1);
      assert Extended(b, n)[1..] == Extended(sign, n - 1);
    }
  }

  // ---- Serial types ---------------------------------------------------------------------------

  const SERIAL_TEXT_MIN := 12
  const SERIAL_BLOB_MIN := 13

  /** The stored bytes of an integer with serial type `serial`. */
  function IntWidth(serial: nat): nat
    requires 1 <= serial <= 6
  { if serial <= 4 then serial else if serial == 5 then 6 else 8 }

  function SerialType(v: Value): (serial: nat) {
    match v
    case Null => 0
    case Integer(i) =>
      if -0x80 <= i < 0x80 then 1
      else if -0x8000 <= i < 0x8000 then 2
      else if -0x80_0000 <= i < 0x80_0000 then 3
      else if -0x8000_0000 <= i < 0x8000_0000 then 4
      else if -0x8000_0000_0000 <= i < 0x8000_0000_0000 then 5
      else 6
    case Real(_) => 7
    case Text(s) => 2 * |s| + SERIAL_TEXT_MIN
    case Blob(b) => 2 * |b| + SERIAL_BLOB_MIN
  }

  /** An integer fits the width of its serial type, and no smaller one. */
  lemma SerialTypeFits(i: i64)
    ensures 1 <= SerialType(Integer(i)) <= 6
    ensures forall s: nat | 1 <= s <= 6 :: s >= SerialType(Integer(i)) <==> -Half(IntWidth(s)) <= i < Half(IntWidth(s))
  {
    HalfOf8();
    assert Half(1) == 128;
    hide Half;
  }

  /** `encode_value` with the value's own serial type. */
  function ValueBytes(v: Value): seq<byte> {
    match v
    case Null => []
    case Integer(i) => LeBytes(i, IntWidth(SerialType(v)))
    case Real(r) => LeBytes(r, 8)
    case Text(s) => s
    case Blob(b) => b
  }

  function BitsOf(b: seq<byte>): nat { if b == [] then 0 else b[0] as int + 256 * BitsOf(b[1..]) }

  /** `read_int`. */
  function ReadInt(data: seq<byte>, offset: nat, nbytes: nat): Result<i64>
    requires 1 <= nbytes <= 8
  {
    if offset + nbytes > |data| then Err(Corrupt)
    else
      InInt64(data[offset..offset + nbytes]);
      Ok(Signed(data[offset..offset + nbytes]))
  }

  /** `decode_serial`: the value and the bytes it takes. */
  function DecodeSerial(lib: Lib, serial: nat, data: seq<byte>, offset: nat): Result<(Value, nat)> {
    if serial == 0 then Ok((Null, 0))
    else if serial <= 6 then
      var i :- ReadInt(data, offset, IntWidth(serial));
      Ok((Integer(i), IntWidth(serial)))
    else if serial == 7 then
      if offset + 8 > |data| then Err(Corrupt)
      else
        BitsRange(data[offset..offset + 8]);
        Ok((Real(BitsOf(data[offset..offset + 8])), 8))
    else if serial >= SERIAL_TEXT_MIN && serial % 2 == 0 then
      var len := (serial - SERIAL_TEXT_MIN) / 2;
      if offset + len > |data| then Err(Corrupt) else Ok((Text(lib.lossy(data[offset..offset + len])), len))
    else if serial >= SERIAL_BLOB_MIN then
      var len := (serial - SERIAL_BLOB_MIN) / 2;
      if offset + len > |data| then Err(Corrupt) else Ok((Blob(data[offset..offset + len]), len))
    else Err(Corrupt)
  }

  lemma HalfGrows(k: nat, m: nat)
    requires 0 < k <= m
    ensures Half(k) <= Half(m)
  {
    if k < m { HalfGrows(k, m - 1); }
  }

  lemma InInt64(b: seq<byte>)
    requires 1 <= |b| <= 8
    ensures -TWO63 <= Signed(b) < TWO63
  {
    SignedRange(b);
    HalfGrows(|b|, 8);
    HalfOf8();
  }

  lemma {:induction false} BitsBelow(b: seq<byte>)
    requires b != []
    ensures BitsOf(b) < 2 * Half(|b|)
  {
    if |b| > 1 { BitsBelow(b[1..]); } else { assert b[1..] == []; }
  }

  lemma BitsRange(b: seq<byte>)
    requires |b| == 8
    ensures BitsOf(b) < TWO64
  {
    BitsBelow(b);
    HalfOf8();
  }

  lemma {:induction false} BitsRoundTrip(x: nat, k: nat)
    requires k > 0 && x < 2 * Half(k)
    ensures BitsOf(LeBytes(x, k)) == x
  {
    assert LeBytes(x, k)[1..] == LeBytes(x / 256, k - 1);
    if k > 1 { BitsRoundTrip(x / 256, k - 1); }
  }

  /** Text that is valid UTF-8, as every string of the source is. */
  predicate WellFormed(lib: Lib, v: Value) { v.Text? ==> lib.lossy(v.s) == v.s }

  lemma ValueRoundTrip(lib: Lib, v: Value, data: seq<byte>, offset: nat)
    requires WellFormed(lib, v) && At(data, offset, ValueBytes(v))
    ensures DecodeSerial(lib, SerialType(v), data, offset) == Ok((v, |ValueBytes(v)|))
  {
    hide LeBytes, Signed, BitsOf, Half;
    AtIsSlice(data, offset, ValueBytes(v));
    match v {
      case Integer(i) => SerialTypeFits(i); SignedRoundTrip(i, IntWidth(SerialType(v)));
      case Real(r) => HalfOf8(); BitsRoundTrip(r, 8);
      case _ =>
    }
  }

  // ---- Records ------------------------------------------------------------------------------------

  function Serials(values: seq<Value>): seq<byte> {
    if values == [] then [] else Varint.Enc(SerialType(values[0])) + Serials(values[1..])
  }

  function Body(values: seq<Value>): seq<byte> {
    if values == [] then [] else ValueBytes(values[0]) + Body(values[1..])
  }

  /** The header without its own length. */
  function Head(values: seq<Value>): seq<byte> { Varint.Enc(|values|) + Serials(values) }

  function Encode(values: seq<Value>): seq<byte> { Varint.Enc(|Head(values)|) + Head(values) + Body(values) }

  /** The serial types of `count` columns and the offset behind them. */
  function DecodeTypes(data: seq<byte>, offset: nat, count: nat): Result<(seq<nat>, nat)>
    decreases count
  {
    if count == 0 then Ok(([], offset))
    else
      var head :- Varint.Read(data, offset);
      var rest :- DecodeTypes(data, offset + head.1, count - 1);
      Ok(([head.0] + rest.0, rest.1))
  }

  /** The values of columns with these types and the bytes they take. */
  function DecodeValues(lib: Lib, types: seq<nat>, body: seq<byte>, offset: nat): Result<(seq<Value>, nat)> {
    if types == [] then Ok(([], offset))
    else
      var head :- DecodeSerial(lib, types[0], body, offset);
      var rest :- DecodeValues(lib, types[1..], body, offset + head.1);
      Ok(([head.0] + rest.0, rest.1))
  }

  /** Where the body starts, and the serial types. */
  function DecodeHeader(data: seq<byte>): (r: Result<(nat, seq<nat>)>)
    ensures r.Ok? ==> r.value.0 <= |data|
  {
    var size :- Varint.Read(data, 0);
    if size.1 + size.0 > |data| then Err(Corrupt)
    else
      var count :- Varint.Read(data, size.1);
      var types :- DecodeTypes(data, size.1 + count.1, count.0);
      Ok((size.1 + size.0, types.0))
  }

  /** The values of a record and the length of the whole record. */
  function Decode(lib: Lib, data: seq<byte>): Result<(seq<Value>, nat)> {
    var header :- DecodeHeader(data);
    var values :- DecodeValues(lib, header.1, data[header.0..], 0);
    Ok((values.0, header.0 + values.1))
  }

  // ---- Round trip ---------------------------------------------------------------------------------

  function Types(values: seq<Value>): (t: seq<nat>)
    ensures |t| == |values|
  { seq(|values|, i requires 0 <= i < |values| => SerialType(values[i])) }

  lemma TypesStep(values: seq<Value>)
    requires values != []
    ensures Types(values) == [SerialType(values[0])] + Types(values[1..])
    ensures Types(values)[1..] == Types(values[1..])
  {
    hide SerialType;
  }

  lemma BodyStep(values: seq<Value>)
    requires values != []
    ensures Serials(values) == Varint.Enc(SerialType(values[0])) + Serials(values[1..])
    ensures Body(values) == ValueBytes(values[0]) + Body(values[1..])
  {
    hide SerialType, ValueBytes, Varint.Enc;
  }

  /** Columns whose lengths the varint format can carry. */
  predicate Columns(lib: Lib, values: seq<Value>) {
    forall i | 0 <= i < |values| :: WellFormed(lib, values[i]) && SerialType(values[i]) < TWO56
  }

  predicate Storable(lib: Lib, values: seq<Value>) { |Head(values)| < TWO56 && Columns(lib, values) }

  lemma ColumnsStep(lib: Lib, values: seq<Value>)
    requires values != [] && Columns(lib, values)
    ensures WellFormed(lib, values[0]) && SerialType(values[0]) < TWO56 < TWO63 && Columns(lib, values[1..])
  {
    hide WellFormed, SerialType;
  }

  lemma TypesFrom(data: seq<byte>, offset: nat, count: nat, st: u64, n: nat, rest: seq<nat>, end: nat)
    requires count > 0 && Varint.Read(data, offset) == Ok((st, n)) && DecodeTypes(data, offset + n, count - 1) == Ok((rest, end))
    ensures DecodeTypes(data, offset, count) == Ok(([st] + rest, end))
  {
    hide Varint.Read;
  }

  lemma ValuesFrom(lib: Lib, types: seq<nat>, body: seq<byte>, offset: nat, values: seq<Value>, n: nat, end: nat)
    requires types != [] && values != [] && DecodeSerial(lib, types[0], body, offset) == Ok((values[0], n))
    requires DecodeValues(lib, types[1..], body, offset + n) == Ok((values[1..], end))
    ensures DecodeValues(lib, types, body, offset) == Ok((values, end))
  {
    hide DecodeSerial;
    assert values == [values[0]] + values[1..];
  }

  lemma NoColumns(lib: Lib, values: seq<Value>, data: seq<byte>, offset: nat)
    requires values == []
    ensures DecodeTypes(data, offset, |values|) == Ok((Types(values), offset + |Serials(values)|))
    ensures DecodeValues(lib, Types(values), data, offset) == Ok((values, offset + |Body(values)|))
  {
    assert Types(values) == [];
  }

  lemma {:induction false} TypesRoundTrip(lib: Lib, data: seq<byte>, offset: nat, values: seq<Value>)
    requires At(data, offset, Serials(values)) && Columns(lib, values)
    ensures DecodeTypes(data, offset, |values|) == Ok((Types(values), offset + |Serials(values)|))
    decreases values
  {
    hide *;
    if values == [] {
      NoColumns(lib, values, data, offset);
    } else {
      TypesStep(values);
      ColumnsStep(lib, values);
      BodyStep(values);
      var st, rest := SerialType(values[0]), values[1..];
      var enc := Varint.Enc(st);
      AtParts(data, offset, enc, Serials(rest));
      Varint.RoundTrip(data, offset, st);
      TypesRoundTrip(lib, data, offset + |enc|, rest);
      TypesFrom(data, offset, |values|, st, |enc|, Types(rest), offset + |Serials(values)|);
    }
  }

  lemma {:induction false} ValuesRoundTrip(lib: Lib, body: seq<byte>, offset: nat, values: seq<Value>)
    requires At(body, offset, Body(values)) && Columns(lib, values)
    ensures DecodeValues(lib, Types(values), body, offset) == Ok((values, offset + |Body(values)|))
    decreases values
  {
    hide *;
    if values == [] {
      NoColumns(lib, values, body, offset);
    } else {
      TypesStep(values);
      ColumnsStep(lib, values);
      BodyStep(values);
      var v, rest := values[0], values[1..];
      AtParts(body, offset, ValueBytes(v), Body(rest));
      ValueRoundTrip(lib, v, body, offset);
      ValuesRoundTrip(lib, body, offset + |ValueBytes(v)|, rest);
      ValuesFrom(lib, Types(values), body, offset, values, |ValueBytes(v)|, offset + |Body(values)|);
    }
  }

  lemma {:induction false} SerialsLength(values: seq<Value>)
    ensures |Serials(values)| >= |values|
  {
    if values != [] { SerialsLength(values[1..]); }
  }

  lemma SerialsOfTwo(a: Value, b: Value)
    ensures Serials([a, b]) == Varint.Enc(SerialType(a)) + Varint.Enc(SerialType(b))
  {
    hide Varint.Enc, SerialType;
    assert [a, b][1..] == [b] && [b][1..] == [];
    assert Serials([b][1..]) == [];
    assert Serials([b]) == Varint.Enc(SerialType(b)) + [];
  }

  /** Decoding undoes encoding and finds the exact length, whatever bytes follow the record. */
  lemma RoundTrip(lib: Lib, values: seq<Value>, rest: seq<byte>)
    requires Storable(lib, values)
    ensures Decode(lib, Encode(values) + rest) == Ok((values, |Encode(values)|))
  {
    hide SerialType, Varint.Enc, Varint.Read, Serials, Body, DecodeTypes, DecodeValues, Columns;
    var head, body := Head(values), Body(values);
    var size, count := Varint.Enc(|head|), Varint.Enc(|values|);
    var data := Encode(values) + rest;
    SerialsLength(values);
    assert data[..|Encode(values)|] == Encode(values);
    assert At(data, 0, Encode(values));
    AtParts(data, 0, size + head, body);
    AtParts(data, 0, size, head);
    AtParts(data, |size|, count, Serials(values));
    Varint.RoundTrip(data, 0, |head|);
    Varint.RoundTrip(data, |size|, |values|);
    TypesRoundTrip(lib, data, |size| + |count|, values);
    var end := |size| + |head|;
    assert data[end..] == body + rest;
    assert data[end..][..|body|] == body;
    ValuesRoundTrip(lib, data[end..], 0, values);
  }

  /** So a record can be cut out of a longer string, and equal encodings are of equal rows. */
  lemma SelfDelimiting(lib: Lib, u: seq<Value>, v: seq<Value>, rest: seq<byte>, rest': seq<byte>)
    requires Storable(lib, u) && Storable(lib, v) && Encode(u) + rest == Encode(v) + rest'
    ensures u == v && rest == rest'
  {
    hide Encode, Decode, Storable;
    RoundTrip(lib, u, rest);
    RoundTrip(lib, v, rest');
    assert rest == (Encode(u) + rest)[|Encode(u)|..] && rest' == (Encode(v) + rest')[|Encode(v)|..];
  }

  // ---- Implementation ---------------------------------------------------------------------------------

  /** The eight-byte buffer of `read_int`: the bytes, then their sign. */
  method ExtendSign(b: seq<byte>) returns (buf: array<byte>)
    requires 1 <= |b| <= 8
    ensures fresh(buf) && buf[..] == Extended(b, 8 - |b|)
  {
    buf := new byte[8](i requires 0 <= i < 8 => if i < |b| then b[i] else 0);
    if |b| < 8 && b[|b| - 1] >= 128 {
      for k := |b| to 8
        invariant forall j | 0 <= j < k :: buf[j] == if j < |b| then b[j] else 255
      {
        buf[k] := 255;
      }
    }
  }

  method ReadInteger(data: seq<byte>, offset: nat, nbytes: nat) returns (r: Result<i64>)
    requires 1 <= nbytes <= 8
    ensures r == ReadInt(data, offset, nbytes)
  {
    hide Signed, Extended, Half;
    if offset + nbytes > |data| {
      return Err(Corrupt);
    }
    var b := data[offset..offset + nbytes];
    var buf := ExtendSign(b);
    SignExtended(b, 8 - nbytes);
    InInt64(b);
    return Ok(Signed(buf[..]));
  }

  /** `decode_serial`: whatever value has been written there is read back, with its length. */
  method DecodeColumn(lib: Lib, serial: nat, data: seq<byte>, offset: nat) returns (r: Result<(Value, nat)>)
    ensures r == DecodeSerial(lib, serial, data, offset)
    ensures forall v: Value | WellFormed(lib, v) && serial == SerialType(v) && At(data, offset, ValueBytes(v)) :: r == Ok((v, |ValueBytes(v)|))
  {
    hide Signed, BitsOf, SerialType, ValueBytes, At, WellFormed;
    forall v: Value | WellFormed(lib, v) && serial == SerialType(v) && At(data, offset, ValueBytes(v))
      ensures DecodeSerial(lib, serial, data, offset) == Ok((v, |ValueBytes(v)|))
    {
      ValueRoundTrip(lib, v, data, offset);
    }
    if serial == 0 {
      return Ok((Null, 0));
    }
    if serial <= 6 {
      var v :- ReadInteger(data, offset, IntWidth(serial));
      return Ok((Integer(v), IntWidth(serial)));
    }
    if serial == 7 {
      if offset + 8 > |data| {
        return Err(Corrupt);
      }
      BitsRange(data[offset..offset + 8]);
      return Ok((Real(BitsOf(data[offset..offset + 8])), 8));
    }
    if serial >= SERIAL_TEXT_MIN && serial % 2 == 0 {
      var len := (serial - SERIAL_TEXT_MIN) / 2;
      if offset + len > |data| {
        return Err(Corrupt);
      }
      return Ok((Text(lib.lossy(data[offset..offset + len])), len));
    }
    if serial >= SERIAL_BLOB_MIN && serial % 2 == 1 {
      var len := (serial - SERIAL_BLOB_MIN) / 2;
      if offset + len > |data| {
        return Err(Corrupt);
      }
      return Ok((Blob(data[offset..offset + len]), len));
    }
    return Err(Corrupt);
  }

  lemma SerialsAppend(values: seq<Value>, v: Value)
    ensures Serials(values + [v]) == Serials(values) + Varint.Enc(SerialType(v))
    ensures Body(values + [v]) == Body(values) + ValueBytes(v)
  {
    hide SerialType, ValueBytes, Varint.Enc;
    if values == [] {
      assert (values + [v])[1..] == [];
    } else {
      assert (values + [v])[1..] == values[1..] + [v];
      SerialsAppend(values[1..], v);
    }
  }

  lemma EncodeStep(values: seq<Value>, i: nat)
    requires i < |values|
    ensures Varint.Enc(|values|) + Serials(values[..i + 1]) == Varint.Enc(|values|) + Serials(values[..i]) + Varint.Enc(SerialType(values[i]))
    ensures Body(values[..i + 1]) == Body(values[..i]) + ValueBytes(values[i])
  {
    hide SerialType, ValueBytes, Varint.Enc, Serials, Body;
    SerialsAppend(values[..i], values[i]);
    assert values[..i + 1] == values[..i] + [values[i]];
  }

  method EncodeRecord(lib: Lib, values: seq<Value>) returns (record: seq<byte>)
    requires Storable(lib, values)
    ensures record == Encode(values)
  {
    assert values[..0] == [] && Serials([]) == [] && Body([]) == [];
    hide SerialType, ValueBytes, Varint.Enc, Serials, Body;
    SerialsLength(values);
    var headerBuf := Varint.Encoded(|values|);
    var body := [];
    for i := 0 to |values|
      invariant headerBuf == Varint.Enc(|values|) + Serials(values[..i])
      invariant body == Body(values[..i])
    {
      EncodeStep(values, i);
      var st := Varint.Encoded(SerialType(values[i]));
      headerBuf := headerBuf + st;
      body := body + ValueBytes(values[i]);
    }
    assert values[..|values|] == values;
    record := Varint.Encoded(|headerBuf|);
    record := record + headerBuf + body;
  }

  /** The part that `decode_record` and `record_byte_length` have in common. */
  method LoadHeader(data: seq<byte>) returns (r: Result<(nat, seq<nat>)>)
    ensures r == DecodeHeader(data)
  {
    hide Varint.Read;
    var size :- Varint.ReadVarint(data, 0);
    var headerEnd: nat := size.1 + size.0;
    if headerEnd > |data| {
      return Err(Corrupt);
    }
    var colCount :- Varint.ReadVarint(data, size.1);
    var types: seq<nat> := [];
    var offset: nat := size.1 + colCount.1;
    ghost var all := DecodeTypes(data, offset, colCount.0);
    PrefixedNone(all);
    for i := 0 to colCount.0
      invariant all == Prefixed(types, DecodeTypes(data, offset, colCount.0 - i))
    {
      ghost var rest := DecodeTypes(data, offset, colCount.0 - i);
      var st :- Varint.ReadVarint(data, offset);
      assert rest == Prefixed([st.0], DecodeTypes(data, offset + st.1, colCount.0 - i - 1));
      PrefixedOne(types, st.0, DecodeTypes(data, offset + st.1, colCount.0 - i - 1));
      types := types + [st.0];
      offset := offset + st.1;
    }
    assert types + [] == types;
    return Ok((headerEnd, types));
  }

  method DecodeRecord(lib: Lib, data: seq<byte>) returns (r: Result<seq<Value>>)
    ensures r == match Decode(lib, data) { case Ok(d) => Ok(d.0) case Err(e) => Err(e) }
  {
    hide DecodeSerial, DecodeHeader;
    var header :- LoadHeader(data);
    var types, body := header.1, data[header.0..];
    var values: seq<Value>, bodyOffset: nat := [], 0;
    ghost var all := DecodeValues(lib, types, body, 0);
    assert types[0..] == types;
    PrefixedNone(all);
    for i := 0 to |types|
      invariant all == Prefixed(values, DecodeValues(lib, types[i..], body, bodyOffset))
    {
      ghost var rest := DecodeValues(lib, types[i..], body, bodyOffset);
      var column :- DecodeColumn(lib, types[i], body, bodyOffset);
      assert types[i..][1..] == types[i + 1..];
      assert rest == Prefixed([column.0], DecodeValues(lib, types[i + 1..], body, bodyOffset + column.1));
      PrefixedOne(values, column.0, DecodeValues(lib, types[i + 1..], body, bodyOffset + column.1));
      values := values + [column.0];
      bodyOffset := bodyOffset + column.1;
    }
    assert values + [] == values;
    return Ok(values);
  }

  method RecordByteLength(lib: Lib, data: seq<byte>) returns (r: Result<nat>)
    ensures r == match Decode(lib, data) { case Ok(d) => Ok(d.1) case Err(e) => Err(e) }
  {
    hide DecodeSerial, DecodeHeader;
    var header :- LoadHeader(data);
    var types, body := header.1, data[header.0..];
    var bodyOffset: nat := 0;
    ghost var values: seq<Value>, all := [], DecodeValues(lib, types, body, 0);
    assert types[0..] == types;
    PrefixedNone(all);
    for i := 0 to |types|
      invariant all == Prefixed(values, DecodeValues(lib, types[i..], body, bodyOffset))
    {
      ghost var rest := DecodeValues(lib, types[i..], body, bodyOffset);
      var column :- DecodeColumn(lib, types[i], body, bodyOffset);
      assert types[i..][1..] == types[i + 1..];
      assert rest == Prefixed([column.0], DecodeValues(lib, types[i + 1..], body, bodyOffset + column.1));
      PrefixedOne(values, column.0, DecodeValues(lib, types[i + 1..], body, bodyOffset + column.1));
      values := values + [column.0];
      bodyOffset := bodyOffset + column.1;
    }
    return Ok(header.0 + bodyOffset);
  }
}
