/** The Meshtastic Data envelope (meshtastic_lite/meshtastic_pb.c). */
module MeshData {
  import opened Bytes
  import opened Protobuf

  const PAYLOAD_MAX: nat := 240

  type Payload = s: seq<byte> | |s| <= PAYLOAD_MAX witness []

  datatype Data = Data(
    portnum: u16, payload: Payload, wantResponse: bool, dest: u32, source: u32, requestId: u32, bitfield: u32)

  const EMPTY: Data := Data(0, [], false, 0, 0, 0, 0)

  // ---------------------------------------------------------------- decoding

  predicate KnownField(field: nat)
  {
    1 <= field <= 6 || field == 9
  }

  /** A field's value, once its tag has been read. */
  function TakeField(field: u32, wireType: nat, s: seq<byte>, acc: Data): (r: Parsed<Data>)
    ensures r.Parsed? ==> r.used <= |s|
  {
    if field == 1 || field == 3 || field == 9 then
      match ReadVarint(s)
      case Malformed => Malformed
      case Parsed(v, n) =>
        Parsed(if field == 1 then acc.(portnum := v % 0x1_0000)
               else if field == 3 then acc.(wantResponse := v != 0)
               else acc.(bitfield := v % 0x1_0000_0000), n)
    else if field == 2 then
      match ReadBytes(s, PAYLOAD_MAX) case Malformed => Malformed case Parsed(v, n) => Parsed(acc.(payload := v), n)
    else if 4 <= field <= 6 then
      match ReadFixed32(s)
      case Malformed => Malformed
      case Parsed(v, n) =>
        Parsed(if field == 4 then acc.(dest := v) else if field == 5 then acc.(source := v) else acc.(requestId := v), n)
    else
      match SkipField(wireType, s) case Malformed => Malformed case Parsed(_, n) => Parsed(acc, n)
  }

  function Turn1(s: seq<byte>, acc: Data): (r: Turn<Data>)
    ensures r.Next? ==> 0 < r.used <= |s|
  {
    match ReadTag(s)
    case Malformed => Stop
    case Parsed((field, wireType), n) =>
      match TakeField(field, wireType, s[n..], acc)
      case Malformed => Refuse
      case Parsed(data, m) => Next(data, n + m)
  }

  /** The loop. Every turn takes at least one byte, so it ends on every byte string. */
  function DecodeFrom(s: seq<byte>, acc: Data): (r: Option<Data>)
    decreases |s|
  {
    if s == [] then Accept(acc)
    else
      match Turn1(s, acc)
      case Stop => Accept(acc)
      case Refuse => None
      case Next(data, n) => DecodeFrom(s[n..], data)
  }

  /** Port 0 means a message decrypted with the wrong key. */
  function Accept(acc: Data): (r: Option<Data>)
  {
    if acc.portnum != 0 then Some(acc) else None
  }

  function Decode(s: seq<byte>): (r: Option<Data>)
  {
    DecodeFrom(s, EMPTY)
  }

  lemma DecodeStep(s: seq<byte>, acc: Data)
    ensures s == [] || Turn1(s, acc).Stop? ==> DecodeFrom(s, acc) == Accept(acc)
    ensures s != [] && Turn1(s, acc).Refuse? ==> DecodeFrom(s, acc) == None
    ensures s != [] && Turn1(s, acc).Next? ==>
      DecodeFrom(s, acc) == DecodeFrom(s[Turn1(s, acc).used..], Turn1(s, acc).data)
  {
  }

  /** The implementation: any byte string, the cursor inside the buffer throughout. */
  method DecodeData(buf: seq<byte>) returns (r: Option<Data>)
    requires |buf| < 0x1_0000
    ensures r == Decode(buf)
  {
    hide Turn1, DecodeFrom;
    ghost var goal := DecodeFrom(buf, EMPTY);
    var c := new Cursor(buf);
    var out := EMPTY;
    while true
      invariant c.Valid() && c.buf == buf && DecodeFrom(c.Ahead(), out) == goal
      decreases |buf| - c.pos
    {
      ghost var ahead, start := c.Ahead(), c.pos;
      DecodeStep(ahead, out);
      var end := c.Exhausted();
      if end {
        return Accept(out);
      }
      var turn := TakeTurn(c, out);
      if turn.Stop? {
        return Accept(out);
      }
      if turn.Refuse? {
        return None;
      }
      DropDrop(buf, start, turn.used);
      assert c.Ahead() == ahead[turn.used..];
      out := turn.data;
    }
    return None;
  }

  method TakeTurn(c: Cursor, acc: Data) returns (turn: Turn<Data>)
    requires c.Valid()
    modifies c
    ensures c.Valid() && c.pos >= old(c.pos) && turn == Turn1(old(c.Ahead()), acc)
    ensures turn.Next? ==> c.pos == old(c.pos) + turn.used
  {
    hide TakeField, ReadTag;
    ghost var ahead := c.Ahead();
    var start := c.pos;
    TurnCases(ahead, acc);
    var tag := c.TakeTag();
    if tag.None? {
      return Stop;
    }
    DropDrop(c.buf, start, c.pos - start);
    var value := TakeValue(c, tag.value.0, tag.value.1, acc);
    return if value.Some? then Next(value.value, c.pos - start) else Refuse;
  }

  lemma TurnCases(s: seq<byte>, acc: Data)
    ensures match ReadTag(s)
            case Malformed => Turn1(s, acc) == Stop
            case Parsed((field, wireType), n) =>
              match TakeField(field, wireType, s[n..], acc)
              case Malformed => Turn1(s, acc) == Refuse
              case Parsed(data, m) => Turn1(s, acc) == Next(data, n + m)
  {
  }

  method TakeValue(c: Cursor, field: u32, wireType: nat, acc: Data) returns (r: Option<Data>)
    requires c.Valid()
    modifies c
    ensures c.Valid() && c.pos >= old(c.pos)
    ensures match TakeField(field, wireType, old(c.Ahead()), acc)
            case Malformed => r.None?
            case Parsed(data, n) => r == Some(data) && c.pos == old(c.pos) + n
  {
    if field == 1 {
      var v := c.TakeVarint();
      return if v.Some? then Some(acc.(portnum := v.value % 0x1_0000)) else None;
    } else if field == 2 {
      var v := c.TakeBytes(PAYLOAD_MAX);
      return if v.Some? then Some(acc.(payload := v.value)) else None;
    } else if field == 3 {
      var v := c.TakeVarint();
      return if v.Some? then Some(acc.(wantResponse := v.value != 0)) else None;
    } else if field == 4 {
      var v := c.TakeFixed32();
      return if v.Some? then Some(acc.(dest := v.value)) else None;
    } else if field == 5 {
      var v := c.TakeFixed32();
      return if v.Some? then Some(acc.(source := v.value)) else None;
    } else if field == 6 {
      var v := c.TakeFixed32();
      return if v.Some? then Some(acc.(requestId := v.value)) else None;
    } else if field == 9 {
      var v := c.TakeVarint();
      return if v.Some? then Some(acc.(bitfield := v.value % 0x1_0000_0000)) else None;
    }
    var ok := c.Skip(wireType);
    return if ok then Some(acc) else None;
  }

  // ---------------------------------------------------------------- complete fields

  lemma TakeFieldLocal(field: u32, wireType: nat, s: seq<byte>, acc: Data, rest: seq<byte>)
    requires TakeField(field, wireType, s, acc).Parsed?
    ensures TakeField(field, wireType, s + rest, acc) == TakeField(field, wireType, s, acc)
  {
    hide ReadVarint, ReadBytes, ReadFixed32, SkipField;
    ReadsLocal(s, rest, PAYLOAD_MAX, wireType);
  }

  /** A field that is read completely is read the same way whatever follows it. */
  lemma TurnLocal(s: seq<byte>, acc: Data, rest: seq<byte>)
    requires Turn1(s, acc).Next?
    ensures Turn1(s + rest, acc) == Turn1(s, acc)
  {
    hide TakeField, ReadTag;
    ReadsLocal(s, rest, PAYLOAD_MAX, 0);
    var tag, n := ReadTag(s).value, ReadTag(s).used;
    assert (s + rest)[n..] == s[n..] + rest;
    TakeFieldLocal(tag.0, tag.1, s[n..], acc, rest);
  }

  /** What a run of complete fields makes of the message so far; None when s does not split into such a run. */
  function Fields(s: seq<byte>, acc: Data): (r: Option<Data>)
    decreases |s|
  {
    if s == [] then Some(acc)
    else match Turn1(s, acc) case Next(data, n) => Fields(s[n..], data) case _ => None
  }

  lemma {:induction false} FieldsThen(s: seq<byte>, acc: Data, rest: seq<byte>)
    requires Fields(s, acc).Some?
    ensures DecodeFrom(s + rest, acc) == DecodeFrom(rest, Fields(s, acc).value)
    decreases |s|
  {
    hide Turn1;
    if s == [] {
      assert s + rest == rest;
    } else {
      TurnLocal(s, acc, rest);
      var n, data := Turn1(s, acc).used, Turn1(s, acc).data;
      assert (s + rest)[n..] == s[n..] + rest;
      FieldsThen(s[n..], data, rest);
    }
  }

  /** Exactly one complete field whose number the decoder does not know. */
  predicate UnknownField(u: seq<byte>)
  {
    && ReadTag(u).Parsed? && !KnownField(ReadTag(u).value.0)
    && SkipField(ReadTag(u).value.1, u[ReadTag(u).used..]).Parsed?
    && ReadTag(u).used + SkipField(ReadTag(u).value.1, u[ReadTag(u).used..]).used == |u|
  }

  lemma UnknownFieldTurn(u: seq<byte>, acc: Data)
    requires UnknownField(u)
    ensures Turn1(u, acc) == Next(acc, |u|)
  {
  }

  /** Forward compatibility: after any run of complete fields, inserting a complete field of unknown number
      changes nothing, whatever bytes follow. */
  lemma UnknownFieldIgnored(before: seq<byte>, u: seq<byte>, after: seq<byte>)
    requires Fields(before, EMPTY).Some? && UnknownField(u)
    ensures Decode(before + u + after) == Decode(before + after)
  {
    var acc := Fields(before, EMPTY).value;
    assert before + u + after == before + (u + after);
    FieldsThen(before, EMPTY, u + after);
    FieldsThen(before, EMPTY, after);
    UnknownFieldTurn(u, acc);
    assert u[|u|..] == [];
    FieldsThen(u, acc, after);
  }

  /** How a message may end. After complete fields, bytes that make no tag end it there, and it is accepted if it has a
      port; a tag whose value is cut short or, for an unknown number, cannot be skipped, refuses all of it. */
  lemma TrailingBytes(before: seq<byte>, tail: seq<byte>)
    requires Fields(before, EMPTY).Some?
    ensures var d := Fields(before, EMPTY).value;
      && (tail == [] || ReadTag(tail).Malformed? ==>
            Decode(before + tail) == if d.portnum == 0 then None else Some(d))
      && (tail != [] && ReadTag(tail).Parsed? ==>
            var (tag, rest) := (ReadTag(tail).value, tail[ReadTag(tail).used..]);
            var broken := if tag.0 == 1 || tag.0 == 3 || tag.0 == 9 then ReadVarint(rest).Malformed?
                          else if tag.0 == 2 then ReadDelimited(rest).Malformed?
                          else if 4 <= tag.0 <= 6 then |rest| < 4
                          else SkipField(tag.1, rest).Malformed?;
            broken ==> Decode(before + tail).None?)
  {
    hide ReadTag, ReadVarint, ReadDelimited, SkipField, Fields;
    var d := Fields(before, EMPTY).value;
    FieldsThen(before, EMPTY, tail);
    DecodeStep(tail, d);
  }

  /** Every way of writing an unknown field: a varint below 2^63, eight bytes, a length and its bytes, four bytes. */
  lemma UnknownFieldForms(field: nat, v: nat, data: seq<byte>)
    requires field < 0x1_0000_0000 && !KnownField(field) && v < VARINT_LIMIT && |data| < VARINT_LIMIT
    ensures UnknownField(EncodeVarintField(field, v))
    ensures UnknownField(EncodeBytesField(field, data))
    ensures |data| == 8 ==> UnknownField(EncodeTag(field, 1) + data)
    ensures |data| == 4 ==> UnknownField(EncodeTag(field, 5) + data)
  {
    hide ReadTag, EncodeTag, ReadVarint, EncodeVarint, ReadDelimited;
    TagRoundTrip(field, 0, EncodeVarint(v));
    VarintRoundTrip(v, []);
    assert EncodeVarint(v) + [] == EncodeVarint(v);
    assert EncodeVarintField(field, v)[|EncodeTag(field, 0)|..] == EncodeVarint(v);
    var e := EncodeVarint(|data|) + data;
    TagRoundTrip(field, 2, e);
    DelimitedRoundTrip(data, []);
    assert e + [] == e;
    assert EncodeBytesField(field, data) == EncodeTag(field, 2) + e;
    assert (EncodeTag(field, 2) + e)[|EncodeTag(field, 2)|..] == e;
    TagRoundTrip(field, 1, data);
    TagRoundTrip(field, 5, data);
    assert (EncodeTag(field, 1) + data)[|EncodeTag(field, 1)|..] == data;
    assert (EncodeTag(field, 5) + data)[|EncodeTag(field, 5)|..] == data;
  }

  // ---------------------------------------------------------------- encoding

  /** The bytes meshEncodeData writes: port, payload if any, the two flags if set. */
  function Encode(portnum: u64, payload: seq<byte>, wantResponse: bool, okToMqtt: bool): (s: seq<byte>)
  {
    EncodeVarintField(1, portnum) + PayloadField(payload) + FlagField(3, wantResponse) + FlagField(9, okToMqtt)
  }

  function PayloadField(payload: seq<byte>): (s: seq<byte>)
  {
    if payload != [] then EncodeBytesField(2, payload) else []
  }

  function FlagField(field: nat, on: bool): (s: seq<byte>)
  {
    if on then EncodeVarintField(field, 1) else []
  }

  method PutFlag(w: Writer, field: nat, on: bool) returns (ok: bool)
    requires w.Valid()
    modifies w, w.buf
    ensures w.Valid() && (ok <==> |old(w.Written())| + |FlagField(field, on)| <= w.capacity)
    ensures ok ==> w.Written() == old(w.Written()) + FlagField(field, on)
  {
    ok := true;
    if on {
      ok := w.PutVarintField(field, 1);
    }
  }

  method PutPayload(w: Writer, payload: seq<byte>) returns (ok: bool)
    requires w.Valid()
    modifies w, w.buf
    ensures w.Valid() && (ok <==> |old(w.Written())| + |PayloadField(payload)| <= w.capacity)
    ensures ok ==> w.Written() == old(w.Written()) + PayloadField(payload)
  {
    ok := true;
    if |payload| > 0 {
      ok := w.PutBytesField(2, payload);
    }
  }

  /** The implementation: the encoding and its length, or 0 exactly when it does not fit. */
  method EncodeData(buf: array<byte>, capacity: nat, portnum: u64, payload: seq<byte>, wantResponse: bool, okToMqtt: bool)
    returns (len: nat)
    requires capacity <= buf.Length
    modifies buf
    ensures var e := Encode(portnum, payload, wantResponse, okToMqtt);
      if |e| <= capacity then len == |e| && buf[..len] == e else len == 0
  {
    hide EncodeVarintField, PayloadField, FlagField;
    var w := new Writer(buf, capacity);
    var ok := w.PutVarintField(1, portnum);
    if !ok {
      return 0;
    }
    ok := PutPayload(w, payload);
    if !ok {
      return 0;
    }
    ok := PutFlag(w, 3, wantResponse);
    if !ok {
      return 0;
    }
    ok := PutFlag(w, 9, okToMqtt);
    if !ok {
      return 0;
    }
    return w.pos;
  }

  /** The message on the wire: tag 8 and the port, tag 18 with length and payload unless that is empty, 24 1 and 72 1
      for the flags that are set. */
  lemma DataBytes(portnum: u64, payload: seq<byte>, wantResponse: bool, okToMqtt: bool)
    ensures Encode(portnum, payload, wantResponse, okToMqtt) ==
      [8] + EncodeVarint(portnum) + (if payload != [] then [18] + EncodeVarint(|payload|) + payload else [])
      + (if wantResponse then [24, 1] else []) + (if okToMqtt then [72, 1] else [])
  {
    assert EncodeTag(1, 0) == [8] && EncodeTag(2, 2) == [18] && EncodeTag(3, 0) == [24] && EncodeTag(9, 0) == [72];
    assert EncodeVarint(1) == [1];
  }

  /** The fields only other nodes write: destination, source and request identifier, four bytes each, and a bitfield of
      any width. */
  lemma OtherFields(v: u32, wide: nat, acc: Data, rest: seq<byte>)
    requires wide < VARINT_LIMIT
    ensures DecodeFrom([37] + Le32(v) + rest, acc) == DecodeFrom(rest, acc.(dest := v))
    ensures DecodeFrom([45] + Le32(v) + rest, acc) == DecodeFrom(rest, acc.(source := v))
    ensures DecodeFrom([53] + Le32(v) + rest, acc) == DecodeFrom(rest, acc.(requestId := v))
    ensures DecodeFrom([72] + EncodeVarint(wide) + rest, acc) == DecodeFrom(rest, acc.(bitfield := wide % 0x1_0000_0000))
  {
    hide DecodeFrom, Turn1, Le32, EncodeVarint;
    FixedField(4, v, acc, rest);
    FixedField(5, v, acc, rest);
    FixedField(6, v, acc, rest);
    Tags();
    VarintFieldTurn(9, wide, acc, rest);
    TurnThen(EncodeVarintField(9, wide), rest, acc, acc.(bitfield := wide % 0x1_0000_0000));
  }

  lemma Tags()
    ensures EncodeTag(4, 5) == [37] && EncodeTag(5, 5) == [45] && EncodeTag(6, 5) == [53] && EncodeTag(9, 0) == [72]
  {
  }

  lemma FixedField(field: u32, v: u32, acc: Data, rest: seq<byte>)
    requires 4 <= field <= 6
    ensures DecodeFrom(EncodeTag(field, 5) + Le32(v) + rest, acc) ==
      DecodeFrom(rest, if field == 4 then acc.(dest := v) else if field == 5 then acc.(source := v)
                       else acc.(requestId := v))
  {
    hide DecodeFrom, ReadTag, EncodeTag, Le32, ReadLe32;
    var t := EncodeTag(field, 5);
    var s := t + Le32(v) + rest;
    assert s == t + (Le32(v) + rest);
    TagRoundTrip(field, 5, Le32(v) + rest);
    Le32RoundTrip(v);
    assert s[|t|..] == Le32(v) + rest && (Le32(v) + rest)[..4] == Le32(v);
    assert s[|t| + 4..] == rest;
    DecodeStep(s, acc);
  }

  lemma VarintFieldTurn(field: nat, v: nat, acc: Data, rest: seq<byte>)
    requires field == 1 || field == 3 || field == 9
    requires v < VARINT_LIMIT
    ensures Turn1(EncodeVarintField(field, v) + rest, acc) ==
      Next(if field == 1 then acc.(portnum := v % 0x1_0000) else if field == 3 then acc.(wantResponse := v != 0)
           else acc.(bitfield := v % 0x1_0000_0000), |EncodeVarintField(field, v)|)
  {
    hide ReadTag, EncodeTag, ReadVarint, EncodeVarint;
    TagRoundTrip(field, 0, EncodeVarint(v) + rest);
    VarintRoundTrip(v, rest);
    var t := EncodeTag(field, 0);
    assert EncodeVarintField(field, v) + rest == t + (EncodeVarint(v) + rest);
    assert (t + (EncodeVarint(v) + rest))[|t|..] == EncodeVarint(v) + rest;
  }

  lemma PayloadTurn(payload: Payload, acc: Data, rest: seq<byte>)
    ensures Turn1(EncodeBytesField(2, payload) + rest, acc) ==
            Next(acc.(payload := payload), |EncodeBytesField(2, payload)|)
  {
    hide ReadTag, EncodeTag, ReadVarint, EncodeVarint, ReadDelimited;
    var e := EncodeVarint(|payload|) + payload;
    TagRoundTrip(2, 2, e + rest);
    DelimitedRoundTrip(payload, rest);
    var t := EncodeTag(2, 2);
    assert EncodeBytesField(2, payload) + rest == t + (e + rest);
    assert (t + (e + rest))[|t|..] == e + rest;
    assert payload[..|payload|] == payload;
  }

  lemma TurnThen(field: seq<byte>, rest: seq<byte>, acc: Data, next: Data)
    requires Turn1(field + rest, acc) == Next(next, |field|)
    ensures DecodeFrom(field + rest, acc) == DecodeFrom(rest, next)
  {
    assert (field + rest)[|field|..] == rest;
  }

  lemma PayloadDecoded(payload: Payload, acc: Data, rest: seq<byte>)
    requires acc.payload == []
    ensures DecodeFrom(PayloadField(payload) + rest, acc) == DecodeFrom(rest, acc.(payload := payload))
  {
    hide Turn1, EncodeBytesField, DecodeFrom;
    if payload != [] {
      PayloadTurn(payload, acc, rest);
      TurnThen(EncodeBytesField(2, payload), rest, acc, acc.(payload := payload));
    } else {
      assert PayloadField(payload) + rest == rest;
    }
  }

  lemma WantResponseDecoded(on: bool, acc: Data, rest: seq<byte>)
    requires !acc.wantResponse
    ensures DecodeFrom(FlagField(3, on) + rest, acc) == DecodeFrom(rest, acc.(wantResponse := on))
  {
    hide Turn1, EncodeVarintField, DecodeFrom;
    if on {
      VarintFieldTurn(3, 1, acc, rest);
      TurnThen(EncodeVarintField(3, 1), rest, acc, acc.(wantResponse := true));
    } else {
      assert FlagField(3, on) + rest == rest;
    }
  }

  lemma OkToMqttDecoded(on: bool, acc: Data, rest: seq<byte>)
    requires acc.bitfield == 0
    ensures DecodeFrom(FlagField(9, on) + rest, acc) == DecodeFrom(rest, acc.(bitfield := if on then 1 else 0))
  {
    hide Turn1, EncodeVarintField, DecodeFrom;
    if on {
      VarintFieldTurn(9, 1, acc, rest);
      TurnThen(EncodeVarintField(9, 1), rest, acc, acc.(bitfield := 1));
    } else {
      assert FlagField(9, on) + rest == rest;
    }
  }

  /** Decoding an encoding, for every port number below 2^63 and every payload of at most 240 bytes. */
  lemma DecodeEncoded(portnum: u64, payload: Payload, wantResponse: bool, okToMqtt: bool)
    requires portnum < VARINT_LIMIT
    ensures Decode(Encode(portnum, payload, wantResponse, okToMqtt)) ==
      Accept(Data(portnum % 0x1_0000, payload, wantResponse, 0, 0, 0, if okToMqtt then 1 else 0))
  {
    hide Turn1, EncodeVarintField, PayloadField, FlagField, DecodeFrom;
    var f1, f2, f3, f4 := EncodeVarintField(1, portnum), PayloadField(payload), FlagField(3, wantResponse), FlagField(9, okToMqtt);
    var r4 := f4 + [];
    var r3 := f3 + r4;
    var r2 := f2 + r3;
    assert Encode(portnum, payload, wantResponse, okToMqtt) == f1 + r2;
    var d1 := EMPTY.(portnum := portnum % 0x1_0000);
    VarintFieldTurn(1, portnum, EMPTY, r2);
    TurnThen(f1, r2, EMPTY, d1);
    PayloadDecoded(payload, d1, r3);
    var d2 := d1.(payload := payload);
    WantResponseDecoded(wantResponse, d2, r4);
    var d3 := d2.(wantResponse := wantResponse);
    OkToMqttDecoded(okToMqtt, d3, []);
    DecodeStep([], d3.(bitfield := if okToMqtt then 1 else 0));
  }

  /** Decoding restores the message exactly when its port number is in 1..65535. */
  lemma DataRoundTrip(portnum: u64, payload: Payload, wantResponse: bool, okToMqtt: bool)
    requires portnum < VARINT_LIMIT
    ensures (exists d ::
              && Decode(Encode(portnum, payload, wantResponse, okToMqtt)) == Some(d)
              && d.portnum == portnum && d.payload == payload && d.wantResponse == wantResponse
              && d.bitfield == (if okToMqtt then 1 else 0))
            <==> 1 <= portnum <= 0xFFFF
  {
    hide Decode, Encode;
    DecodeEncoded(portnum, payload, wantResponse, okToMqtt);
    var d := Data(portnum % 0x1_0000, payload, wantResponse, 0, 0, 0, if okToMqtt then 1 else 0);
    if 1 <= portnum <= 0xFFFF {
      assert Decode(Encode(portnum, payload, wantResponse, okToMqtt)) == Some(d) && d.portnum == portnum;
    }
  }
}
