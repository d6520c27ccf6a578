/** The Meshtastic User message, which carries a node's public key (meshtastic_lite/meshtastic_pb.c). */
module MeshUser {
  import opened Bytes
  import opened Protobuf

  const ID_MAX: nat := 15
  const LONG_NAME_MAX: nat := 39
  const SHORT_NAME_MAX: nat := 4
  const KEY_MAX: nat := 32

  datatype User = User(id: seq<byte>, longName: seq<byte>, shortName: seq<byte>, hwModel: u16, publicKey: seq<byte>)

  const EMPTY: User := User([], [], [], 0, [])

  // ---------------------------------------------------------------- decoding

  function TakeField(field: u32, wireType: nat, s: seq<byte>, acc: User): (r: Parsed<User>)
    ensures r.Parsed? ==> r.used <= |s|
  {
    if field == 1 then
      match ReadBytes(s, ID_MAX) case Malformed => Malformed case Parsed(v, n) => Parsed(acc.(id := v), n)
    else if field == 2 then
      match ReadBytes(s, LONG_NAME_MAX) case Malformed => Malformed case Parsed(v, n) => Parsed(acc.(longName := v), n)
    else if field == 3 then
      match ReadBytes(s, SHORT_NAME_MAX) case Malformed => Malformed case Parsed(v, n) => Parsed(acc.(shortName := v), n)
    else if field == 5 then
      match ReadVarint(s) case Malformed => Malformed case Parsed(v, n) => Parsed(acc.(hwModel := v % 0x1_0000), n)
    else if field == 8 then
      match ReadBytes(s, KEY_MAX) case Malformed => Malformed case Parsed(v, n) => Parsed(acc.(publicKey := v), n)
    else
      match SkipField(wireType, s) case Malformed => Malformed case Parsed(_, n) => Parsed(acc, n)
  }

  function Turn1(s: seq<byte>, acc: User): (r: Turn<User>)
    ensures r.Next? ==> 0 < r.used <= |s|
  {
    match ReadTag(s)
    case Malformed => Stop
    case Parsed((field, wireType), n) =>
      match TakeField(field, wireType, s[n..], acc)
      case Malformed => Refuse
      case Parsed(user, m) => Next(user, n + m)
  }

  function DecodeFrom(s: seq<byte>, acc: User): (r: Option<User>)
    decreases |s|
  {
    if s == [] then Some(acc)
    else
      match Turn1(s, acc)
      case Stop => Some(acc)
      case Refuse => None
      case Next(user, n) => DecodeFrom(s[n..], user)
  }

  function Decode(s: seq<byte>): (r: Option<User>)
  {
    DecodeFrom(s, EMPTY)
  }

  /** The equations of the decoding loop. */
  lemma DecodeStep(s: seq<byte>, acc: User)
    ensures s == [] || Turn1(s, acc).Stop? ==> DecodeFrom(s, acc) == Some(acc)
    ensures s != [] && Turn1(s, acc).Refuse? ==> DecodeFrom(s, acc) == None
    ensures s != [] && Turn1(s, acc).Next? ==>
      DecodeFrom(s, acc) == DecodeFrom(s[Turn1(s, acc).used..], Turn1(s, acc).data)
  {
  }

  method TakeValue(c: Cursor, field: u32, wireType: nat, acc: User) returns (r: Option<User>)
    requires c.Valid()
    modifies c
    ensures c.Valid() && c.pos >= old(c.pos)
    ensures match TakeField(field, wireType, old(c.Ahead()), acc)
            case Malformed => r.None?
            case Parsed(user, n) => r == Some(user) && c.pos == old(c.pos) + n
  {
    if field == 1 {
      var v := c.TakeBytes(ID_MAX);
      return if v.Some? then Some(acc.(id := v.value)) else None;
    } else if field == 2 {
      var v := c.TakeBytes(LONG_NAME_MAX);
      return if v.Some? then Some(acc.(longName := v.value)) else None;
    } else if field == 3 {
      var v := c.TakeBytes(SHORT_NAME_MAX);
      return if v.Some? then Some(acc.(shortName := v.value)) else None;
    } else if field == 5 {
      var v := c.TakeVarint();
      return if v.Some? then Some(acc.(hwModel := v.value % 0x1_0000)) else None;
    } else if field == 8 {
      var v := c.TakeBytes(KEY_MAX);
      return if v.Some? then Some(acc.(publicKey := v.value)) else None;
    }
    var ok := c.Skip(wireType);
    return if ok then Some(acc) else None;
  }

  method TakeTurn(c: Cursor, acc: User) returns (turn: Turn<User>)
    requires c.Valid()
    modifies c
    ensures c.Valid() && c.pos >= old(c.pos) && turn == Turn1(old(c.Ahead()), acc)
    ensures turn.Next? ==> c.pos == old(c.pos) + turn.used
  {
    hide TakeField, ReadTag;
    ghost var ahead := c.Ahead();
    var start := c.pos;
    var tag := c.TakeTag();
    if tag.None? {
      return Stop;
    }
    DropDrop(c.buf, start, c.pos - start);
    var value := TakeValue(c, tag.value.0, tag.value.1, acc);
    return if value.Some? then Next(value.value, c.pos - start) else Refuse;
  }

  method DecodeUser(buf: seq<byte>) returns (r: Option<User>)
    requires |buf| < 0x1_0000
    ensures r == Decode(buf)
  {
    hide Turn1, DecodeFrom;
    ghost var goal := DecodeFrom(buf, EMPTY);
    var c := new Cursor(buf);
    var out := EMPTY;
    while true
      invariant c.Valid() && c.buf == buf && DecodeFrom(c.Ahead(), out) == goal
      decreases |buf| - c.pos
    {
      ghost var ahead, start := c.Ahead(), c.pos;
      DecodeStep(ahead, out);
      var end := c.Exhausted();
      if end {
        return Some(out);
      }
      var turn := TakeTurn(c, out);
      if turn.Stop? {
        return Some(out);
      }
      if turn.Refuse? {
        return None;
      }
      DropDrop(buf, start, turn.used);
      assert c.Ahead() == ahead[turn.used..];
      out := turn.data;
    }
    return None;
  }

  // ---------------------------------------------------------------- encoding

  /** A field written only when it has something in it. */
  function BytesField(field: nat, v: seq<byte>): (s: seq<byte>)
  {
    if v == [] then [] else EncodeBytesField(field, v)
  }

  function ModelField(model: u16): (s: seq<byte>)
  {
    if model == 0 then [] else EncodeVarintField(5, model)
  }

  function Encode(u: User): (s: seq<byte>)
  {
    BytesField(1, u.id) + (BytesField(2, u.longName) + (BytesField(3, u.shortName)
    + (ModelField(u.hwModel) + (BytesField(8, u.publicKey) + []))))
  }

  /** The message on the wire: the fields that have something in them, under tags 10, 18, 26, 40 and 66. */
  lemma UserBytes(u: User)
    ensures Encode(u) ==
      (if u.id != [] then [10] + EncodeVarint(|u.id|) + u.id else [])
      + (if u.longName != [] then [18] + EncodeVarint(|u.longName|) + u.longName else [])
      + (if u.shortName != [] then [26] + EncodeVarint(|u.shortName|) + u.shortName else [])
      + (if u.hwModel != 0 then [40] + EncodeVarint(u.hwModel) else [])
      + (if u.publicKey != [] then [66] + EncodeVarint(|u.publicKey|) + u.publicKey else [])
  {
    assert EncodeTag(1, 2) == [10] && EncodeTag(2, 2) == [18] && EncodeTag(3, 2) == [26];
    assert EncodeTag(5, 0) == [40] && EncodeTag(8, 2) == [66];
    hide EncodeVarint;
    var a, b, c := BytesField(1, u.id), BytesField(2, u.longName), BytesField(3, u.shortName);
    var d, e := ModelField(u.hwModel), BytesField(8, u.publicKey);
    assert Encode(u) == a + b + c + d + e;
  }

  method PutBytes(w: Writer, field: nat, v: seq<byte>) returns (ok: bool)
    requires w.Valid()
    modifies w, w.buf
    ensures w.Valid() && (ok <==> |old(w.Written())| + |BytesField(field, v)| <= w.capacity)
    ensures ok ==> w.Written() == old(w.Written()) + BytesField(field, v)
  {
    ok := true;
    if |v| > 0 {
      ok := w.PutBytesField(field, v);
    }
  }

  method PutModel(w: Writer, model: u16) returns (ok: bool)
    requires w.Valid()
    modifies w, w.buf
    ensures w.Valid() && (ok <==> |old(w.Written())| + |ModelField(model)| <= w.capacity)
    ensures ok ==> w.Written() == old(w.Written()) + ModelField(model)
  {
    hide EncodeVarintField;
    ok := true;
    if model != 0 {
      ok := w.PutVarintField(5, model);
    }
  }

  /** The implementation: the encoding and its length, or 0 exactly when it does not fit. */
  method EncodeUser(buf: array<byte>, capacity: nat, u: User) returns (len: nat)
    requires capacity <= buf.Length
    modifies buf
    ensures if |Encode(u)| <= capacity then len == |Encode(u)| && buf[..len] == Encode(u) else len == 0
  {
    hide BytesField, ModelField;
    var w := new Writer(buf, capacity);
    var ok := PutBytes(w, 1, u.id);
    if !ok {
      return 0;
    }
    ok := PutBytes(w, 2, u.longName);
    if !ok {
      return 0;
    }
    ok := PutBytes(w, 3, u.shortName);
    if !ok {
      return 0;
    }
    ok := PutModel(w, u.hwModel);
    if !ok {
      return 0;
    }
    ok := PutBytes(w, 8, u.publicKey);
    if !ok {
      return 0;
    }
    assert w.Written() == Encode(u);
    return w.pos;
  }

  // ---------------------------------------------------------------- round trip

  /** A byte field in front: its value goes into the field, cut to what the field holds. */
  lemma BytesDecoded(field: nat, v: seq<byte>, acc: User, rest: seq<byte>)
    requires field == 1 || field == 2 || field == 3 || field == 8
    requires |v| < VARINT_LIMIT
    requires (if field == 1 then acc.id else if field == 2 then acc.longName
              else if field == 3 then acc.shortName else acc.publicKey) == []
    ensures DecodeFrom(BytesField(field, v) + rest, acc) ==
      DecodeFrom(rest,
        if field == 1 then acc.(id := v[..Min(|v|, ID_MAX)])
        else if field == 2 then acc.(longName := v[..Min(|v|, LONG_NAME_MAX)])
        else if field == 3 then acc.(shortName := v[..Min(|v|, SHORT_NAME_MAX)])
        else acc.(publicKey := v[..Min(|v|, KEY_MAX)]))
  {
    hide ReadTag, EncodeTag, ReadVarint, EncodeVarint, ReadDelimited, DecodeFrom;
    if v == [] {
      assert BytesField(field, v) + rest == rest;
    } else {
      var e, t := EncodeVarint(|v|) + v, EncodeTag(field, 2);
      var s := BytesField(field, v) + rest;
      TagRoundTrip(field, 2, e + rest);
      DelimitedRoundTrip(v, rest);
      assert s == t + (e + rest);
      assert s[|t|..] == e + rest && s[|t| + |e|..] == rest;
      DecodeStep(s, acc);
    }
  }

  lemma ModelDecoded(model: u16, acc: User, rest: seq<byte>)
    requires acc.hwModel == 0
    ensures DecodeFrom(ModelField(model) + rest, acc) == DecodeFrom(rest, acc.(hwModel := model))
  {
    hide ReadTag, EncodeTag, ReadVarint, EncodeVarint, DecodeFrom;
    if model == 0 {
      assert ModelField(model) + rest == rest;
    } else {
      var e, t := EncodeVarint(model), EncodeTag(5, 0);
      var s := ModelField(model) + rest;
      TagRoundTrip(5, 0, e + rest);
      VarintRoundTrip(model, rest);
      assert s == t + (e + rest);
      assert s[|t|..] == e + rest && s[|t| + |e|..] == rest;
      DecodeStep(s, acc);
    }
  }

  predicate Fits(u: User)
  {
    |u.id| <= ID_MAX && |u.longName| <= LONG_NAME_MAX && |u.shortName| <= SHORT_NAME_MAX && |u.publicKey| <= KEY_MAX
  }

  function Cut(u: User): (r: User)
  {
    User(u.id[..Min(|u.id|, ID_MAX)], u.longName[..Min(|u.longName|, LONG_NAME_MAX)],
         u.shortName[..Min(|u.shortName|, SHORT_NAME_MAX)], u.hwModel, u.publicKey[..Min(|u.publicKey|, KEY_MAX)])
  }

  lemma CutChanges(u: User)
    ensures Cut(u) == u <==> Fits(u)
  {
    if Fits(u) {
      assert u.id[..|u.id|] == u.id && u.longName[..|u.longName|] == u.longName;
      assert u.shortName[..|u.shortName|] == u.shortName && u.publicKey[..|u.publicKey|] == u.publicKey;
    } else {
      assert |Cut(u).id| != |u.id| || |Cut(u).longName| != |u.longName|
          || |Cut(u).shortName| != |u.shortName| || |Cut(u).publicKey| != |u.publicKey|;
    }
  }

  /** Decoding restores a User exactly when every field fits its buffer; otherwise the long ones come back cut. */
  lemma UserRoundTrip(u: User)
    requires |u.id| < VARINT_LIMIT && |u.longName| < VARINT_LIMIT && |u.shortName| < VARINT_LIMIT
    requires |u.publicKey| < VARINT_LIMIT
    ensures Decode(Encode(u)) == Some(Cut(u))
    ensures Decode(Encode(u)) == Some(u) <==> Fits(u)
  {
    hide DecodeFrom, BytesField, ModelField;
    var r5 := BytesField(8, u.publicKey) + [];
    var r4 := ModelField(u.hwModel) + r5;
    var r3 := BytesField(3, u.shortName) + r4;
    var r2 := BytesField(2, u.longName) + r3;
    var c := Cut(u);
    BytesDecoded(1, u.id, EMPTY, r2);
    var u1 := EMPTY.(id := c.id);
    BytesDecoded(2, u.longName, u1, r3);
    var u2 := u1.(longName := c.longName);
    BytesDecoded(3, u.shortName, u2, r4);
    var u3 := u2.(shortName := c.shortName);
    ModelDecoded(u.hwModel, u3, r5);
    var u4 := u3.(hwModel := u.hwModel);
    BytesDecoded(8, u.publicKey, u4, []);
    DecodeStep([], c);
    CutChanges(u);
  }
}
