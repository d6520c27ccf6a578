/** Contact hellos and contact records (lunarcore/lunar/contact.c). */
module ContactCodec {
  import opened Bytes
  import opened Primitives
  import opened ByteVec

  const HELLO_VERSION: byte := 3
  const MAX_DID: nat := 128
  const MAX_NAME: nat := 64
  const SIGNED_CAPACITY: nat := 256
  const ENCODED_CAPACITY: nat := 512
  const MIN_HELLO: nat := 172

  type Did = s: seq<byte> | |s| <= 128 witness []
  type Name = s: seq<byte> | |s| <= 64 witness []
  type Signature = s: seq<byte> | |s| == 64 witness seq(64, _ => 0)

  datatype Hello = Hello(
    version: byte, timestamp: u64, did: Did, ed25519Public: Key, x25519Public: Key, name: Name, avatarHash: Key,
    signature: Signature)

  datatype Trust = Unknown | Seen | Verified | Trusted

  datatype Contact = Contact(hello: Hello, trust: Trust, petname: Name, lastSeen: u64, messageCount: u32)

  datatype Error = InvalidVersion | InvalidFormat | DidTooLong | NameTooLong

  // ---------------------------------------------------------------- encoding

  /** The signed part, field by field into a 256-byte vector. */
  function EncodeForSigning(h: Hello): (s: seq<byte>)
    ensures |s| <= SIGNED_CAPACITY
  {
    AppendProfile(AppendKeys(AppendIdentity([], h), h), h)
  }

  function AppendIdentity(s: seq<byte>, h: Hello): (r: seq<byte>)
    requires |s| <= SIGNED_CAPACITY
    ensures |r| <= SIGNED_CAPACITY
  {
    var s1 := Extend(s, [h.version], SIGNED_CAPACITY);
    var s2 := Extend(s1, Le64(h.timestamp), SIGNED_CAPACITY);
    var s3 := Extend(s2, Le16(|h.did|), SIGNED_CAPACITY);
    Extend(s3, h.did, SIGNED_CAPACITY)
  }

  function AppendKeys(s: seq<byte>, h: Hello): (r: seq<byte>)
    requires |s| <= SIGNED_CAPACITY
    ensures |r| <= SIGNED_CAPACITY
  {
    Extend(Extend(s, h.ed25519Public, SIGNED_CAPACITY), h.x25519Public, SIGNED_CAPACITY)
  }

  function AppendProfile(s: seq<byte>, h: Hello): (r: seq<byte>)
    requires |s| <= SIGNED_CAPACITY
    ensures |r| <= SIGNED_CAPACITY
  {
    var s1 := Extend(s, [|h.name|], SIGNED_CAPACITY);
    var s2 := Extend(s1, h.name, SIGNED_CAPACITY);
    Extend(s2, h.avatarHash, SIGNED_CAPACITY)
  }

  function EncodeHello(h: Hello): (s: seq<byte>)
  {
    Extend(Extend([], EncodeForSigning(h), ENCODED_CAPACITY), h.signature, ENCODED_CAPACITY)
  }

  function TrustByte(t: Trust): (b: byte)
  {
    match t case Unknown => 0 case Seen => 1 case Verified => 2 case Trusted => 3
  }

  /** An unknown level reads as Unknown. */
  function TrustFromByte(b: byte): (t: Trust)
  {
    if b == 1 then Seen else if b == 2 then Verified else if b == 3 then Trusted else Unknown
  }

  function Serialize(c: Contact): (s: seq<byte>)
  {
    var hello := EncodeHello(c.hello);
    var s1 := Extend([], Le16(|hello| % 0x1_0000), ENCODED_CAPACITY);
    var s2 := Extend(s1, hello, ENCODED_CAPACITY);
    var s3 := Extend(s2, [TrustByte(c.trust)], ENCODED_CAPACITY);
    var s4 := Extend(s3, [|c.petname|], ENCODED_CAPACITY);
    var s5 := Extend(s4, c.petname, ENCODED_CAPACITY);
    var s6 := Extend(s5, Le64(c.lastSeen), ENCODED_CAPACITY);
    Extend(s6, Le32(c.messageCount), ENCODED_CAPACITY)
  }

  // ---------------------------------------------------------------- decoding

  /** From the identity keys on; s is what is left of the data. */
  function DecodeKeys(version: byte, timestamp: u64, did: Did, s: seq<byte>): (r: Result<Hello, Error>)
  {
    if |s| <= 64 then Err(InvalidFormat)
    else
      var nameLen: nat := s[64];
      if nameLen > MAX_NAME || 65 + nameLen > |s| then Err(NameTooLong)
      else if 65 + nameLen + 32 + 64 > |s| then Err(InvalidFormat)
      else
        var profile := s[65..];
        Ok(Hello(version, timestamp, did, s[..32], s[32..64], profile[..nameLen],
                 profile[nameLen..nameLen + 32], profile[nameLen + 32..nameLen + 96]))
  }

  function DecodeHello(s: seq<byte>): (r: Result<Hello, Error>)
  {
    if |s| < MIN_HELLO then Err(InvalidFormat)
    else if s[0] != HELLO_VERSION then Err(InvalidVersion)
    else
      var didLen := ReadLe16(s[9..11]);
      if didLen > MAX_DID || 11 + didLen > |s| then Err(DidTooLong)
      else DecodeKeys(s[0], ReadLe64(s[1..9]), s[11..11 + didLen], s[11 + didLen..])
  }

  /** From the trust level on. */
  function DecodeRecord(hello: Hello, s: seq<byte>): (r: Option<Contact>)
  {
    if |s| < 2 then None
    else
      var len: nat := s[1];
      if 2 + len + 8 + 4 > |s| then None
      else
        var rest := s[2 + len..];
        Some(Contact(hello, TrustFromByte(s[0]), if len <= MAX_NAME then s[2..2 + len] else [],
                     ReadLe64(rest[..8]), ReadLe32(rest[8..12])))
  }

  function Deserialize(s: seq<byte>): (r: Option<Contact>)
  {
    if |s| < 2 then None
    else
      var len := ReadLe16(s[..2]);
      if 2 + len > |s| then None
      else
        match DecodeHello(s[2..2 + len])
        case Err(_) => None
        case Ok(hello) => DecodeRecord(hello, s[2 + len..])
  }

  // ---------------------------------------------------------------- the hello round trip

  /** The fields of a hello in wire order, before `tail`. */
  function IdentityBytes(h: Hello): (s: seq<byte>)
    ensures |s| == 11 + |h.did|
  {
    [h.version] + Le64(h.timestamp) + Le16(|h.did|) + h.did
  }

  function KeyBytes(h: Hello): (s: seq<byte>)
    ensures |s| == 64
  {
    h.ed25519Public + h.x25519Public
  }

  /** The signed part is cut short exactly when DID and name together exceed 148 bytes: first the avatar hash,
      then, for a longer pair, the name is missing. */
  lemma SignedPart(h: Hello)
    ensures EncodeForSigning(h) == IdentityBytes(h) + KeyBytes(h) + [|h.name|] +
      (if |h.did| + |h.name| <= 148 then h.name + h.avatarHash
       else if |h.did| + |h.name| <= 180 then h.name
       else h.avatarHash)
  {
    hide Le64, Le16;
    var head := IdentityBytes(h) + KeyBytes(h);
    assert AppendKeys(AppendIdentity([], h), h) == head;
    assert head + [|h.name|] + h.name + h.avatarHash == head + [|h.name|] + (h.name + h.avatarHash);
  }

  lemma EncodedHello(h: Hello)
    ensures EncodeHello(h) == EncodeForSigning(h) + h.signature
  {
    hide EncodeForSigning;
    assert [] + EncodeForSigning(h) == EncodeForSigning(h);
  }

  /** Decoding stands or falls with the part after the DID. */
  lemma DecodeIdentity(h: Hello, rest: seq<byte>)
    requires h.version == HELLO_VERSION && |IdentityBytes(h) + rest| >= MIN_HELLO
    ensures DecodeHello(IdentityBytes(h) + rest) == DecodeKeys(h.version, h.timestamp, h.did, rest)
  {
    hide Le64, Le16, ReadLe64, ReadLe16, DecodeKeys;
    var s := IdentityBytes(h) + rest;
    Le64RoundTrip(h.timestamp);
    Le16RoundTrip(|h.did|);
    assert s[1..9] == Le64(h.timestamp);
    assert s[9..11] == Le16(|h.did|);
    assert s[11..11 + |h.did|] == h.did;
    assert s[11 + |h.did|..] == rest;
  }

  lemma DecodeWholeProfile(h: Hello)
    ensures DecodeKeys(h.version, h.timestamp, h.did,
                       KeyBytes(h) + [|h.name|] + (h.name + h.avatarHash) + h.signature) == Ok(h)
  {
    var profile := h.name + h.avatarHash + h.signature;
    var s := KeyBytes(h) + [|h.name|] + (h.name + h.avatarHash) + h.signature;
    assert s[..32] == h.ed25519Public && s[32..64] == h.x25519Public && s[64] == |h.name| && s[65..] == profile;
    assert profile[..|h.name|] == h.name;
    assert profile[|h.name|..|h.name| + 32] == h.avatarHash;
    assert profile[|h.name| + 32..|h.name| + 96] == h.signature;
  }

  lemma DecodeShortProfile(h: Hello, profile: seq<byte>)
    requires |profile| < |h.name| + 96
    ensures DecodeKeys(h.version, h.timestamp, h.did, KeyBytes(h) + [|h.name|] + profile).Err?
  {
    var s := KeyBytes(h) + [|h.name|] + profile;
    assert s[64] == |h.name|;
  }

  /** A hello is restored from its encoding exactly when its version is 3 and DID and name fit in 148 bytes. */
  lemma HelloRoundTrip(h: Hello)
    ensures DecodeHello(EncodeHello(h)) == Ok(h) <==> h.version == HELLO_VERSION && |h.did| + |h.name| <= 148
    ensures DecodeHello(EncodeHello(h)).Ok? ==> DecodeHello(EncodeHello(h)) == Ok(h)
    ensures |EncodeHello(h)| <= 320
  {
    hide EncodeHello, EncodeForSigning, DecodeKeys, IdentityBytes, KeyBytes;
    EncodedHello(h);
    SignedPart(h);
    var e := EncodeHello(h);
    var profile :=
      if |h.did| + |h.name| <= 148 then h.name + h.avatarHash
      else if |h.did| + |h.name| <= 180 then h.name
      else h.avatarHash;
    assert e == IdentityBytes(h) + (KeyBytes(h) + [|h.name|] + profile + h.signature);
    if h.version != HELLO_VERSION {
      assert e[0] == h.version by { IdentityStartsWithVersion(h, e); }
    } else {
      DecodeIdentity(h, KeyBytes(h) + [|h.name|] + profile + h.signature);
      if |h.did| + |h.name| <= 148 {
        DecodeWholeProfile(h);
      } else {
        assert KeyBytes(h) + [|h.name|] + profile + h.signature == KeyBytes(h) + [|h.name|] + (profile + h.signature);
        DecodeShortProfile(h, profile + h.signature);
      }
    }
  }

  lemma IdentityStartsWithVersion(h: Hello, e: seq<byte>)
    requires |e| >= |IdentityBytes(h)| && e[..|IdentityBytes(h)|] == IdentityBytes(h)
    ensures e[0] == h.version
  {
    assert IdentityBytes(h)[0] == h.version;
    assert e[0] == e[..|IdentityBytes(h)|][0];
  }

  /** The hello on the wire, when nothing is dropped: version, timestamp, DID with its two-byte length, Ed25519 key,
      X25519 key, name with its one-byte length, avatar hash, signature; numbers low byte first. */
  lemma HelloBytes(h: Hello)
    requires |h.did| + |h.name| <= 148
    ensures EncodeHello(h) == [h.version] + Le64(h.timestamp) + Le16(|h.did|) + h.did + h.ed25519Public + h.x25519Public
                              + [|h.name|] + h.name + h.avatarHash + h.signature
  {
    hide EncodeForSigning, Le64, Le16;
    EncodedHello(h);
    SignedPart(h);
  }

  /** Which byte strings are hellos, and what is wrong with the others, first things first. */
  lemma HelloAccepted(s: seq<byte>)
    ensures var out := DecodeHello(s);
      if |s| < 172 then out == Err(InvalidFormat)
      else if s[0] != 3 then out == Err(InvalidVersion)
      else
        var didLen := s[9] as int + 0x100 * s[10] as int;
        if didLen > 128 || 11 + didLen > |s| then out == Err(DidTooLong)
        else if 11 + didLen + 64 >= |s| then out == Err(InvalidFormat)
        else
          var nameLen := s[11 + didLen + 64] as int;
          if nameLen > 64 || 76 + didLen + nameLen > |s| then out == Err(NameTooLong)
          else if 172 + didLen + nameLen > |s| then out == Err(InvalidFormat)
          else out.Ok?
  {
    if |s| >= 172 {
      Le16Read(s);
    }
  }

  lemma Le16Read(s: seq<byte>)
    requires |s| >= 11
    ensures ReadLe16(s[9..11]) == s[9] as int + 0x100 * s[10] as int
  {
    var t := s[9..11];
    assert t[0] == s[9] && t[1..][0] == s[10] && t[1..][1..] == [];
    assert FromLe(t[1..]) == s[10] as int;
  }

  /** An accepted hello's fields are what the bytes spell, whatever their lengths. */
  lemma HelloFields(s: seq<byte>)
    requires DecodeHello(s).Ok?
    ensures var h := DecodeHello(s).value;
      && |s| >= 172 + |h.did| + |h.name|
      && s[..172 + |h.did| + |h.name|] ==
         [h.version] + Le64(h.timestamp) + Le16(|h.did|) + h.did + h.ed25519Public + h.x25519Public
         + [|h.name|] + h.name + h.avatarHash + h.signature
  {
    hide Le64, Le16, ReadLe64, ReadLe16;
    var h := DecodeHello(s).value;
    Le64Inverse(s[1..9]);
    Le16Inverse(s[9..11]);
    HelloSlices(s, |h.did|, |h.name|);
  }

  lemma Le64Inverse(s: seq<byte>)
    requires |s| == 8
    ensures Le64(ReadLe64(s)) == s
  {
    LeInverse(s);
  }

  lemma Le16Inverse(s: seq<byte>)
    requires |s| == 2
    ensures Le16(ReadLe16(s)) == s
  {
    LeInverse(s);
  }

  lemma HelloSlices(s: seq<byte>, d: nat, n: nat)
    requires |s| >= 172 + d + n
    ensures var t := s[11 + d..];
      [s[0]] + s[1..9] + s[9..11] + s[11..11 + d] + t[..32] + t[32..64] + [t[64]] + t[65..][..n]
      + t[65..][n..n + 32] + t[65..][n + 32..n + 96] == s[..172 + d + n]
  {
    SliceFrom(s, 11 + d, 0, 32);
    SliceFrom(s, 11 + d, 32, 64);
    var u := s[11 + d..][65..];
    DropDrop(s, 11 + d, 65);
    SliceFrom(s, 76 + d, 0, n);
    SliceFrom(s, 76 + d, n, n + 32);
    SliceFrom(s, 76 + d, n + 32, n + 96);
  }

  // ---------------------------------------------------------------- the contact round trip

  function RecordBytes(c: Contact): (s: seq<byte>)
    ensures |s| == 14 + |c.petname|
  {
    [TrustByte(c.trust), |c.petname|] + c.petname + (Le64(c.lastSeen) + Le32(c.messageCount))
  }

  lemma SerializedParts(c: Contact)
    ensures Serialize(c) == Le16(|EncodeHello(c.hello)| % 0x1_0000) + EncodeHello(c.hello) + RecordBytes(c)
  {
    hide EncodeHello, Le64, Le32, Le16;
    HelloRoundTrip(c.hello);
    var hello := EncodeHello(c.hello);
    var head := Le16(|hello| % 0x1_0000) + hello;
    assert [] + Le16(|hello| % 0x1_0000) == Le16(|hello| % 0x1_0000);
    assert Serialize(c) == head + [TrustByte(c.trust)] + [|c.petname|] + c.petname + Le64(c.lastSeen) + Le32(c.messageCount);
  }

  lemma DecodeRecordBytes(c: Contact)
    ensures DecodeRecord(c.hello, RecordBytes(c)) == Some(c)
  {
    hide Le64, Le32, ReadLe64, ReadLe32;
    var s := RecordBytes(c);
    var rest := Le64(c.lastSeen) + Le32(c.messageCount);
    assert s[2..2 + |c.petname|] == c.petname && s[2 + |c.petname|..] == rest;
    assert rest[..8] == Le64(c.lastSeen) && rest[8..12] == Le32(c.messageCount);
    Le64RoundTrip(c.lastSeen);
    Le32RoundTrip(c.messageCount);
  }

  /** Contact codec: a stored contact comes back unchanged exactly when its hello has version 3 and DID and name
      fit in 148 bytes; otherwise loading it fails. */
  lemma ContactRoundTrip(c: Contact)
    ensures Deserialize(Serialize(c)) ==
      if c.hello.version == HELLO_VERSION && |c.hello.did| + |c.hello.name| <= 148 then Some(c) else None
  {
    hide EncodeHello, DecodeHello, RecordBytes, DecodeRecord, Le16, ReadLe16, Serialize;
    HelloRoundTrip(c.hello);
    SerializedParts(c);
    DecodeRecordBytes(c);
    var hello := EncodeHello(c.hello);
    var s := Serialize(c);
    Le16RoundTrip(|hello|);
    assert s[..2] == Le16(|hello|) && s[2..2 + |hello|] == hello && s[2 + |hello|..] == RecordBytes(c);
  }

  /** The record: hello with its two-byte length, trust level 0 to 3, petname with its one-byte length, last-seen time,
      message count. */
  lemma ContactBytes(c: Contact)
    ensures var level := if c.trust == Seen then 1 else if c.trust == Verified then 2 else if c.trust == Trusted then 3 else 0;
      Serialize(c) == Le16(|EncodeHello(c.hello)|) + EncodeHello(c.hello) + [level, |c.petname|] + c.petname
                      + Le64(c.lastSeen) + Le32(c.messageCount)
  {
    hide EncodeHello, Le16, Le32, Le64;
    HelloRoundTrip(c.hello);
    SerializedParts(c);
  }

  /** Which byte strings are records, and what they say: the hello, a trust level (unknown when above 3), a petname
      (empty when longer than 64 bytes), last-seen time and message count. */
  lemma RecordAccepted(s: seq<byte>)
    requires |s| >= 2
    ensures var out, len := Deserialize(s), s[0] as int + 0x100 * s[1] as int;
      if 2 + len > |s| || DecodeHello(s[2..2 + len]).Err? then out.None?
      else
        var t := s[2 + len..];
        if |t| < 2 || |t| < 14 + t[1] as int then out.None?
        else
          var n := t[1] as int;
          && out.Some? && out.value.hello == DecodeHello(s[2..2 + len]).value
          && (out.value.trust == Seen <==> t[0] == 1) && (out.value.trust == Verified <==> t[0] == 2)
          && (out.value.trust == Trusted <==> t[0] == 3)
          && out.value.petname == (if n <= 64 then t[2..2 + n] else [])
          && Le64(out.value.lastSeen) == t[2 + n..10 + n] && Le32(out.value.messageCount) == t[10 + n..14 + n]
  {
    hide DecodeHello, Le64, Le32, ReadLe64, ReadLe32;
    LengthRead(s);
    var len := s[0] as int + 0x100 * s[1] as int;
    if 2 + len <= |s| && DecodeHello(s[2..2 + len]).Ok? {
      var t := s[2 + len..];
      if |t| >= 2 && |t| >= 14 + t[1] as int {
        var n: nat := t[1];
        SliceFrom(t, 2 + n, 0, 8);
        SliceFrom(t, 2 + n, 8, 12);
        Le64Inverse(t[2 + n..10 + n]);
        Le32Inverse(t[10 + n..14 + n]);
      }
    }
  }

  lemma Le32Inverse(s: seq<byte>)
    requires |s| == 4
    ensures Le32(ReadLe32(s)) == s
  {
    LeInverse(s);
  }

  lemma LengthRead(s: seq<byte>)
    requires |s| >= 2
    ensures ReadLe16(s[..2]) == s[0] as int + 0x100 * s[1] as int
  {
    var t := s[..2];
    assert t[0] == s[0] && t[1..][0] == s[1] && t[1..][1..] == [];
    assert FromLe(t[1..]) == s[1] as int;
  }

  // ---------------------------------------------------------------- the implementation

  method WriteSigned(h: Hello, out: Vec)
    requires out.Valid() && out.data.Length == SIGNED_CAPACITY
    modifies out, out.data
    ensures out.Valid() && out.View() == EncodeForSigning(h)
  {
    hide Extend, Le64, Le16;
    out.len := 0;
    assert out.View() == [];
    var _ := out.Push(h.version);
    var _ := out.ExtendFromSlice(Le64(h.timestamp));
    var _ := out.ExtendFromSlice(Le16(|h.did|));
    var _ := out.ExtendFromSlice(h.did);
    var _ := out.ExtendFromSlice(h.ed25519Public);
    var _ := out.ExtendFromSlice(h.x25519Public);
    var _ := out.Push(|h.name|);
    var _ := out.ExtendFromSlice(h.name);
    var _ := out.ExtendFromSlice(h.avatarHash);
  }

  method WriteHello(h: Hello, out: Vec)
    requires out.Valid() && out.data.Length == ENCODED_CAPACITY
    modifies out, out.data
    ensures out.Valid() && out.View() == EncodeHello(h)
  {
    hide Extend, EncodeForSigning;
    var signed := new Vec(SIGNED_CAPACITY);
    WriteSigned(h, signed);
    out.len := 0;
    assert out.View() == [];
    var _ := out.ExtendFromSlice(signed.data[..signed.len]);
    var _ := out.ExtendFromSlice(h.signature);
  }

  method WriteContact(c: Contact, out: Vec)
    requires out.Valid() && out.data.Length == ENCODED_CAPACITY
    modifies out, out.data
    ensures out.Valid() && out.View() == Serialize(c)
  {
    hide Extend, EncodeHello, Le64, Le32, Le16;
    var hello := new Vec(ENCODED_CAPACITY);
    WriteHello(c.hello, hello);
    out.len := 0;
    assert out.View() == [];
    var _ := out.ExtendFromSlice(Le16(hello.len % 0x1_0000));
    var _ := out.ExtendFromSlice(hello.data[..hello.len]);
    var _ := out.Push(TrustByte(c.trust));
    var _ := out.Push(|c.petname|);
    var _ := out.ExtendFromSlice(c.petname);
    var _ := out.ExtendFromSlice(Le64(c.lastSeen));
    var _ := out.ExtendFromSlice(Le32(c.messageCount));
  }

  /** Decoding with a moving position and a check before every read. */
  method ReadHello(data: seq<byte>) returns (r: Result<Hello, Error>)
    ensures r == DecodeHello(data)
  {
    hide ReadLe64, ReadLe16, DecodeKeys;
    if |data| < 1 + 8 + 2 + 32 + 32 + 1 + 32 + 64 {
      return Err(InvalidFormat);
    }
    var version := data[0];
    if version != HELLO_VERSION {
      return Err(InvalidVersion);
    }
    var timestamp := ReadLe64(data[1..9]);
    var didLen := ReadLe16(data[9..11]);
    var pos: nat := 11;
    if didLen > MAX_DID || pos + didLen > |data| {
      return Err(DidTooLong);
    }
    var did := data[pos..pos + didLen];
    pos := pos + didLen;
    r := ReadKeys(data, pos, version, timestamp, did);
  }

  /** The rest of the decoder, from the identity keys on. */
  method ReadKeys(data: seq<byte>, start: nat, version: byte, timestamp: u64, did: Did) returns (r: Result<Hello, Error>)
    requires start <= |data|
    ensures r == DecodeKeys(version, timestamp, did, data[start..])
  {
    var pos := start;
    ghost var s := data[pos..];
    assert |s| == |data| - pos;
    if pos + 32 > |data| {
      return Err(InvalidFormat);
    }
    var ed25519Public := data[pos..pos + 32];
    SliceFrom(data, pos, 0, 32);
    assert ed25519Public == s[..32];
    pos := pos + 32;
    if pos + 32 > |data| {
      return Err(InvalidFormat);
    }
    var x25519Public := data[pos..pos + 32];
    SliceFrom(data, pos - 32, 32, 64);
    assert x25519Public == s[32..64];
    pos := pos + 32;
    if pos >= |data| {
      return Err(InvalidFormat);
    }
    var nameLen: nat := data[pos];
    pos := pos + 1;
    ghost var profile := s[65..];
    assert profile == data[pos..] && s[64] == nameLen;
    if nameLen > MAX_NAME || pos + nameLen > |data| {
      return Err(NameTooLong);
    }
    var name := data[pos..pos + nameLen];
    assert name == profile[..nameLen];
    pos := pos + nameLen;
    if pos + 32 > |data| {
      return Err(InvalidFormat);
    }
    var avatarHash := data[pos..pos + 32];
    SliceFrom(data, pos - nameLen, nameLen, nameLen + 32);
    assert avatarHash == profile[nameLen..nameLen + 32];
    pos := pos + 32;
    if pos + 64 > |data| {
      return Err(InvalidFormat);
    }
    var signature := data[pos..pos + 64];
    SliceFrom(data, pos - nameLen - 32, nameLen + 32, nameLen + 96);
    assert signature == profile[nameLen + 32..nameLen + 96];
    return Ok(Hello(version, timestamp, did, ed25519Public, x25519Public, name, avatarHash, signature));
  }
}
