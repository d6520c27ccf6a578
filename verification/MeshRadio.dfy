/** Sending and receiving Meshtastic frames (meshtastic_lite/meshtastic_radio.c). */
module MeshRadio {
  import opened Bytes
  import opened Primitives
  import opened Protobuf
  import opened MeshCrypto
  import opened MeshChannel
  import MeshPacket
  import MeshData
  import MeshUser
  import NodeKeys

  const DATA_CAPACITY: nat := 240
  const PORT_NODEINFO: u16 := 4
  const PKI_OVERHEAD: nat := 12
  const BROADCAST: u32 := 0xFFFF_FFFF

  /** What the 240-byte plaintext buffer can hold. */
  type Plaintext = s: seq<byte> | |s| <= 240 witness []

  /** What to send: everything the caller of buildTx chooses. */
  datatype Message = Message(
    to: u32, portnum: u64, payload: seq<byte>, wantAck: bool, okToMqtt: bool, hopLimit: byte)

  datatype RxResult = RxResult(packet: MeshPacket.Packet, data: MeshData.Data, channelIdx: int, isPki: bool)

  // ---------------------------------------------------------------- transmit

  function Encoded(m: Message): (s: seq<byte>)
  {
    MeshData.Encode(m.portnum, m.payload, false, m.okToMqtt)
  }

  /** The header and ciphertext of a message on a channel. */
  function Sealed(aes: Aes, c: Channel, from: u32, id: u32, m: Message): (p: MeshPacket.Packet)
  {
    MeshPacket.Packet(m.to, from, id, m.hopLimit % 8, m.hopLimit % 8, m.wantAck, false, c.hash, 0, 0,
                      Crypt(aes, c.key, Nonce(from, id), Encoded(m)))
  }

  /** The frame, or None when the message does not fit the 240-byte buffer. */
  function Frame(aes: Aes, c: Channel, from: u32, id: u32, m: Message): (s: Option<seq<byte>>)
  {
    if |Encoded(m)| > DATA_CAPACITY then None else Some(MeshPacket.Build(Sealed(aes, c, from, id, m)))
  }

  /** The frame on the air: header and masked message, byte by byte. */
  lemma FrameBytes(aes: Aes, c: Channel, from: u32, id: u32, m: Message)
    requires Frame(aes, c, from, id, m).Some?
    ensures var s, e := Frame(aes, c, from, id, m).value, MeshData.Encode(m.portnum, m.payload, false, m.okToMqtt);
      && |s| == 16 + |e| && |e| <= 240
      && s[0..4] == Le32(m.to) && s[4..8] == Le32(from) && s[8..12] == Le32(id)
      && s[12] == m.hopLimit % 8 + (if m.wantAck then 8 else 0) + m.hopLimit % 8 * 32
      && s[13..16] == [c.hash, 0, 0]
      && forall k :: 0 <= k < |e| ==>
           s[16 + k] == if c.key.length <= 0 then e[k]
                        else XorByte(e[k], aes(c.key.bytes, 8 * c.key.length,
                                               Le32(id) + [0, 0, 0, 0] + Le32(from) + BigEndian(k / 16))[k % 16])
  {
    hide MeshData.Encode, MeshPacket.Build, XorByte, Le32, BigEndian, Crypt;
    var s, e := Frame(aes, c, from, id, m).value, MeshData.Encode(m.portnum, m.payload, false, m.okToMqtt);
    MeshPacket.PacketBytes(Sealed(aes, c, from, id, m));
    forall k | 0 <= k < |e|
      ensures s[16 + k] == if c.key.length <= 0 then e[k]
                           else XorByte(e[k], aes(c.key.bytes, 8 * c.key.length,
                                                  Le32(id) + [0, 0, 0, 0] + Le32(from) + BigEndian(k / 16))[k % 16])
    {
      assert s[16 + k] == s[16..][k];
      CryptByte(aes, c.key, from, id, e, k);
    }
  }

  // ---------------------------------------------------------------- packet identifiers

  const BLOCK: nat := 1024

  /** A multiple of 1024: the random upper 22 bits. */
  type Base = x: int | 0 <= x < 0x1_0000_0000 && x % 1024 == 0

  datatype IdGen = IdGen(base: Base, counter: u32)

  function RandomBase(random: u32): (b: Base)
  {
    random - random % BLOCK
  }

  function IdOf(g: IdGen): (id: u32)
  {
    g.base + g.counter % BLOCK
  }

  /** A fresh random part every 1024 identifiers. */
  function Drawn(g: IdGen, random: u32): (r: IdGen)
  {
    var counter := (g.counter + 1) % 0x1_0000_0000;
    IdGen(if counter % BLOCK == 0 then RandomBase(random) else g.base, counter)
  }

  /** The identifiers of a run of draws. */
  function Ids(g: IdGen, randoms: seq<u32>): (ids: seq<u32>)
    ensures |ids| == |randoms|
    decreases |randoms|
  {
    if randoms == [] then [] else [IdOf(g)] + Ids(Drawn(g, randoms[0]), randoms[1..])
  }

  /** The random part in force for the i-th draw. */
  function BaseAt(g: IdGen, randoms: seq<u32>, i: nat): (b: Base)
    requires i < |randoms|
    decreases i
  {
    if i == 0 then g.base else BaseAt(Drawn(g, randoms[0]), randoms[1..], i - 1)
  }

  lemma CounterStep(c: u32, i: nat)
    ensures (c + 1) % 0x1_0000_0000 % BLOCK == (c + 1) % BLOCK
    ensures ((c + 1) % 0x1_0000_0000 + i) % BLOCK == (c + (i + 1)) % BLOCK
  {
  }

  lemma {:induction false} IdParts(g: IdGen, randoms: seq<u32>, i: nat)
    requires i < |randoms|
    ensures Ids(g, randoms)[i] == BaseAt(g, randoms, i) + (g.counter + i) % BLOCK
    decreases i
  {
    if i > 0 {
      IdParts(Drawn(g, randoms[0]), randoms[1..], i - 1);
      CounterStep(g.counter, i - 1);
    }
  }

  /** The draws up to the i-th, counted from the start of the first one's block, by blocks. */
  function BlockOf(g: IdGen, i: nat): (n: nat)
  {
    (g.counter % BLOCK + i) / BLOCK
  }

  lemma BlockStep(g: IdGen, random: u32, i: nat)
    ensures BlockOf(Drawn(g, random), i) == BlockOf(g, i + 1) - BlockOf(g, 1)
    ensures Drawn(g, random).base != g.base ==> BlockOf(g, 1) == 1
  {
    CounterStep(g.counter, 0);
    NextOffset(g.counter);
    if g.counter % BLOCK == BLOCK - 1 {
      assert (BLOCK + i) / BLOCK == 1 + i / BLOCK;
    }
  }

  lemma NextOffset(c: nat)
    ensures (c + 1) % BLOCK == if c % BLOCK == BLOCK - 1 then 0 else c % BLOCK + 1
  {
  }

  lemma BlockStart(g: IdGen, j: nat)
    requires j > 0
    ensures BlockOf(g, 0) == 0 && 0 <= BlockOf(g, 1) <= BlockOf(g, j)
  {
  }

  lemma {:induction false} BaseStays(g: IdGen, randoms: seq<u32>, i: nat, j: nat)
    requires i <= j < |randoms| && BlockOf(g, i) == BlockOf(g, j)
    ensures BaseAt(g, randoms, i) == BaseAt(g, randoms, j)
    decreases j
  {
    if i < j {
      hide Drawn, BlockOf;
      var g1 := Drawn(g, randoms[0]);
      BlockStart(g, j);
      BlockStep(g, randoms[0], j - 1);
      if i > 0 {
        BlockStep(g, randoms[0], i - 1);
        BaseStays(g1, randoms[1..], i - 1, j - 1);
      } else {
        BlockStep(g, randoms[0], 0);
        BaseStays(g1, randoms[1..], 0, j - 1);
      }
    }
  }

  /** The random part is renewed exactly at multiples of 1024 of the counter, from the random word of the draw before. */
  lemma {:induction false} BaseRenewed(g: IdGen, randoms: seq<u32>, i: nat)
    requires 0 < i < |randoms|
    ensures BaseAt(g, randoms, 0) == g.base
    ensures BaseAt(g, randoms, i) ==
      if (g.counter + i) % 1024 == 0 then randoms[i - 1] / 1024 * 1024 else BaseAt(g, randoms, i - 1)
    decreases i
  {
    var g1 := Drawn(g, randoms[0]);
    CounterStep(g.counter, i - 1);
    CounterStep(g.counter, 0);
    if i > 1 {
      BaseRenewed(g1, randoms[1..], i - 1);
    } else {
      assert BaseAt(g1, randoms[1..], 0) == g1.base;
    }
  }

  /** In any run of draws, two identifiers are equal exactly when their random parts are and the draws lie a multiple
      of 1024 apart. */
  lemma IdsEqual(g: IdGen, randoms: seq<u32>, i: nat, j: nat)
    requires i < |randoms| && j < |randoms|
    ensures Ids(g, randoms)[i] == Ids(g, randoms)[j] <==>
            BaseAt(g, randoms, i) == BaseAt(g, randoms, j) && i % BLOCK == j % BLOCK
  {
    hide Ids, BaseAt;
    IdParts(g, randoms, i);
    IdParts(g, randoms, j);
    var (a, b) := (BaseAt(g, randoms, i), BaseAt(g, randoms, j));
    BlocksApart(a, b, (g.counter + i) % BLOCK, (g.counter + j) % BLOCK);
    OffsetCancels(g.counter, i, j);
  }

  lemma BlocksApart(a: Base, b: Base, m: nat, n: nat)
    requires m < BLOCK && n < BLOCK
    ensures a + m == b + n <==> a == b && m == n
  {
    assert (a + m) % BLOCK == m && (b + n) % BLOCK == n;
  }

  lemma OffsetCancels(c: nat, i: nat, j: nat)
    ensures (c + i) % BLOCK == (c + j) % BLOCK <==> i % BLOCK == j % BLOCK
  {
  }

  /** Between two renewals of the random part the identifiers are pairwise different. */
  lemma IdsOfBlock(g: IdGen, randoms: seq<u32>, i: nat, j: nat)
    requires i < j < |randoms| && BlockOf(g, i) == BlockOf(g, j)
    ensures BaseAt(g, randoms, i) == BaseAt(g, randoms, j)
    ensures Ids(g, randoms)[i] != Ids(g, randoms)[j]
  {
    hide Ids, BaseAt;
    IdsEqual(g, randoms, i, j);
    BaseStays(g, randoms, i, j);
    ApartInBlock(g.counter % BLOCK, i, j);
  }

  lemma ApartInBlock(o: nat, i: nat, j: nat)
    requires i < j && (o + i) / BLOCK == (o + j) / BLOCK
    ensures i % BLOCK != j % BLOCK
  {
    var q := (o + i) / BLOCK;
    assert j - i < BLOCK;
    assert i == i / BLOCK * BLOCK + i % BLOCK && j == j / BLOCK * BLOCK + j % BLOCK;
  }

  // ---------------------------------------------------------------- receive

  /** A packet that may be encrypted for this node's own key pair. */
  predicate PkiCandidate(p: MeshPacket.Packet, node: u32)
  {
    p.channelHash == 0 && p.to == node && p.to != BROADCAST && |p.payload| > PKI_OVERHEAD
  }

  /** `pki` stands for the public-key decryption attempt: the plaintext, or empty on failure. */
  function Receive(aes: Aes, channels: seq<Channel>, node: u32, pkiReady: bool, pki: MeshPacket.Packet -> Plaintext,
                   raw: seq<byte>): (r: Option<RxResult>)
  {
    match MeshPacket.Parse(raw)
    case None => None
    case Some(p) =>
      var direct := if pkiReady && PkiCandidate(p, node) && pki(p) != [] then MeshData.Decode(pki(p)) else None;
      if direct.Some? then Some(RxResult(p, direct.value, -1, true))
      else
        var i := FirstAccepting(aes, channels, p.channelHash, p.from, p.id, p.payload);
        if i == |channels| then None
        else Some(RxResult(p, MeshData.Decode(Plain(aes, channels[i], p.from, p.id, p.payload)).value, i, false))
  }

  /** Key learning from node announcements. */
  function Learn(keys: seq<NodeKeys.Entry>, r: RxResult): (k: seq<NodeKeys.Entry>)
    requires |keys| <= NodeKeys.MAX_NODE_KEYS
    ensures |k| <= NodeKeys.MAX_NODE_KEYS
  {
    if r.data.portnum != PORT_NODEINFO then keys
    else
      match MeshUser.Decode(r.data.payload)
      case None => keys
      case Some(u) => if |u.publicKey| == 32 then NodeKeys.Set(keys, r.packet.from, u.publicKey) else keys
  }

  /** Direct messages come first: if this node has a key pair and a packet with channel hash 0 is addressed to it
      alone, has more than 12 payload bytes and decrypts to a message, that message is the result, whatever the
      channels hold. Every other frame is received as if there were no key pair. */
  lemma ReceiveDirect(aes: Aes, channels: seq<Channel>, node: u32, pkiReady: bool, pki: MeshPacket.Packet -> Plaintext,
                      raw: seq<byte>)
    ensures var p := MeshPacket.Parse(raw);
      var out := Receive(aes, channels, node, pkiReady, pki, raw);
      if && pkiReady && p.Some? && p.value.channelHash == 0 && p.value.to == node && node != 0xFFFF_FFFF
         && |p.value.payload| > 12 && MeshData.Decode(pki(p.value)).Some?
      then out == Some(RxResult(p.value, MeshData.Decode(pki(p.value)).value, -1, true))
      else out == Receive(aes, channels, node, false, pki, raw)
  {
    hide MeshPacket.Parse, FirstAccepting, Plain;
    EmptyUndecodable();
  }

  lemma EmptyUndecodable()
    ensures MeshData.Decode([]).None?
  {
  }

  /** The channel is enabled, has the packet's hash, and its key makes a message of the payload. */
  predicate Answers(aes: Aes, c: Channel, p: MeshPacket.Packet)
  {
    c.enabled && c.hash == p.channelHash && MeshData.Decode(Crypt(aes, c.key, Nonce(p.from, p.id), p.payload)).Some?
  }

  /** Without a key pair: the result is the first such channel's, and there is none exactly when no channel answers. */
  lemma ReceiveChannel(aes: Aes, channels: seq<Channel>, node: u32, pki: MeshPacket.Packet -> Plaintext, raw: seq<byte>)
    requires MeshPacket.Parse(raw).Some?
    ensures var p := MeshPacket.Parse(raw).value;
      var out := Receive(aes, channels, node, false, pki, raw);
      && (out.None? <==> forall c :: c in channels ==> !Answers(aes, c, p))
      && (out.Some? ==>
            var i := out.value.channelIdx;
            && 0 <= i < |channels| && Answers(aes, channels[i], p)
            && (forall j :: 0 <= j < i ==> !Answers(aes, channels[j], p))
            && out.value.packet == p && !out.value.isPki
            && MeshData.Decode(Crypt(aes, channels[i].key, Nonce(p.from, p.id), p.payload)) == Some(out.value.data))
  {
    hide MeshPacket.Parse, MeshData.Decode, Crypt, Answers;
    var p := MeshPacket.Parse(raw).value;
    var f := FirstAccepting(aes, channels, p.channelHash, p.from, p.id, p.payload);
    forall c: Channel
      ensures Accepts(aes, c, p.channelHash, p.from, p.id, p.payload) <==> Answers(aes, c, p)
    {
      AcceptsAnswers(aes, c, p);
    }
    if f < |channels| {
      assert channels[f] in channels;
    }
  }

  lemma AcceptsAnswers(aes: Aes, c: Channel, p: MeshPacket.Packet)
    ensures Accepts(aes, c, p.channelHash, p.from, p.id, p.payload) <==> Answers(aes, c, p)
  {
  }

  /** The key store changes only through an announcement on port 4 that carries a 32-byte key, and then by that key
      for the sender. */
  lemma LearnExactly(keys: seq<NodeKeys.Entry>, r: RxResult)
    requires |keys| <= NodeKeys.MAX_NODE_KEYS
    ensures var u := MeshUser.Decode(r.data.payload);
      Learn(keys, r) == if r.data.portnum == 4 && u.Some? && |u.value.publicKey| == 32
                        then NodeKeys.Set(keys, r.packet.from, u.value.publicKey) else keys
  {
  }

  // ---------------------------------------------------------------- end to end

  lemma MaskPrefix(stream: nat -> Block, data: seq<byte>, n: nat)
    requires n <= |data|
    ensures Mask(stream, data)[..n] == Mask(stream, data[..n])
  {
    hide XorByte;
  }

  /** Decrypting a cut ciphertext gives the cut plaintext. */
  lemma CryptCut(aes: Aes, key: MeshKey, nonce: Block, data: seq<byte>, n: nat)
    requires n <= |data|
    ensures Crypt(aes, key, nonce, Crypt(aes, key, nonce, data)[..n]) == data[..n]
  {
    CryptTwice(aes, key, nonce, data[..n]);
    if key.length > 0 {
      MaskPrefix(MeshCrypto.Stream(aes, key, nonce), data, n);
    }
  }

  /** Losing its last byte makes a full 240-byte encoding undecodable. */
  lemma CutRefused(portnum: u16, payload: seq<byte>, okToMqtt: bool)
    requires var e := MeshData.Encode(portnum, payload, false, okToMqtt);
      |e| == DATA_CAPACITY
    ensures MeshData.Decode(MeshData.Encode(portnum, payload, false, okToMqtt)[..DATA_CAPACITY - 1]).None?
  {
    hide MeshData.Turn1, MeshData.DecodeFrom, MeshData.FlagField, EncodeVarint;
    var f1 := EncodeVarintField(1, portnum);
    var f2 := MeshData.PayloadField(payload);
    var f4 := MeshData.FlagField(9, okToMqtt);
    var d1 := MeshData.EMPTY.(portnum := portnum);
    FieldLength(portnum);
    FlagLengths(okToMqtt);
    PayloadBound(payload);
    assert payload != [];
    var e := MeshData.Encode(portnum, payload, false, okToMqtt);
    assert e == f1 + (f2 + f4);
    if okToMqtt {
      var rest := f2 + [72];
      assert e[..DATA_CAPACITY - 1] == f1 + rest;
      MeshData.VarintFieldTurn(1, portnum, MeshData.EMPTY, rest);
      MeshData.TurnThen(f1, rest, MeshData.EMPTY, d1);
      MeshData.PayloadDecoded(payload, d1, [72]);
      CutFlag(d1.(payload := payload));
    } else {
      var rest := f2[..|f2| - 1];
      assert e[..DATA_CAPACITY - 1] == f1 + rest;
      MeshData.VarintFieldTurn(1, portnum, MeshData.EMPTY, rest);
      MeshData.TurnThen(f1, rest, MeshData.EMPTY, d1);
      CutPayload(payload, d1);
    }
  }

  lemma FieldLength(v: u16)
    ensures |EncodeVarintField(1, v)| <= 4
  {
    assert EncodeTag(1, 0) == [8];
    var v1 := v / 128;
    var v2 := v1 / 128;
    assert v2 < 128 && |EncodeVarint(v2)| == 1;
    assert |EncodeVarint(v1)| <= 2;
  }

  lemma FlagLengths(on: bool)
    ensures MeshData.FlagField(3, false) == []
    ensures MeshData.FlagField(9, on) == if on then [72, 1] else []
  {
    assert EncodeTag(9, 0) == [72] && EncodeVarint(1) == [1];
  }

  lemma PayloadBound(payload: seq<byte>)
    ensures payload == [] ==> MeshData.PayloadField(payload) == []
    ensures payload != [] ==> |MeshData.PayloadField(payload)| > |payload|
  {
  }

  lemma CutFlag(acc: MeshData.Data)
    ensures MeshData.DecodeFrom([72], acc).None?
  {
    assert EncodeTag(9, 0) == [72] && [72] + [] == [72];
    TagRoundTrip(9, 0, []);
    assert [72][1..] == [];
    MeshData.TurnCases([72], acc);
    MeshData.DecodeStep([72], acc);
  }

  lemma CutPayload(payload: seq<byte>, acc: MeshData.Data)
    requires 0 < |payload| < VARINT_LIMIT
    ensures var f := EncodeBytesField(2, payload);
      MeshData.DecodeFrom(f[..|f| - 1], acc).None?
  {
    hide ReadTag, EncodeTag, ReadVarint, EncodeVarint, MeshData.DecodeFrom, MeshData.Turn1;
    var t, len, cut := EncodeTag(2, 2), EncodeVarint(|payload|), payload[..|payload| - 1];
    var f := EncodeBytesField(2, payload);
    var s := f[..|f| - 1];
    assert s == t + (len + cut);
    TagRoundTrip(2, 2, len + cut);
    VarintRoundTrip(|payload|, cut);
    assert s[|t|..] == len + cut;
    MeshData.TurnCases(s, acc);
    MeshData.DecodeStep(s, acc);
  }

  /** Channel i is the only enabled one with channel c's hash, and holds its key. */
  ghost predicate SharesOnly(channels: seq<Channel>, i: nat, c: Channel)
  {
    && i < |channels| && channels[i].key == c.key
    && forall j :: 0 <= j < |channels| ==> ((channels[j].enabled && channels[j].hash == c.hash) <==> j == i)
  }

  lemma OnlyOneAccepts(aes: Aes, channels: seq<Channel>, i: nat, c: Channel, from: u32, id: u32, payload: seq<byte>)
    requires SharesOnly(channels, i, c)
    ensures FirstAccepting(aes, channels, c.hash, from, id, payload) ==
      if MeshData.Decode(Plain(aes, channels[i], from, id, payload)).Some? then i else |channels|
  {
  }

  /** What the matching channel decrypts: the encoding, cut to 239 bytes. */
  lemma PlainReceived(aes: Aes, c: Channel, key: MeshKey, from: u32, id: u32, e: seq<byte>)
    requires key == c.key && |e| <= DATA_CAPACITY
    ensures Crypt(aes, key, Nonce(from, id),
                  Crypt(aes, c.key, Nonce(from, id), e)[..Min(|e|, MeshPacket.MAX_PAYLOAD)]) == e[..Min(|e|, MeshPacket.MAX_PAYLOAD)]
  {
    CryptCut(aes, key, Nonce(from, id), e, Min(|e|, MeshPacket.MAX_PAYLOAD));
  }

  lemma ReceivedData(m: Message)
    requires 1 <= m.portnum <= 0xFFFF && |Encoded(m)| <= DATA_CAPACITY
    ensures |m.payload| <= DATA_CAPACITY
    ensures var e := Encoded(m);
      MeshData.Decode(e[..Min(|e|, MeshPacket.MAX_PAYLOAD)]) ==
        if |e| <= MeshPacket.MAX_PAYLOAD
        then Some(MeshData.Data(m.portnum, m.payload, false, 0, 0, 0, if m.okToMqtt then 1 else 0)) else None
  {
    hide MeshData.Decode, MeshData.PayloadField, EncodeVarintField, MeshData.FlagField;
    var e := Encoded(m);
    PayloadBound(m.payload);
    if |e| <= MeshPacket.MAX_PAYLOAD {
      assert e[..|e|] == e;
      MeshData.DecodeEncoded(m.portnum, m.payload, false, m.okToMqtt);
    } else {
      CutRefused(m.portnum, m.payload, m.okToMqtt);
    }
  }

  /** A frame that a node may take for one encrypted to its own key pair. */
  predicate MayBePki(c: Channel, to: u32, node: u32, pkiReady: bool)
  {
    pkiReady && c.hash == 0 && to == node && to != BROADCAST
  }

  /** End to end: a frame that the receiver cannot take for one encrypted to its own key pair, received by any session
      in which exactly one enabled channel has the channel's hash and it has the same key, arrives with its header,
      port, payload and MQTT bit if its encoding has at most 239 bytes, and is dropped if it has 240. */
  lemma EndToEnd(aes: Aes, c: Channel, from: u32, id: u32, m: Message,
                 channels: seq<Channel>, i: nat, node: u32, pkiReady: bool, pki: MeshPacket.Packet -> Plaintext)
    requires 1 <= m.portnum <= 0xFFFF && !MayBePki(c, m.to, node, pkiReady) && SharesOnly(channels, i, c)
    requires Frame(aes, c, from, id, m).Some?
    ensures |m.payload| <= DATA_CAPACITY
    ensures var hops := m.hopLimit % 8;
      var body := Crypt(aes, c.key, Nonce(from, id), Encoded(m));
      Receive(aes, channels, node, pkiReady, pki, Frame(aes, c, from, id, m).value) ==
      if |Encoded(m)| <= 239 then
        Some(RxResult(MeshPacket.Packet(m.to, from, id, hops, hops, m.wantAck, false, c.hash, 0, 0, body),
                      MeshData.Data(m.portnum, m.payload, false, 0, 0, 0, if m.okToMqtt then 1 else 0), i, false))
      else None
  {
    hide MeshPacket.Parse, MeshPacket.Build, MeshData.Decode, Encoded, FirstAccepting;
    var p := Sealed(aes, c, from, id, m);
    var e := Encoded(m);
    var n := Min(|e|, MeshPacket.MAX_PAYLOAD);
    var received := p.(payload := p.payload[..n]);
    MeshPacket.ParseBuild(p);
    assert MeshPacket.Parse(Frame(aes, c, from, id, m).value) == Some(received);
    PlainReceived(aes, c, channels[i].key, from, id, e);
    OnlyOneAccepts(aes, channels, i, c, from, id, received.payload);
    ReceivedData(m);
    if n == |e| {
      assert p.payload[..n] == p.payload;
    }
  }

  // ---------------------------------------------------------------- learning keys end to end

  /** A node announcement: the sender's User message on the node-info port. */
  function Announcement(u: MeshUser.User, to: u32, wantAck: bool, okToMqtt: bool, hopLimit: byte): (m: Message)
  {
    Message(to, PORT_NODEINFO, MeshUser.Encode(u), wantAck, okToMqtt, hopLimit)
  }

  lemma SmallField(field: nat, v: seq<byte>)
    requires 1 <= field <= 15 && |v| < 128
    ensures |MeshUser.BytesField(field, v)| <= |v| + 2
  {
    assert |EncodeTag(field, 2)| == 1 && |EncodeVarint(|v|)| == 1;
  }

  lemma SmallModel(model: u16)
    ensures |MeshUser.ModelField(model)| <= 4
  {
    assert |EncodeTag(5, 0)| == 1;
    var v1 := model / 128;
    var v2 := v1 / 128;
    assert v2 < 128 && |EncodeVarint(v2)| == 1;
    assert |EncodeVarint(v1)| <= 2;
  }

  /** A User whose fields fit needs at most 104 bytes, and its announcement always fits a frame. */
  lemma AnnouncementFits(u: MeshUser.User, to: u32, wantAck: bool, okToMqtt: bool, hopLimit: byte)
    requires MeshUser.Fits(u)
    ensures |MeshUser.Encode(u)| <= 104 && |Encoded(Announcement(u, to, wantAck, okToMqtt, hopLimit))| <= 112
  {
    hide MeshUser.BytesField, MeshUser.ModelField, EncodeVarint, MeshData.FlagField, MeshData.PayloadField, EncodeVarintField;
    SmallField(1, u.id);
    SmallField(2, u.longName);
    SmallField(3, u.shortName);
    SmallModel(u.hwModel);
    SmallField(8, u.publicKey);
    FieldLength(PORT_NODEINFO);
    FlagLengths(okToMqtt);
    SmallPayload(MeshUser.Encode(u));
  }

  lemma SmallPayload(payload: seq<byte>)
    requires |payload| < 128
    ensures |MeshData.PayloadField(payload)| <= |payload| + 2
  {
    assert |EncodeTag(2, 2)| == 1 && |EncodeVarint(|payload|)| == 1;
  }

  /** Announcements teach keys: whoever shares the channel ends up with exactly the announced key for the sender. */
  lemma AnnouncementTeaches(aes: Aes, c: Channel, from: u32, id: u32, u: MeshUser.User,
                            to: u32, wantAck: bool, okToMqtt: bool, hopLimit: byte,
                            channels: seq<Channel>, i: nat, node: u32, pkiReady: bool, pki: MeshPacket.Packet -> Plaintext,
                            keys: seq<NodeKeys.Entry>)
    requires MeshUser.Fits(u) && |u.publicKey| == 32 && !MayBePki(c, to, node, pkiReady) && SharesOnly(channels, i, c)
    requires |keys| <= NodeKeys.MAX_NODE_KEYS
    ensures var frame := Frame(aes, c, from, id, Announcement(u, to, wantAck, okToMqtt, hopLimit));
      frame.Some? &&
      var result := Receive(aes, channels, node, pkiReady, pki, frame.value);
      && result.Some?
      && Learn(keys, result.value) == NodeKeys.Set(keys, from, u.publicKey)
      && NodeKeys.Get(Learn(keys, result.value), from) == Some(u.publicKey)
  {
    hide Receive, Encoded, MeshUser.Decode, MeshUser.Encode, MeshPacket.Build;
    var m := Announcement(u, to, wantAck, okToMqtt, hopLimit);
    AnnouncementFits(u, to, wantAck, okToMqtt, hopLimit);
    EndToEnd(aes, c, from, id, m, channels, i, node, pkiReady, pki);
    MeshUser.UserRoundTrip(u);
    SetThenGet(keys, from, u.publicKey);
  }

  lemma SetThenGet(keys: seq<NodeKeys.Entry>, node: u32, key: Key)
    requires |keys| <= NodeKeys.MAX_NODE_KEYS
    ensures NodeKeys.Get(NodeKeys.Set(keys, node, key), node) == Some(key)
  {
    var i := NodeKeys.Find(keys, node);
    var after := NodeKeys.Set(keys, node, key);
    if i < |keys| {
      NodeKeys.FindIs(after, node, i);
    } else {
      NodeKeys.FindIs(after, node, |after| - 1);
    }
  }

  // ---------------------------------------------------------------- the implementation

  class Session {
    const node: u32
    const table: Table
    const keys: NodeKeys.Store
    var pkiReady: bool
    var idCounter: u32
    var idBase: Base

    ghost predicate Valid()
      reads this, table, keys, keys.entries
    {
      table.Valid() && keys.Valid()
    }

    ghost function Generator(): (g: IdGen)
      reads this
    {
      IdGen(idBase, idCounter)
    }

    constructor (ourNode: u32, preset: seq<byte>, random: u32)
      ensures Valid() && fresh(table) && fresh(keys) && fresh(keys.entries)
      ensures node == ourNode && table.channels == [] && keys.View() == []
    {
      node := ourNode;
      table := new Table(preset);
      keys := new NodeKeys.Store();
      pkiReady, idCounter, idBase := false, 0, RandomBase(random);
    }

    /** Ten counter bits under 22 random ones. */
    method NextId(random: u32) returns (id: u32)
      requires Valid()
      modifies this`idCounter, this`idBase
      ensures Valid() && id == IdOf(old(Generator())) && Generator() == Drawn(old(Generator()), random)
    {
      id := idBase + idCounter % BLOCK;
      idCounter := (idCounter + 1) % 0x1_0000_0000;
      if idCounter % BLOCK == 0 {
        idBase := RandomBase(random);
      }
    }

    /** Build a channel frame into `out`: its length, or 0 when the channel does not exist or the message does not
        fit. An id is drawn only once the message has been encoded. */
    method BuildTx(aes: Aes, channelIdx: nat, m: Message, random: u32, out: array<byte>) returns (len: nat)
      requires Valid() && out.Length >= 256
      modifies this, out
      ensures Valid()
      ensures channelIdx >= |table.channels| ==> len == 0
      ensures channelIdx < |table.channels| ==>
        var frame := Frame(aes, table.channels[channelIdx], node, IdOf(old(Generator())), m);
        if frame.Some? then len == |frame.value| && out[..len] == frame.value else len == 0
      ensures Generator() == if len == 0 then old(Generator()) else Drawn(old(Generator()), random)
    {
      if channelIdx >= |table.channels| {
        return 0;
      }
      hide Encoded, Frame;
      ghost var c := table.channels[channelIdx];
      FrameFits(aes, c, node, IdOf(Generator()), m);
      var buf := new byte[DATA_CAPACITY](_ => 0);
      var size := MeshData.EncodeData(buf, DATA_CAPACITY, m.portnum, m.payload, false, m.okToMqtt);
      if size == 0 {
        return 0;
      }
      var id := NextId(random);
      len := SealInto(aes, table.channels[channelIdx], node, id, m, buf, size, out);
    }

    /** Receive one frame: public-key decryption first when it applies, then the channels; learn announced keys. */
    method ProcessRx(aes: Aes, pki: MeshPacket.Packet -> Plaintext, raw: seq<byte>) returns (r: Option<RxResult>)
      requires Valid() && |raw| < 0x1_0000
      modifies keys, keys.entries
      ensures Valid() && r == Receive(aes, table.channels, node, pkiReady, pki, raw)
      ensures keys.View() == if r.Some? then Learn(old(keys.View()), r.value) else old(keys.View())
    {
      hide MeshData.Decode, MeshUser.Decode, Plain;
      var parsed := MeshPacket.Parse(raw);
      if parsed.None? {
        return None;
      }
      var p := parsed.value;
      r := None;
      if pkiReady && PkiCandidate(p, node) {
        var plaintext := pki(p);
        if |plaintext| > 0 {
          var data := MeshData.DecodeData(plaintext);
          if data.Some? {
            r := Some(RxResult(p, data.value, -1, true));
          }
        }
      }
      if r.None? {
        PayloadShort(raw);
        var index, plaintext := table.TryDecrypt(aes, p.channelHash, p.from, p.id, p.payload);
        if index < 0 {
          return None;
        }
        PlainLength(aes, table.channels[index], p.from, p.id, p.payload);
        var data := MeshData.DecodeData(plaintext);
        r := Some(RxResult(p, data.value, index, false));
      }
      LearnKey(r.value);
    }

    method LearnKey(r: RxResult)
      requires Valid()
      modifies keys, keys.entries
      ensures Valid() && keys.View() == Learn(old(keys.View()), r)
    {
      hide MeshUser.Decode;
      if r.data.portnum == PORT_NODEINFO {
        var u := MeshUser.DecodeUser(r.data.payload);
        if u.Some? && |u.value.publicKey| == 32 {
          keys.SetKey(r.packet.from, u.value.publicKey);
        }
      }
    }
  }

  /** Encrypt an encoded message in its buffer and pack the frame. */
  method SealInto(aes: Aes, c: Channel, from: u32, id: u32, m: Message, buf: array<byte>, size: nat, out: array<byte>)
    returns (len: nat)
    requires size <= buf.Length == DATA_CAPACITY && buf[..size] == Encoded(m) && out.Length >= 256 && buf != out
    modifies buf, out
    ensures Frame(aes, c, from, id, m).Some?
    ensures len == |Frame(aes, c, from, id, m).value| && len > 0 && out[..len] == Frame(aes, c, from, id, m).value
  {
    hide Encoded, MeshPacket.Build, Crypt, Nonce;
    CryptInPlace(aes, c.key, Nonce(from, id), buf, size);
    var hop := m.hopLimit % 8;
    len := MeshPacket.BuildInto(out, MeshPacket.Packet(m.to, from, id, hop, hop, m.wantAck, false, c.hash, 0, 0, buf[..size]));
  }

  lemma FrameFits(aes: Aes, c: Channel, from: u32, id: u32, m: Message)
    ensures Frame(aes, c, from, id, m).Some? <==> |Encoded(m)| <= 240
    ensures Encoded(m) == MeshData.Encode(m.portnum, m.payload, false, m.okToMqtt) && |Encoded(m)| > 0
  {
  }

  lemma PayloadShort(raw: seq<byte>)
    requires MeshPacket.Parse(raw).Some?
    ensures |MeshPacket.Parse(raw).value.payload| <= MeshPacket.MAX_PAYLOAD
  {
  }

  lemma PlainLength(aes: Aes, c: Channel, from: u32, id: u32, payload: seq<byte>)
    ensures |Plain(aes, c, from, id, payload)| == |payload|
  {
  }
}
