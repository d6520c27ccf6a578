/** The channel table (meshtastic_lite/meshtastic_channel.c). */
module MeshChannel {
  import opened Bytes
  import opened Primitives
  import opened MeshCrypto
  import MeshData

  const MAX_CHANNELS: nat := 8
  const MAX_PSK: nat := 34
  const MAX_NAME: nat := 31
  const DEFAULT_PSK: seq<byte> :=
    [0xd4, 0xf1, 0xbb, 0x3a, 0x20, 0x29, 0x07, 0x59, 0xf0, 0xbc, 0xff, 0xab, 0xcf, 0x4e, 0x69, 0x01]

  datatype Channel = Channel(name: seq<byte>, enabled: bool, isPrimary: bool, key: MeshKey, hash: byte)

  // ---------------------------------------------------------------- keys and hashes

  function Pad32(s: seq<byte>): (k: Key)
    requires |s| <= 32
  {
    s + Zeros(32 - |s|)
  }

  /** Raw key bytes to an AES key: none, an index into the default key, or padding to 16 or 32 bytes. */
  function ExpandPsk(raw: seq<byte>): (k: MeshKey)
    ensures k.length == if raw == [] || raw == [0] then 0 else if |raw| <= 16 then 16 else 32
  {
    if raw == [] || raw == [0] then MeshKey(Zeros(32), 0)
    else if |raw| == 1 then
      var index: nat := raw[0];
      MeshKey(Pad32(DEFAULT_PSK[..15] + [(0x01 + index - 1) % 0x100]), 16)
    else if |raw| <= 16 then MeshKey(Pad32(raw), 16)
    else MeshKey(Pad32(raw[..Min(|raw|, 32)]), 32)
  }

  /** Which raw keys are used as they are, which stand for the default key, and what becomes of the others: one byte
      replaces the default key's last, shorter keys are filled up with zeros, longer ones cut. */
  lemma PskExpanded(raw: seq<byte>)
    ensures ExpandPsk(raw).bytes[..ExpandPsk(raw).length] == raw <==> |raw| == 0 || |raw| == 16 || |raw| == 32
    ensures ExpandPsk(raw).bytes[..16] == DEFAULT_PSK <==> raw == [1] || (|raw| >= 16 && raw[..16] == DEFAULT_PSK)
    ensures |raw| == 1 && raw != [0] ==>
      ExpandPsk(raw).bytes[..16]
      == [0xD4, 0xF1, 0xBB, 0x3A, 0x20, 0x29, 0x07, 0x59, 0xF0, 0xBC, 0xFF, 0xAB, 0xCF, 0x4E, 0x69, raw[0]]
    ensures |raw| >= 2 ==> forall i :: 0 <= i < 32 ==> ExpandPsk(raw).bytes[i] == if i < |raw| then raw[i] else 0
  {
    var k := ExpandPsk(raw);
    if |raw| == 1 && raw != [0] {
      assert k.bytes[..16] == DEFAULT_PSK[15 := raw[0]];
      assert k.bytes[..16][15] == raw[0] && DEFAULT_PSK[15] == 1;
      assert raw == [raw[0]];
      if raw == [1] {
        assert DEFAULT_PSK[15 := 1] == DEFAULT_PSK;
      }
    } else if |raw| >= 2 {
      assert forall i :: 0 <= i < 32 ==> k.bytes[i] == if i < |raw| then raw[i] else 0;
      if |raw| >= 16 {
        assert k.bytes[..16] == raw[..16];
      } else {
        assert k.bytes[..16][15] == 0 && DEFAULT_PSK[15] == 1;
      }
      if |raw| == 16 || |raw| == 32 {
        assert k.bytes[..k.length] == raw;
      }
    } else {
      assert k.bytes[..16][0] == 0 && DEFAULT_PSK[0] == 0xd4;
    }
  }

  function XorHash(s: seq<byte>): (h: byte)
  {
    if s == [] then 0 else XorByte(XorHash(s[..|s| - 1]), s[|s| - 1])
  }

  method ComputeXorHash(s: seq<byte>) returns (h: byte)
    ensures h == XorHash(s)
  {
    h := 0;
    for i := 0 to |s|
      invariant h == XorHash(s[..i])
    {
      assert s[..i + 1][..i] == s[..i];
      h := XorByte(h, s[i]);
    }
    assert s[..|s|] == s;
  }

  /** Name bytes and, if there is one, the key bytes folded together. */
  function ChannelHash(name: seq<byte>, key: MeshKey): (h: byte)
  {
    if 0 < key.length <= 32 then XorByte(XorHash(name), XorHash(key.bytes[..key.length])) else XorHash(name)
  }

  // ---------------------------------------------------------------- adding a channel

  /** The first enabled primary channel's key, or the given one. */
  function Inherited(channels: seq<Channel>, key: MeshKey): (k: MeshKey)
  {
    if channels == [] then key
    else if channels[0].isPrimary && channels[0].enabled then channels[0].key
    else Inherited(channels[1..], key)
  }

  /** A new channel: a secondary channel without a key takes the primary's, an empty name stands for the preset's. */
  function NewChannel(channels: seq<Channel>, preset: seq<byte>, name: seq<byte>, psk: seq<byte>, primary: bool): (c: Channel)
  {
    var own := ExpandPsk(if |psk| <= MAX_PSK then psk else []);
    var key := if !primary && own.length <= 0 then Inherited(channels, own) else own;
    var kept := name[..Min(|name|, MAX_NAME)];
    Channel(kept, true, primary, key, ChannelHash(if kept == [] then preset else kept, key))
  }

  /** The key of the first enabled primary channel, if there is one. */
  lemma {:induction false} InheritedIs(channels: seq<Channel>, own: MeshKey, i: nat)
    requires forall j :: 0 <= j < i && j < |channels| ==> !(channels[j].isPrimary && channels[j].enabled)
    requires i <= |channels| && (i < |channels| ==> channels[i].isPrimary && channels[i].enabled)
    ensures Inherited(channels, own) == if i < |channels| then channels[i].key else own
  {
    if i > 0 {
      InheritedIs(channels[1..], own, i - 1);
    }
  }

  /** What a new channel is: enabled, its name cut to 31 bytes, its key its own, save that a secondary channel without
      a key takes that of the first enabled primary one (number i; there is none when i is the number of channels);
      its hash that of its name, or of the preset's when it has none, and its key. A key of more than 34 bytes counts
      as none. */
  lemma ChannelAdded(channels: seq<Channel>, preset: seq<byte>, name: seq<byte>, psk: seq<byte>, primary: bool, i: nat)
    requires forall j :: 0 <= j < i && j < |channels| ==> !(channels[j].isPrimary && channels[j].enabled)
    requires i <= |channels| && (i < |channels| ==> channels[i].isPrimary && channels[i].enabled)
    ensures var c := NewChannel(channels, preset, name, psk, primary);
      var own := ExpandPsk(if |psk| <= 34 then psk else []);
      && c.enabled && c.isPrimary == primary && |c.name| == Min(|name|, 31) && c.name <= name
      && c.key == (if !primary && own.length == 0 && i < |channels| then channels[i].key else own)
      && c.hash == ChannelHash(if c.name == [] then preset else c.name, c.key)
  {
    var own := ExpandPsk(if |psk| <= 34 then psk else []);
    InheritedIs(channels, own, i);
  }

  /** Every byte counts once and their order does not matter. */
  lemma {:induction false} XorHashSplit(a: seq<byte>, b: seq<byte>)
    ensures XorHash(a + b) == XorByte(XorHash(a), XorHash(b))
    decreases |b|
  {
    hide XorByte;
    if b == [] {
      assert a + b == a;
      XorBytes(0, XorHash(a));
    } else {
      var front, last := b[..|b| - 1], b[|b| - 1];
      assert (a + b)[..|a + b| - 1] == a + front;
      XorHashSplit(a, front);
      XorByteAssoc(XorHash(a), XorHash(front), last);
    }
  }

  lemma XorHashOne(b: byte)
    ensures XorHash([]) == 0 && XorHash([b]) == b
  {
    assert [b][..0] == [];
    XorBytes(0, b);
  }

  lemma XorByteAssoc(a: byte, b: byte, c: byte)
    ensures XorByte(XorByte(a, b), c) == XorByte(a, XorByte(b, c))
  {
    XorAssoc(a, b, c);
  }

  /** A channel's hash is that of its name and key bytes together. */
  lemma HashIsFold(name: seq<byte>, key: MeshKey)
    requires 0 <= key.length <= 32
    ensures ChannelHash(name, key) == XorHash(name + key.bytes[..key.length])
  {
    hide XorByte;
    XorHashSplit(name, key.bytes[..key.length]);
    if key.length == 0 {
      XorBytes(0, XorHash(name));
    }
  }

  // ---------------------------------------------------------------- matching a received packet

  /** Whether channel c accepts the ciphertext, and what it decrypts to. */
  function Plain(aes: Aes, c: Channel, from: u32, id: u32, payload: seq<byte>): (s: seq<byte>)
  {
    Crypt(aes, c.key, Nonce(from, id), payload)
  }

  predicate Accepts(aes: Aes, c: Channel, hash: byte, from: u32, id: u32, payload: seq<byte>)
  {
    c.enabled && c.hash == hash && MeshData.Decode(Plain(aes, c, from, id, payload)).Some?
  }

  /** The first channel that accepts, or the number of channels. */
  function FirstAccepting(aes: Aes, channels: seq<Channel>, hash: byte, from: u32, id: u32, payload: seq<byte>): (i: nat)
    ensures i <= |channels|
    ensures i < |channels| ==> Accepts(aes, channels[i], hash, from, id, payload)
    ensures forall k :: 0 <= k < i ==> !Accepts(aes, channels[k], hash, from, id, payload)
  {
    if channels == [] || Accepts(aes, channels[0], hash, from, id, payload) then 0
    else 1 + FirstAccepting(aes, channels[1..], hash, from, id, payload)
  }

  class Table {
    var channels: seq<Channel>
    const preset: seq<byte>

    ghost predicate Valid()
      reads this
    {
      |channels| <= MAX_CHANNELS
    }

    constructor (presetName: seq<byte>)
      ensures Valid() && channels == [] && preset == presetName
    {
      channels := [];
      preset := presetName;
    }

    /** The index of the new channel, or -1 when the table is full. */
    method AddChannel(name: seq<byte>, psk: seq<byte>, primary: bool) returns (index: int)
      requires Valid()
      modifies this
      ensures Valid()
      ensures if |old(channels)| < 8
              then index == |old(channels)| && channels == old(channels) + [NewChannel(old(channels), preset, name, psk, primary)]
              else index == -1 && channels == old(channels)
    {
      if |channels| >= MAX_CHANNELS {
        return -1;
      }
      var own := ExpandPsk(if |psk| <= MAX_PSK then psk else []);
      var key := own;
      if !primary && own.length <= 0 {
        var i := 0;
        assert channels[0..] == channels;
        while i < |channels|
          invariant i <= |channels| && key == own
          invariant Inherited(channels, own) == Inherited(channels[i..], own)
        {
          if channels[i].isPrimary && channels[i].enabled {
            key := channels[i].key;
            break;
          }
          i := i + 1;
        }
      }
      var kept := name[..Min(|name|, MAX_NAME)];
      var hash := ComputeXorHash(if |kept| == 0 then preset else kept);
      if 0 < key.length <= 32 {
        var keyHash := ComputeXorHash(key.bytes[..key.length]);
        hash := XorByte(hash, keyHash);
      }
      index := |channels|;
      channels := channels + [Channel(kept, true, primary, key, hash)];
    }

    /** The first enabled channel with the hash, or -1. */
    method FindByHash(hash: byte) returns (index: int)
      ensures -1 <= index < |channels|
      ensures index >= 0 ==> channels[index].enabled && channels[index].hash == hash
      ensures forall k :: 0 <= k < (if index < 0 then |channels| else index) ==> !(channels[k].enabled && channels[k].hash == hash)
    {
      for i := 0 to |channels|
        invariant forall k :: 0 <= k < i ==> !(channels[k].enabled && channels[k].hash == hash)
      {
        if channels[i].enabled && channels[i].hash == hash {
          return i;
        }
      }
      return -1;
    }

    /** Try every enabled channel with the packet's hash on a fresh copy of the ciphertext; keep the first whose
        plaintext decodes. */
    method TryDecrypt(aes: Aes, hash: byte, from: u32, id: u32, payload: seq<byte>)
      returns (index: int, plaintext: seq<byte>)
      requires |payload| < 0xFFF0
      ensures var i := FirstAccepting(aes, channels, hash, from, id, payload);
        if i < |channels| then index == i && plaintext == Plain(aes, channels[i], from, id, payload) else index == -1
    {
      for i := 0 to |channels|
        invariant forall k :: 0 <= k < i ==> !Accepts(aes, channels[k], hash, from, id, payload)
      {
        if channels[i].enabled && channels[i].hash == hash {
          var buf := new byte[|payload|](k requires 0 <= k < |payload| => payload[k]);
          assert buf[..buf.Length] == payload;
          CryptInPlace(aes, channels[i].key, Nonce(from, id), buf, buf.Length);
          plaintext := buf[..buf.Length];
          var decoded := MeshData.DecodeData(plaintext);
          if decoded.Some? {
            return i, plaintext;
          }
        }
      }
      return -1, [];
    }
  }
}
