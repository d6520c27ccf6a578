/** The 16-byte Meshtastic packet header (meshtastic_lite/meshtastic_packet.c). */
module MeshPacket {
  import opened Bytes

  const HEADER_SIZE: nat := 16
  const MAX_PAYLOAD: nat := 239

  type Bits3 = x: int | 0 <= x < 8

  datatype Packet = Packet(
    to: u32, from: u32, id: u32, hopLimit: Bits3, hopStart: Bits3, wantAck: bool, viaMqtt: bool,
    channelHash: byte, nextHop: byte, relayNode: byte, payload: seq<byte>)

  /** Three bits hop limit, acknowledgement, MQTT, three bits hop start. */
  function Flags(hopLimit: nat, hopStart: nat, wantAck: bool, viaMqtt: bool): (b: byte)
  {
    hopLimit % 8 + (if wantAck then 8 else 0) + (if viaMqtt then 16 else 0) + hopStart % 8 * 32
  }

  function Build(p: Packet): (s: seq<byte>)
    ensures |s| == HEADER_SIZE + |p.payload|
  {
    Le32(p.to) + Le32(p.from) + Le32(p.id)
    + [Flags(p.hopLimit, p.hopStart, p.wantAck, p.viaMqtt), p.channelHash, p.nextHop, p.relayNode]
    + p.payload
  }

  /** The header read back; a payload past 239 bytes is cut off. */
  function Parse(raw: seq<byte>): (p: Option<Packet>)
  {
    if |raw| < HEADER_SIZE then None
    else
      var flags: nat := raw[12];
      Some(Packet(ReadLe32(raw[..4]), ReadLe32(raw[4..8]), ReadLe32(raw[8..12]),
                  flags % 8, flags / 32, flags / 8 % 2 != 0, flags / 16 % 2 != 0,
                  raw[13], raw[14], raw[15], raw[HEADER_SIZE..Min(|raw|, HEADER_SIZE + MAX_PAYLOAD)]))
  }

  lemma Digits(h: nat, a: nat, m: nat, s: nat)
    requires h < 8 && a < 2 && m < 2 && s < 8
    ensures var f := h + a * 8 + m * 16 + s * 32;
      f % 8 == h && f / 8 % 2 == a && f / 16 % 2 == m && f / 32 == s
  {
    var f := h + a * 8 + m * 16 + s * 32;
    assert f / 8 == a + 2 * m + 4 * s;
    assert f / 16 == m + 2 * s;
  }

  lemma FlagsRoundTrip(hopLimit: Bits3, hopStart: Bits3, wantAck: bool, viaMqtt: bool)
    ensures var f: nat := Flags(hopLimit, hopStart, wantAck, viaMqtt);
      f % 8 == hopLimit && f / 32 == hopStart && (f / 8 % 2 != 0) == wantAck && (f / 16 % 2 != 0) == viaMqtt
  {
    Digits(hopLimit, if wantAck then 1 else 0, if viaMqtt then 1 else 0, hopStart);
  }

  /** Parsing a built frame gives its fields back, with the payload cut to 239 bytes. */
  lemma ParseBuild(p: Packet)
    ensures Parse(Build(p)) == Some(p.(payload := p.payload[..Min(|p.payload|, MAX_PAYLOAD)]))
  {
    hide Flags, Le32, ReadLe32;
    var s := Build(p);
    Le32RoundTrip(p.to);
    Le32RoundTrip(p.from);
    Le32RoundTrip(p.id);
    assert s[..4] == Le32(p.to) && s[4..8] == Le32(p.from) && s[8..12] == Le32(p.id);
    FlagsRoundTrip(p.hopLimit, p.hopStart, p.wantAck, p.viaMqtt);
    assert s[12..16] == [Flags(p.hopLimit, p.hopStart, p.wantAck, p.viaMqtt), p.channelHash, p.nextHop, p.relayNode];
    assert s[12] == s[12..16][0] && s[13] == s[12..16][1] && s[14] == s[12..16][2] && s[15] == s[12..16][3];
    assert s[HEADER_SIZE..Min(|s|, HEADER_SIZE + MAX_PAYLOAD)] == p.payload[..Min(|p.payload|, MAX_PAYLOAD)];
  }

  /** The frame byte by byte: destination, sender and identifier, then the flags (hop limit in bits 0 to 2,
      acknowledgement in bit 3, MQTT in bit 4, hop start in bits 5 to 7), channel hash, next hop and relay node. */
  lemma PacketBytes(p: Packet)
    ensures var s := Build(p);
      && s[0..4] == Le32(p.to) && s[4..8] == Le32(p.from) && s[8..12] == Le32(p.id)
      && s[12] == p.hopLimit + (if p.wantAck then 8 else 0) + (if p.viaMqtt then 16 else 0) + p.hopStart * 32
      && s[13..16] == [p.channelHash, p.nextHop, p.relayNode] && s[16..] == p.payload
  {
    hide Le32;
  }

  lemma FlagsInverse(f: byte)
    ensures Flags(f % 8, f / 32, f / 8 % 2 != 0, f / 16 % 2 != 0) == f
  {
    var a: nat := f;
    var b := a / 8;
    var d := b / 2;
    assert d == a / 16 && d / 2 == a / 32;
    assert a == b * 8 + a % 8 && b == d * 2 + b % 2 && d == d / 2 * 2 + d % 2;
  }

  /** A frame is refused exactly when it has fewer than 16 bytes; what is parsed from any other is the packet whose
      frame it is, up to 255 bytes. */
  lemma BuildParse(raw: seq<byte>)
    ensures Parse(raw).Some? <==> |raw| >= 16
    ensures Parse(raw).Some? ==> Build(Parse(raw).value) == raw[..Min(|raw|, 255)]
  {
    if |raw| >= 16 {
      hide Le32, ReadLe32, Flags;
      var end := Min(|raw|, 255);
      WordInverse(raw[..4]);
      WordInverse(raw[4..8]);
      WordInverse(raw[8..12]);
      FlagsInverse(raw[12]);
      Quarters(raw, end);
    }
  }

  lemma WordInverse(s: seq<byte>)
    requires |s| == 4
    ensures Le32(ReadLe32(s)) == s
  {
    LeInverse(s);
  }

  lemma Quarters(raw: seq<byte>, end: nat)
    requires 16 <= end <= |raw|
    ensures raw[..4] + raw[4..8] + raw[8..12] + [raw[12], raw[13], raw[14], raw[15]] + raw[16..end] == raw[..end]
  {
  }

  /** The header fields and then the payload, written into the output buffer. */
  method BuildInto(out: array<byte>, p: Packet) returns (len: nat)
    requires out.Length >= HEADER_SIZE + |p.payload|
    modifies out
    ensures len == HEADER_SIZE + |p.payload| && out[..len] == Build(p)
  {
    var to, from, id := Le32(p.to), Le32(p.from), Le32(p.id);
    for i := 0 to 4
      invariant forall k :: 0 <= k < i ==> out[k] == to[k] && out[4 + k] == from[k] && out[8 + k] == id[k]
    {
      out[i], out[4 + i], out[8 + i] := to[i], from[i], id[i];
    }
    out[12], out[13] := Flags(p.hopLimit, p.hopStart, p.wantAck, p.viaMqtt), p.channelHash;
    out[14], out[15] := p.nextHop, p.relayNode;
    ghost var head := out[..HEADER_SIZE];
    assert head == Build(p)[..HEADER_SIZE];
    for i := 0 to |p.payload|
      invariant out[..HEADER_SIZE] == head
      invariant forall k :: 0 <= k < i ==> out[HEADER_SIZE + k] == p.payload[k]
    {
      out[HEADER_SIZE + i] := p.payload[i];
    }
    len := HEADER_SIZE + |p.payload|;
    assert out[..len] == head + p.payload;
  }
}
