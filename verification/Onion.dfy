/** Onion routing (lunarcore/lunar/onion.c): one encrypted, tagged layer per hop. */
module Onion {
  import opened Bytes
  import opened Primitives

  const MIN_HOPS: nat := 3
  const MAX_HOPS: nat := 7
  const HOP_OVERHEAD: nat := 18
  const CAPACITY: nat := 256
  const ONION_KEY_INFO: seq<byte> := Ascii("lunarpunk-onion-key-v1")

  datatype Hop = Hop(hint: u16, publicKey: Key)

  /** A byte vector of at most 256 bytes. */
  type Vec = s: seq<byte> | |s| <= 256 witness []

  datatype Packet = Packet(data: Vec, numLayers: byte)

  datatype Error = InvalidRoute | PacketTooLarge | AuthenticationFailed | DecryptionFailed | NoMoreLayers

  // ---------------------------------------------------------------- one layer

  function LayerKey(p: Prims, private: Key, public: Key, index: byte): (k: Key)
  {
    p.hkdf(p.x25519(private, public) + [index], [index], ONION_KEY_INFO)
  }

  /** Next hint (big-endian), tag over the ciphertext, ciphertext. */
  function Layer(p: Prims, key: Key, nextHint: u16, inner: seq<byte>): (r: seq<byte>)
    ensures |r| == |inner| + HOP_OVERHEAD
  {
    var body := Ctr(p, key, Zeros(8), inner);
    [nextHint / 0x100, nextHint % 0x100] + Tag(p, key, body) + body
  }

  function LayerIndex(packet: Packet): (i: byte)
  {
    if packet.numLayers > 0 then packet.numLayers - 1 else 0
  }

  /** Check the outer layer with the hop's key and decrypt it. */
  function OpenLayer(p: Prims, private: Key, senderPublic: Key, packet: Packet): (r: Result<Vec, Error>)
  {
    if |packet.data| < HOP_OVERHEAD then Err(DecryptionFailed)
    else
      var key := LayerKey(p, private, senderPublic, LayerIndex(packet));
      var body := packet.data[HOP_OVERHEAD..];
      if packet.data[2..HOP_OVERHEAD] != Tag(p, key, body) then Err(AuthenticationFailed)
      else Ok(Ctr(p, key, Zeros(8), body))
  }

  function BigEndian(hi: int, lo: int): (n: u16)
    requires 0 <= hi < 0x100 && 0 <= lo < 0x100
  {
    hi * 0x100 + lo
  }

  function NextHint(packet: Packet): (h: u16)
    requires |packet.data| >= 2
  {
    BigEndian(packet.data[0], packet.data[1])
  }

  function Unwrap(p: Prims, private: Key, senderPublic: Key, packet: Packet): (r: Result<(u16, Packet), Error>)
  {
    match OpenLayer(p, private, senderPublic, packet)
    case Err(e) => Err(e)
    case Ok(inner) =>
      if NextHint(packet) == 0 then Err(NoMoreLayers)
      else Ok((NextHint(packet), Packet(inner, LayerIndex(packet))))
  }

  function UnwrapFinal(p: Prims, private: Key, senderPublic: Key, packet: Packet): (r: Result<Vec, Error>)
  {
    OpenLayer(p, private, senderPublic, packet)
  }

  // ---------------------------------------------------------------- the whole route

  /** The hint a hop forwards to: its successor's, or 0 at the last hop. */
  function HintAfter(hops: seq<Hop>, i: nat): (h: u16)
    requires i < |hops|
  {
    if i + 1 < |hops| then hops[i + 1].hint else 0
  }

  /** The payload inside the layers of hops i, i + 1, ... */
  function WrapFrom(p: Prims, private: Key, hops: seq<Hop>, i: nat, payload: seq<byte>): (r: seq<byte>)
    requires i <= |hops| <= MAX_HOPS
    ensures |r| == |payload| + HOP_OVERHEAD * (|hops| - i)
    decreases |hops| - i
  {
    if i == |hops| then payload
    else Layer(p, LayerKey(p, private, hops[i].publicKey, |hops| - 1 - i), HintAfter(hops, i),
               WrapFrom(p, private, hops, i + 1, payload))
  }

  function Wrap(p: Prims, private: Key, payload: seq<byte>, hops: seq<Hop>): (r: Result<Packet, Error>)
  {
    if !(MIN_HOPS <= |hops| <= MAX_HOPS) then Err(InvalidRoute)
    else if |payload| + HOP_OVERHEAD * |hops| > CAPACITY then Err(PacketTooLarge)
    else Ok(Packet(WrapFrom(p, private, hops, 0, payload), |hops|))
  }

  /** The journey of a packet: every hop but the last unwraps and forwards, the last opens the payload.
      Returns the hints forwarded to, in order, and the payload. */
  function Peel(p: Prims, privates: seq<Key>, senderPublic: Key, packet: Packet): (r: Result<(seq<u16>, Vec), Error>)
    requires privates != []
  {
    if |privates| == 1 then
      match UnwrapFinal(p, privates[0], senderPublic, packet)
      case Err(e) => Err(e)
      case Ok(payload) => Ok(([], payload))
    else
      match Unwrap(p, privates[0], senderPublic, packet)
      case Err(e) => Err(e)
      case Ok((hint, inner)) =>
        match Peel(p, privates[1..], senderPublic, inner)
        case Err(e) => Err(e)
        case Ok((hints, payload)) => Ok(([hint] + hints, payload))
  }

  function Hints(hops: seq<Hop>): (r: seq<u16>)
    ensures |r| == |hops|
  {
    if hops == [] then [] else [hops[0].hint] + Hints(hops[1..])
  }

  lemma OpenLayerRoundTrip(p: Prims, private: Key, senderPublic: Key, key: Key, hint: u16, inner: seq<byte>, layers: byte)
    requires |inner| + HOP_OVERHEAD <= CAPACITY && layers > 0
    requires key == LayerKey(p, private, senderPublic, layers - 1)
    ensures var packet := Packet(Layer(p, key, hint, inner), layers);
      OpenLayer(p, private, senderPublic, packet) == Ok(inner) && NextHint(packet) == hint
  {
    var body := Ctr(p, key, Zeros(8), inner);
    var data := Layer(p, key, hint, inner);
    assert data[2..HOP_OVERHEAD] == Tag(p, key, body) && data[HOP_OVERHEAD..] == body;
    CtrTwice(p, key, Zeros(8), inner);
  }

  /** The key of a layer, derived from the Diffie-Hellman secret and the layer number. */
  function WrittenKey(p: Prims, private: Key, public: Key, numLayers: byte): (k: Key)
  {
    var i: byte := if numLayers > 0 then numLayers - 1 else 0;
    p.hkdf(p.x25519(private, public) + [i], [i], Ascii("lunarpunk-onion-key-v1"))
  }

  /** For every packet: too short is a decryption failure, and otherwise the layer opens exactly when bytes 2 to 17 are
      the tag of the bytes after them; what it opens to is those bytes, each unmasked with its key stream byte. */
  lemma OpenExactly(p: Prims, private: Key, senderPublic: Key, packet: Packet)
    ensures var out := OpenLayer(p, private, senderPublic, packet);
      var key := WrittenKey(p, private, senderPublic, packet.numLayers);
      if |packet.data| < 18 then out == Err(DecryptionFailed)
      else if packet.data[2..18] != Tag(p, key, packet.data[18..]) then out == Err(AuthenticationFailed)
      else
        && out.Ok? && |out.value| == |packet.data| - 18
        && forall k :: 0 <= k < |out.value| ==>
             out.value[k] == XorByte(packet.data[18 + k], p.aes256(key, Zeros(8) + Le64(k / 16))[k % 16])
  {
    hide XorByte, Le64;
    var key := WrittenKey(p, private, senderPublic, packet.numLayers);
    if |packet.data| >= 18 {
      var body := packet.data[18..];
      forall k | 0 <= k < |body|
        ensures Ctr(p, key, Zeros(8), body)[k] == XorByte(packet.data[18 + k], p.aes256(key, Zeros(8) + Le64(k / 16))[k % 16])
      {
        CtrByte(p, key, Zeros(8), body, k);
      }
    }
  }

  /** The two ways to unwrap, for every packet: both need a valid tag; forwarding also needs a nonzero next hint, which
      is in the first two bytes, and hands on one layer less. */
  lemma UnwrapExactly(p: Prims, private: Key, senderPublic: Key, packet: Packet)
    ensures var inner := OpenLayer(p, private, senderPublic, packet);
      && UnwrapFinal(p, private, senderPublic, packet) == inner
      && (inner.Err? ==> Unwrap(p, private, senderPublic, packet) == Err(inner.error))
      && (inner.Ok? ==>
            var hint := packet.data[0] as int * 0x100 + packet.data[1] as int;
            Unwrap(p, private, senderPublic, packet) ==
              if hint == 0 then Err(NoMoreLayers)
              else Ok((hint, Packet(inner.value, if packet.numLayers > 0 then packet.numLayers - 1 else 0))))
  {
    hide Tag, Ctr;
  }

  /** Which routes and payloads are refused, and with which error. */
  lemma WrapOutcome(p: Prims, private: Key, payload: seq<byte>, hops: seq<Hop>)
    ensures var out := Wrap(p, private, payload, hops);
      && (out == Err(InvalidRoute) <==> |hops| < 3 || |hops| > 7)
      && (out == Err(PacketTooLarge) <==> 3 <= |hops| <= 7 && |payload| + 18 * |hops| > 256)
      && (out.Ok? <==> 3 <= |hops| <= 7 && |payload| + 18 * |hops| <= 256)
      && (out.Ok? ==> out.value.numLayers == |hops|)
  {
    hide WrapFrom;
  }

  /** A wrapped packet whose tag has been changed in any way is refused by its first hop. */
  lemma ChangedTagRefused(p: Prims, private: Key, payload: seq<byte>, hops: seq<Hop>, own: Key, received: Packet)
    requires DhCommutes(p) && hops != [] && hops[0].publicKey == p.x25519Base(own)
    requires Wrap(p, private, payload, hops).Ok?
    requires var sent := Wrap(p, private, payload, hops).value;
      && received.numLayers == sent.numLayers && |received.data| == |sent.data|
      && received.data[18..] == sent.data[18..] && received.data[2..18] != sent.data[2..18]
    ensures Unwrap(p, own, p.x25519Base(private), received) == Err(AuthenticationFailed)
    ensures UnwrapFinal(p, own, p.x25519Base(private), received) == Err(AuthenticationFailed)
  {
    hide OpenLayer, WrapFrom;
    HopOpens(p, private, payload, hops, own, 0);
    OpenExactly(p, own, p.x25519Base(private), Wrap(p, private, payload, hops).value);
    OpenExactly(p, own, p.x25519Base(private), received);
  }

  /** The packet as hop i receives it. */
  function PacketAt(p: Prims, private: Key, hops: seq<Hop>, i: nat, payload: seq<byte>): (r: Packet)
    requires i <= |hops| <= MAX_HOPS && |payload| + HOP_OVERHEAD * |hops| <= CAPACITY
  {
    Packet(WrapFrom(p, private, hops, i, payload), |hops| - i)
  }

  lemma HopOpens(p: Prims, private: Key, payload: seq<byte>, hops: seq<Hop>, own: Key, i: nat)
    requires DhCommutes(p) && i < |hops| <= MAX_HOPS && hops[i].publicKey == p.x25519Base(own)
    requires |payload| + HOP_OVERHEAD * |hops| <= CAPACITY
    ensures var packet := PacketAt(p, private, hops, i, payload);
      && OpenLayer(p, own, p.x25519Base(private), packet) == Ok(WrapFrom(p, private, hops, i + 1, payload))
      && NextHint(packet) == HintAfter(hops, i) && LayerIndex(packet) == |hops| - 1 - i
  {
    var key := LayerKey(p, private, hops[i].publicKey, |hops| - 1 - i);
    assert p.x25519(private, p.x25519Base(own)) == p.x25519(own, p.x25519Base(private));
    OpenLayerRoundTrip(p, own, p.x25519Base(private), key, HintAfter(hops, i),
                       WrapFrom(p, private, hops, i + 1, payload), |hops| - i);
  }

  lemma {:induction false} PeelFrom(p: Prims, private: Key, payload: seq<byte>, hops: seq<Hop>, privates: seq<Key>, i: nat)
    requires DhCommutes(p) && i < |hops| == |privates| && |hops| <= MAX_HOPS
    requires forall k :: 0 <= k < |hops| ==> hops[k].publicKey == p.x25519Base(privates[k])
    requires |payload| + HOP_OVERHEAD * |hops| <= CAPACITY
    ensures Peel(p, privates[i..], p.x25519Base(private), PacketAt(p, private, hops, i, payload)) ==
      if forall k :: i < k < |hops| ==> hops[k].hint != 0 then Ok((Hints(hops[i + 1..]), payload)) else Err(NoMoreLayers)
    decreases |hops| - i
  {
    hide OpenLayer, NextHint, WrapFrom;
    HopOpens(p, private, payload, hops, privates[i], i);
    assert privates[i..][0] == privates[i] && privates[i..][1..] == privates[i + 1..];
    if i + 1 < |hops| {
      PeelFrom(p, private, payload, hops, privates, i + 1);
      assert hops[i + 1..][0] == hops[i + 1] && hops[i + 1..][1..] == hops[i + 2..];
    } else {
      assert WrapFrom(p, private, hops, i + 1, payload) == payload by { WrapEnd(p, private, hops, payload); }
    }
  }

  lemma WrapEnd(p: Prims, private: Key, hops: seq<Hop>, payload: seq<byte>)
    requires |hops| <= MAX_HOPS
    ensures WrapFrom(p, private, hops, |hops|, payload) == payload
  {
  }

  /** For every route the wrapper accepts, the packet reaches the last hop with its payload and is forwarded to
      exactly the route's hints in order if, and only if, no hop after the first has hint 0. */
  lemma PeelRoundTrip(p: Prims, private: Key, payload: seq<byte>, hops: seq<Hop>, privates: seq<Key>)
    requires DhCommutes(p) && |privates| == |hops|
    requires forall k :: 0 <= k < |hops| ==> hops[k].publicKey == p.x25519Base(privates[k])
    requires MIN_HOPS <= |hops| <= MAX_HOPS && |payload| + HOP_OVERHEAD * |hops| <= CAPACITY
    ensures var packet := Wrap(p, private, payload, hops);
      && packet.Ok? && |packet.value.data| == |payload| + HOP_OVERHEAD * |hops|
      && (Peel(p, privates, p.x25519Base(private), packet.value) == Ok((Hints(hops[1..]), payload))
          <==> forall k :: 0 < k < |hops| ==> hops[k].hint != 0)
      && (Peel(p, privates, p.x25519Base(private), packet.value).Err?
          <==> exists k :: 0 < k < |hops| && hops[k].hint == 0)
  {
    PeelFrom(p, private, payload, hops, privates, 0);
    assert privates[0..] == privates;
  }

  // ---------------------------------------------------------------- the implementation

  class Router {
    const private: Key

    constructor (key: Key)
      ensures private == key
    {
      private := key;
    }

    method EncryptLayer(p: Prims, key: Key, data: Vec) returns (out: Vec)
      ensures out == Ctr(p, key, Zeros(8), data)
    {
      var buf := new byte[|data|](i requires 0 <= i < |data| => data[i]);
      assert buf[..buf.Length] == data;
      CtrInPlace(p, key, Zeros(8), buf, buf.Length);
      return buf[..buf.Length];
    }

    method WrapRoute(p: Prims, payload: seq<byte>, hops: seq<Hop>) returns (r: Result<Packet, Error>)
      ensures r == Wrap(p, private, payload, hops)
    {
      if |hops| < MIN_HOPS || |hops| > MAX_HOPS {
        return Err(InvalidRoute);
      }
      if |payload| + HOP_OVERHEAD * |hops| > CAPACITY {
        return Err(PacketTooLarge);
      }
      var current: Vec := payload;
      var i: nat := |hops|;
      while i > 0
        invariant i <= |hops|
        invariant current == WrapFrom(p, private, hops, i, payload)
      {
        i := i - 1;
        var index := |hops| - 1 - i;
        var key := p.hkdf(p.x25519(private, hops[i].publicKey) + [index], [index], ONION_KEY_INFO);
        var encrypted := EncryptLayer(p, key, current);
        var tag := ComputeTag(p, key, encrypted);
        var nextHint := if i == |hops| - 1 then 0 else hops[i + 1].hint;
        current := [nextHint / 0x100, nextHint % 0x100] + tag + encrypted;
      }
      return Ok(Packet(current, |hops|));
    }

    method Open(p: Prims, senderPublic: Key, packet: Packet) returns (r: Result<Vec, Error>)
      ensures r == OpenLayer(p, private, senderPublic, packet)
    {
      if |packet.data| < HOP_OVERHEAD {
        return Err(DecryptionFailed);
      }
      var index := if packet.numLayers > 0 then packet.numLayers - 1 else 0;
      var key := p.hkdf(p.x25519(private, senderPublic) + [index], [index], ONION_KEY_INFO);
      var body := packet.data[HOP_OVERHEAD..];
      var expected := ComputeTag(p, key, body);
      var same := ConstantTimeEq(packet.data[2..HOP_OVERHEAD], expected);
      if !same {
        return Err(AuthenticationFailed);
      }
      var inner := EncryptLayer(p, key, body);
      return Ok(inner);
    }

    method UnwrapOne(p: Prims, senderPublic: Key, packet: Packet) returns (r: Result<(u16, Packet), Error>)
      ensures r == Unwrap(p, private, senderPublic, packet)
    {
      var inner := Open(p, senderPublic, packet);
      if inner.Err? {
        return Err(inner.error);
      }
      var hint := BigEndian(packet.data[0], packet.data[1]);
      if hint == 0 {
        return Err(NoMoreLayers);
      }
      return Ok((hint, Packet(inner.value, if packet.numLayers > 0 then packet.numLayers - 1 else 0)));
    }
  }

  /** A route of n hops: the first n - 1 relays, cycling through the list, then the destination. */
  method BuildRoute(relays: seq<Hop>, destination: Hop, n: nat) returns (route: Option<seq<Hop>>)
    ensures route.Some? <==> 3 <= n <= 7 && |relays| >= n - 1
    ensures route.Some? ==> route.value == relays[..n - 1] + [destination]
  {
    if n < MIN_HOPS || n > MAX_HOPS || |relays| < n - 1 {
      return None;
    }
    var hops: seq<Hop> := [];
    for i := 0 to n - 1
      invariant hops == relays[..i]
    {
      assert i % |relays| == i;
      hops := hops + [relays[i % |relays|]];
    }
    return Some(hops + [destination]);
  }
}
