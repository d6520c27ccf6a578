/** The cryptographic primitives the firmware links against, as uninterpreted functions,
    and the two constructions it builds on top of them itself: counter-mode encryption
    and the truncated HMAC-SHA256 tag. */
module Primitives {
  import opened Bytes

  type Key = s: seq<byte> | |s| == 32 witness seq(32, _ => 0)
  type Block = s: seq<byte> | |s| == 16 witness seq(16, _ => 0)

  /** X25519, HKDF with 32-byte output, SHA-256 and the AES-256 block. Nothing is assumed about them. */
  datatype Prims = Prims(
    x25519: (Key, Key) -> Key,
    x25519Base: Key -> Key,
    hkdf: (seq<byte>, seq<byte>, seq<byte>) -> Key,
    sha256: seq<byte> -> Key,
    aes256: (Key, Block) -> Block)

  /** Diffie-Hellman commutation (section 6.1 of RFC 7748), the one law the protocols rely on. */
  ghost predicate DhCommutes(p: Prims)
  {
    forall a: Key, b: Key :: p.x25519(a, p.x25519Base(b)) == p.x25519(b, p.x25519Base(a))
  }

  // ---------------------------------------------------------------- counter mode

  /** Data masked with a key stream given block by block. */
  function Mask(stream: nat -> Block, data: seq<byte>): (r: seq<byte>)
    ensures |r| == |data|
  {
    seq<byte>(|data|, k requires 0 <= k < |data| => XorByte(data[k], stream(k / 16)[k % 16]))
  }

  /** The part of the mask that lies in one block. */
  lemma MaskInBlock(stream: nat -> Block, data: seq<byte>, block: nat, chunk: nat)
    requires 16 * block + chunk <= |data| && chunk <= 16
    ensures forall k :: 16 * block <= k < 16 * block + chunk ==>
      Mask(stream, data)[k] == XorByte(data[k], stream(block)[k - 16 * block])
  {
    hide XorByte;
    assert forall k :: 16 * block <= k < 16 * block + chunk ==> k / 16 == block && k % 16 == k - 16 * block;
  }

  /** Masking twice with the same stream is the identity: decryption is encryption. */
  lemma MaskTwice(stream: nat -> Block, data: seq<byte>)
    ensures Mask(stream, Mask(stream, data)) == data
  {
    var once := Mask(stream, data);
    forall k | 0 <= k < |data|
      ensures Mask(stream, once)[k] == data[k]
    {
      XorCancel(data[k], stream(k / 16)[k % 16]);
    }
  }

  /** Key stream of session.c and onion.c: eight nonce bytes, then a 64-bit block number. */
  function Stream(p: Prims, key: Key, nonce: seq<byte>): (s: nat -> Block)
    requires |nonce| == 8
  {
    (i: nat) => p.aes256(key, nonce + ToLe(i, 8))
  }

  function Ctr(p: Prims, key: Key, nonce: seq<byte>, data: seq<byte>): (r: seq<byte>)
    requires |nonce| == 8
    ensures |r| == |data|
  {
    Mask(Stream(p, key, nonce), data)
  }

  lemma CtrTwice(p: Prims, key: Key, nonce: seq<byte>, data: seq<byte>)
    requires |nonce| == 8
    ensures Ctr(p, key, nonce, Ctr(p, key, nonce, data)) == data
  {
    MaskTwice(Stream(p, key, nonce), data);
  }

  /** Byte k is masked with byte k mod 16 of the block that encrypts the nonce and the block number k / 16. */
  lemma CtrByte(p: Prims, key: Key, nonce: seq<byte>, data: seq<byte>, k: nat)
    requires |nonce| == 8 && k < |data| && k / 16 < 0x1_0000_0000_0000_0000
    ensures Ctr(p, key, nonce, data)[k] == XorByte(data[k], p.aes256(key, nonce + Le64(k / 16))[k % 16])
  {
  }

  /** Mask one chunk of a buffer with one key-stream block. */
  method MaskChunk(buf: array<byte>, offset: nat, chunk: nat, keystream: Block)
    requires offset + chunk <= buf.Length && chunk <= 16
    modifies buf
    ensures forall k :: offset <= k < offset + chunk ==> buf[k] == XorByte(old(buf[k]), keystream[k - offset])
    ensures forall k :: 0 <= k < buf.Length && !(offset <= k < offset + chunk) ==> buf[k] == old(buf[k])
  {
    hide XorByte;
    for j := 0 to chunk
      invariant forall k :: offset <= k < offset + j ==> buf[k] == XorByte(old(buf[k]), keystream[k - offset])
      invariant forall k :: 0 <= k < buf.Length && !(offset <= k < offset + j) ==> buf[k] == old(buf[k])
    {
      buf[offset + j] := XorByte(buf[offset + j], keystream[j]);
    }
  }

  /** The in-place loop over 16-byte chunks, the last one possibly short. */
  method CtrInPlace(p: Prims, key: Key, nonce: seq<byte>, buf: array<byte>, len: nat)
    requires |nonce| == 8 && len <= buf.Length
    modifies buf
    ensures buf[..len] == Ctr(p, key, nonce, old(buf[..len]))
    ensures forall k :: len <= k < buf.Length ==> buf[k] == old(buf[k])
  {
    hide XorByte, ToLe, Mask;
    ghost var plain := buf[..len];
    ghost var masked := Ctr(p, key, nonce, plain);
    var offset, block := 0, 0;
    while offset < len
      invariant offset == 16 * block
      invariant forall k :: 0 <= k < offset && k < len ==> buf[k] == masked[k]
      invariant forall k :: offset <= k < len ==> buf[k] == plain[k]
      invariant forall k :: len <= k < buf.Length ==> buf[k] == old(buf[k])
      decreases len - offset
    {
      var chunk := if len - offset < 16 then len - offset else 16;
      MaskChunk(buf, offset, chunk, p.aes256(key, nonce + ToLe(block, 8)));
      MaskInBlock(Stream(p, key, nonce), plain, block, chunk);
      offset := offset + 16;
      block := block + 1;
    }
  }

  // ---------------------------------------------------------------- authentication tag

  function Pad(key: Key, fill: byte): (s: seq<byte>)
    ensures |s| == 64
  {
    seq(64, i requires 0 <= i < 64 => if i < 32 then XorByte(fill, key[i]) else fill)
  }

  /** HMAC-SHA256 of the message, truncated to 16 bytes. */
  function Tag(p: Prims, key: Key, message: seq<byte>): (t: Block)
  {
    p.sha256(Pad(key, 0x5c) + p.sha256(Pad(key, 0x36) + message))[..16]
  }

  function Xored(data: seq<byte>, fill: byte): (s: seq<byte>)
    ensures |s| == |data|
  {
    seq<byte>(|data|, i requires 0 <= i < |data| => XorByte(data[i], fill))
  }

  /** HMAC as section 2 of RFC 2104 has it: the key padded with zeros to the block size of 64 bytes. */
  lemma TagIsHmac(p: Prims, key: Key, message: seq<byte>)
    ensures var k := key + Zeros(32);
      Tag(p, key, message) == p.sha256(Xored(k, 0x5c) + p.sha256(Xored(k, 0x36) + message))[..16]
  {
    PadIsXored(key, 0x5c);
    PadIsXored(key, 0x36);
  }

  lemma PadIsXored(key: Key, fill: byte)
    ensures Pad(key, fill) == Xored(key + Zeros(32), fill)
  {
    hide XorByte;
    forall i | 0 <= i < 64
      ensures Pad(key, fill)[i] == Xored(key + Zeros(32), fill)[i]
    {
      XorBytes(if i < 32 then key[i] else 0, fill);
    }
  }

  lemma XorBytes(a: byte, b: byte)
    ensures XorByte(a, b) == XorByte(b, a) && XorByte(0, b) == b
  {
    XorComm(a, b);
    XorComm(0, b);
    XorZero(b);
  }

  method ComputeTag(p: Prims, key: Key, message: seq<byte>) returns (t: Block)
    ensures t == Tag(p, key, message)
  {
    var inner, outer := new byte[64](_ => 0x36), new byte[64](_ => 0x5c);
    for i := 0 to 32
      invariant forall k :: 0 <= k < i ==> inner[k] == XorByte(0x36, key[k]) && outer[k] == XorByte(0x5c, key[k])
      invariant forall k :: i <= k < 64 ==> inner[k] == 0x36 && outer[k] == 0x5c
    {
      inner[i] := XorByte(inner[i], key[i]);
      outer[i] := XorByte(outer[i], key[i]);
    }
    assert inner[..] == Pad(key, 0x36) && outer[..] == Pad(key, 0x5c);
    t := p.sha256(outer[..] + p.sha256(inner[..] + message))[..16];
  }
}
