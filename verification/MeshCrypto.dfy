/** Meshtastic AES-CTR (meshtastic_lite/meshtastic_crypto.c; section 6.5 of NIST SP 800-38A). */
module MeshCrypto {
  import opened Bytes
  import opened Primitives

  const WORD: nat := 0x1_0000_0000

  /** Length 0 or less: no encryption. 16 and 32 select AES-128 and AES-256. */
  datatype MeshKey = MeshKey(bytes: Key, length: int)

  /** The AES block cipher: key bytes, key size in bits, input block. */
  type Aes = (seq<byte>, int, Block) -> Block

  /** Packet id as 64 bits, sender, and a zero block counter. */
  function Nonce(from: u32, packetId: u32): (n: Block)
  {
    Le64(packetId) + Le32(from) + [0, 0, 0, 0]
  }

  /** The nonce byte by byte. */
  lemma NonceBytes(from: u32, packetId: u32)
    ensures Nonce(from, packetId) == Le32(packetId) + [0, 0, 0, 0] + Le32(from) + [0, 0, 0, 0]
  {
    Le64Bytes(packetId);
    Le32Bytes(0);
  }

  /** Two packets share a nonce exactly when they share sender and identifier. */
  lemma NonceDistinct(from: u32, packetId: u32, from1: u32, packetId1: u32)
    ensures Nonce(from, packetId) == Nonce(from1, packetId1) <==> from == from1 && packetId == packetId1
  {
    hide Le64, Le32;
    var a, b := Nonce(from, packetId), Nonce(from1, packetId1);
    assert a[..8] == Le64(packetId) && a[8..12] == Le32(from);
    assert b[..8] == Le64(packetId1) && b[8..12] == Le32(from1);
    Le64RoundTrip(packetId);
    Le64RoundTrip(packetId1);
    Le32RoundTrip(from);
    Le32RoundTrip(from1);
  }

  // ---------------------------------------------------------------- the counter block

  function FromBe32(s: seq<byte>): (n: u32)
    requires |s| == 4
  {
    var a: nat, b: nat, c: nat, d: nat := s[0], s[1], s[2], s[3];
    ((a * 256 + b) * 256 + c) * 256 + d
  }

  function ToBe32(n: u32): (s: seq<byte>)
    ensures |s| == 4
  {
    [n / 256 / 256 / 256, n / 256 / 256 % 256, n / 256 % 256, n % 256]
  }

  lemma Be32RoundTrip(n: u32)
    ensures FromBe32(ToBe32(n)) == n
  {
  }

  lemma Be32Inverse(s: seq<byte>)
    requires |s| == 4
    ensures ToBe32(FromBe32(s)) == s
  {
    var a: nat, b: nat, c: nat, d: nat := s[0], s[1], s[2], s[3];
    var n := FromBe32(s);
    assert n / 256 == (a * 256 + b) * 256 + c;
    assert n / 256 / 256 == a * 256 + b;
  }

  /** Adding one to a big-endian word: byte j goes up, the bytes after it wrap from 255 to 0; j is -1 when all wrap. */
  lemma Be32Next(s: seq<byte>, j: int)
    requires |s| == 4 && -1 <= j < 4
    requires (forall k :: j < k < 4 ==> s[k] == 255) && (j >= 0 ==> s[j] < 255)
    ensures ToBe32((FromBe32(s) + 1) % WORD) ==
      if j == 3 then s[3 := s[3] + 1]
      else if j == 2 then [s[0], s[1], s[2] + 1, 0]
      else if j == 1 then [s[0], s[1] + 1, 0, 0]
      else if j == 0 then [s[0] + 1, 0, 0, 0]
      else [0, 0, 0, 0]
  {
    hide ToBe32;
    if j == 3 {
      Be32Inverse(s[3 := s[3] + 1]);
    } else if j == 2 {
      Be32Inverse([s[0], s[1], s[2] + 1, 0]);
    } else if j == 1 {
      Be32Inverse([s[0], s[1] + 1, 0, 0]);
    } else if j == 0 {
      Be32Inverse([s[0] + 1, 0, 0, 0]);
    } else {
      Be32Inverse([0, 0, 0, 0]);
    }
  }

  /** The i-th input block: the nonce with i added to its last 32 bits, modulo 2^32. */
  function CounterBlock(nonce: Block, i: nat): (b: Block)
  {
    nonce[..12] + ToBe32((FromBe32(nonce[12..]) + i) % WORD)
  }

  lemma CounterZero(nonce: Block)
    ensures CounterBlock(nonce, 0) == nonce
  {
    hide ToBe32, FromBe32;
    Be32Inverse(nonce[12..]);
    assert nonce[..12] + nonce[12..] == nonce;
  }

  lemma CounterNext(nonce: Block, i: nat)
    ensures CounterBlock(CounterBlock(nonce, i), 1) == CounterBlock(nonce, i + 1)
  {
    hide ToBe32, FromBe32;
    var v := FromBe32(nonce[12..]) + i;
    Be32RoundTrip(v % WORD);
    assert CounterBlock(nonce, i)[12..] == ToBe32(v % WORD) && CounterBlock(nonce, i)[..12] == nonce[..12];
    assert (v % WORD + 1) % WORD == (v + 1) % WORD;
  }

  /** Byte-wise increment with carry, from the last byte up to the twelfth. */
  method Increment(block: array<byte>)
    requires block.Length == 16
    modifies block
    ensures block[..] == CounterBlock(old(block[..]), 1)
  {
    hide ToBe32, FromBe32;
    ghost var before: Block := block[..];
    var i := 15;
    while i >= 12
      invariant 11 <= i <= 15
      invariant forall k :: 0 <= k <= i ==> block[k] == before[k]
      invariant forall k :: i < k < 16 ==> block[k] == 0 && before[k] == 255
    {
      var value: nat := block[i];
      block[i] := (value + 1) % 256;
      if block[i] != 0 {
        break;
      }
      i := i - 1;
    }
    assert before[12..][0] == before[12] && before[12..][1] == before[13];
    assert before[12..][2] == before[14] && before[12..][3] == before[15];
    Be32Next(before[12..], i - 12);
    ghost var expected := CounterBlock(before, 1);
    assert expected[..12] == before[..12] && expected[12..] == ToBe32((FromBe32(before[12..]) + 1) % WORD);
    assert block[..12] == before[..12] && block[12..] == expected[12..];
    assert block[..] == block[..12] + block[12..];
  }

  // ---------------------------------------------------------------- encryption

  function Stream(aes: Aes, key: MeshKey, nonce: Block): (s: nat -> Block)
  {
    (i: nat) => aes(key.bytes, key.length * 8, CounterBlock(nonce, i))
  }

  function Crypt(aes: Aes, key: MeshKey, nonce: Block, data: seq<byte>): (r: seq<byte>)
    ensures |r| == |data|
  {
    if key.length <= 0 then data else Mask(Stream(aes, key, nonce), data)
  }

  /** Byte k of a message is masked with byte k mod 16 of the block that encrypts packet identifier, sender and the
      block number k / 16, most significant byte first; without a key it is sent as it is. */
  lemma CryptByte(aes: Aes, key: MeshKey, from: u32, packetId: u32, data: seq<byte>, k: nat)
    requires k < |data| && k / 16 < WORD
    ensures Crypt(aes, key, Nonce(from, packetId), data)[k] ==
      if key.length <= 0 then data[k]
      else XorByte(data[k], aes(key.bytes, 8 * key.length,
                                Le32(packetId) + [0, 0, 0, 0] + Le32(from) + BigEndian(k / 16))[k % 16])
  {
    hide XorByte, Le32;
    var nonce, b := Nonce(from, packetId), k / 16;
    NonceBytes(from, packetId);
    assert nonce[12..] == [0, 0, 0, 0] && FromBe32(nonce[12..]) == 0;
    assert nonce[..12] == Le32(packetId) + [0, 0, 0, 0] + Le32(from);
    assert CounterBlock(nonce, b) == Le32(packetId) + [0, 0, 0, 0] + Le32(from) + BigEndian(b);
  }

  /** Four bytes, most significant first. */
  function BigEndian(n: u32): (s: seq<byte>)
    ensures |s| == 4
  {
    [n / 0x100_0000, n / 0x1_0000 % 0x100, n / 0x100 % 0x100, n % 0x100]
  }

  /** Decryption is encryption again, with every key and also without one. */
  lemma CryptTwice(aes: Aes, key: MeshKey, nonce: Block, data: seq<byte>)
    ensures Crypt(aes, key, nonce, Crypt(aes, key, nonce, data)) == data
  {
    if key.length > 0 {
      MaskTwice(Stream(aes, key, nonce), data);
    }
  }

  /** One chunk: mask it with the encrypted counter block, then step the counter. */
  method CryptChunk(aes: Aes, key: MeshKey, nonce: Block, data: array<byte>, chunk: nat,
                    counter: array<byte>, ghost block: nat, offset: nat)
    requires counter.Length == 16 && counter != data && counter[..] == CounterBlock(nonce, block)
    requires chunk <= 16 && offset == 16 * block && offset + chunk <= data.Length
    modifies data, counter
    ensures counter[..] == CounterBlock(nonce, block + 1)
    ensures forall k :: offset <= k < offset + chunk ==>
      data[k] == XorByte(old(data[k]), Stream(aes, key, nonce)(block)[k - offset])
    ensures forall k :: 0 <= k < data.Length && !(offset <= k < offset + chunk) ==> data[k] == old(data[k])
  {
    hide CounterBlock, XorByte;
    MaskChunk(data, offset, chunk, aes(key.bytes, key.length * 8, counter[..]));
    Increment(counter);
    CounterNext(nonce, block);
  }

  method CryptInPlace(aes: Aes, key: MeshKey, nonce: Block, data: array<byte>, len: nat)
    requires len <= data.Length && len < 0xFFF0
    modifies data
    ensures data[..len] == Crypt(aes, key, nonce, old(data[..len]))
    ensures forall k :: len <= k < data.Length ==> data[k] == old(data[k])
  {
    if key.length <= 0 || len == 0 {
      return;
    }
    hide CounterBlock, XorByte, Mask, Stream;
    ghost var plain := data[..len];
    ghost var masked := Crypt(aes, key, nonce, plain);
    var counter := new byte[16](i requires 0 <= i < 16 => nonce[i]);
    assert counter[..] == nonce;
    CounterZero(nonce);
    var offset := 0;
    ghost var block: nat := 0;
    while offset < len
      invariant offset == 16 * block
      invariant fresh(counter) && counter[..] == CounterBlock(nonce, block)
      invariant forall k :: 0 <= k < offset && k < len ==> data[k] == masked[k]
      invariant forall k :: offset <= k < len ==> data[k] == plain[k]
      invariant forall k :: len <= k < data.Length ==> data[k] == old(data[k])
      decreases len - offset
    {
      var chunk := if len - offset < 16 then len - offset else 16;
      CryptChunk(aes, key, nonce, data, chunk, counter, block, offset);
      MaskInBlock(Stream(aes, key, nonce), plain, block, chunk);
      offset := offset + 16;
      block := block + 1;
    }
  }
}
