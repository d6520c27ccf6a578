/** The ratcheting session (lunarcore/lunar/session.c).

    The first half gives the meaning of every operation as a function from state to state;
    the class in the second half is the in-place implementation, proved equal to it. */
module Session {
  import opened Bytes
  import opened Primitives
  import opened SkippedKeys

  const MAX_MESSAGES_BEFORE_RATCHET: nat := 100
  const VEC_CAPACITY: nat := 256
  const TAG_SIZE: nat := 16

  const ROOT_KEY_INFO: seq<byte> := Ascii("lunarpunk-root-key-v2")
  const CHAIN_KEY_INFO: seq<byte> := Ascii("lunarpunk-chain-key-v2")
  const MESSAGE_KEY_INFO: seq<byte> := Ascii("lunarpunk-message-key-v2")

  datatype Error = NotEstablished | InvalidFormat | DecryptionFailed | TooManySkipped

  datatype Header = Header(dhPublic: Key, prevChainLen: u64, messageNum: u64)

  /** A header with the ciphertext and its trailing 16-byte tag. */
  datatype Sealed = Sealed(header: Header, ciphertext: seq<byte>)

  datatype State = State(
    rootKey: Key,
    sendChainKey: Key,
    recvChainKey: Key,
    sendRatchetPrivate: Key,
    sendRatchetPublic: Key,
    recvRatchetPublic: Key,
    sendCount: u64,
    recvCount: u64,
    prevRecvChain: u64,
    skipped: seq<Slot>,
    established: bool)

  // ---------------------------------------------------------------- key derivation

  function Prefix(public: Key): (s: seq<byte>)
  {
    public[..8]
  }

  function HeaderBytes(h: Header): (s: seq<byte>)
    ensures |s| == 48
  {
    h.dhPublic + Le64(h.prevChainLen) + Le64(h.messageNum)
  }

  function MessageKey(p: Prims, chain: Key, n: u64): (k: Key)
  {
    p.hkdf(chain, Le64(n), MESSAGE_KEY_INFO)
  }

  function NextChain(p: Prims, chain: Key): (k: Key)
  {
    p.hkdf(chain, Ascii("chain-advance"), CHAIN_KEY_INFO)
  }

  function RatchetRoot(p: Prims, root: Key, dh: Key): (k: Key)
  {
    p.hkdf(root + dh, Ascii("root"), ROOT_KEY_INFO)
  }

  function RatchetChain(p: Prims, root: Key, dh: Key): (k: Key)
  {
    p.hkdf(root + dh, Ascii("chain"), CHAIN_KEY_INFO)
  }

  /** X25519 clamping: three low bits cleared, top bit cleared, next bit set. */
  function Clamp(random: Key): (k: Key)
  {
    var top := random[31] % 128;
    random[0 := random[0] - random[0] % 8][31 := if top < 64 then top + 64 else top]
  }

  // ---------------------------------------------------------------- the ratchets

  function AdvanceSend(p: Prims, st: State, private: Key): (r: State)
  {
    var dh := p.x25519(private, st.recvRatchetPublic);
    st.(rootKey := RatchetRoot(p, st.rootKey, dh),
        sendChainKey := RatchetChain(p, st.rootKey, dh),
        sendRatchetPrivate := private,
        sendRatchetPublic := p.x25519Base(private),
        prevRecvChain := st.recvCount,
        sendCount := 0)
  }

  function AdvanceRecv(p: Prims, st: State, theirs: Key): (r: State)
  {
    var dh := p.x25519(st.sendRatchetPrivate, theirs);
    st.(rootKey := RatchetRoot(p, st.rootKey, dh),
        recvChainKey := RatchetChain(p, st.rootKey, dh),
        recvRatchetPublic := theirs,
        recvCount := 0)
  }

  /** One skipped message: store its key, step the chain. */
  function SkipOne(p: Prims, st: State): (r: State)
    requires st.recvCount + 1 < 0x1_0000_0000_0000_0000
  {
    st.(skipped := Insert(st.skipped, Prefix(st.recvRatchetPublic), st.recvCount,
                          MessageKey(p, st.recvChainKey, st.recvCount)),
        recvChainKey := NextChain(p, st.recvChainKey),
        recvCount := st.recvCount + 1)
  }

  function SkipTo(p: Prims, st: State, until: u64): (r: State)
    ensures |r.skipped| == |st.skipped|
    decreases until - st.recvCount
  {
    if st.recvCount < until then SkipTo(p, SkipOne(p, st), until) else st
  }

  function SkipMessageKeys(p: Prims, st: State, until: u64): (r: Result<State, Error>)
  {
    if until - st.recvCount > MAX_SKIPPED_KEYS then Err(TooManySkipped) else Ok(SkipTo(p, st, until))
  }

  /** Step past message n of the current chain, after any skipping. */
  function PassMessage(p: Prims, st: State, n: u64): (r: State)
  {
    st.(recvChainKey := NextChain(p, st.recvChainKey),
        recvCount := (n + 1) % 0x1_0000_0000_0000_0000)
  }

  function GetMessageKey(p: Prims, st: State, h: Header): (r: (State, Result<Key, Error>))
    ensures |r.0.skipped| == |st.skipped|
  {
    match Lookup(st.skipped, Prefix(h.dhPublic), h.messageNum)
    case Some(key) =>
      (st.(skipped := Release(st.skipped, Prefix(h.dhPublic), h.messageNum)), Ok(key))
    case None =>
      match SkipMessageKeys(p, st, h.messageNum)
      case Err(e) => (st, Err(e))
      case Ok(st1) =>
        (PassMessage(p, st1, h.messageNum), Ok(MessageKey(p, st1.recvChainKey, h.messageNum)))
  }

  // ---------------------------------------------------------------- encryption and decryption

  function Seal(p: Prims, key: Key, h: Header, plaintext: seq<byte>): (c: seq<byte>)
    ensures |c| == |plaintext| + TAG_SIZE
  {
    var body := Ctr(p, key, Le64(h.messageNum), plaintext);
    body + Tag(p, key, HeaderBytes(h) + body)
  }

  /** Encryption. The chain key steps before the length checks, the counter only after them. */
  function Encrypt(p: Prims, st: State, plaintext: seq<byte>, random: Key): (r: (State, Result<Sealed, Error>))
    ensures |r.0.skipped| == |st.skipped|
  {
    if !st.established then (st, Err(NotEstablished))
    else
      var h := Header(st.sendRatchetPublic, st.prevRecvChain, st.sendCount);
      var key := MessageKey(p, st.sendChainKey, st.sendCount);
      var st1 := st.(sendChainKey := NextChain(p, st.sendChainKey));
      if |plaintext| + TAG_SIZE > VEC_CAPACITY then (st1, Err(InvalidFormat))
      else
        var st2 := st1.(sendCount := (st.sendCount + 1) % 0x1_0000_0000_0000_0000);
        var st3 := if st2.sendCount >= MAX_MESSAGES_BEFORE_RATCHET then AdvanceSend(p, st2, Clamp(random)) else st2;
        (st3, Ok(Sealed(h, Seal(p, key, h, plaintext))))
  }

  /** Undo Seal: check the tag, then unmask. */
  function Open(p: Prims, key: Key, h: Header, ciphertext: seq<byte>): (r: Result<seq<byte>, Error>)
    requires |ciphertext| >= TAG_SIZE
  {
    var body := ciphertext[..|ciphertext| - TAG_SIZE];
    if ciphertext[|ciphertext| - TAG_SIZE..] != Tag(p, key, HeaderBytes(h) + body) then Err(DecryptionFailed)
    else if |body| > VEC_CAPACITY then Err(InvalidFormat)
    else Ok(Ctr(p, key, Le64(h.messageNum), body))
  }

  /** Bring the receive side to the chain the header names. */
  function EnterChain(p: Prims, st: State, h: Header): (r: Result<State, Error>)
    ensures r.Ok? ==> |r.value.skipped| == |st.skipped|
  {
    if h.dhPublic == st.recvRatchetPublic then Ok(st)
    else
      match SkipMessageKeys(p, st, h.prevChainLen)
      case Err(e) => Err(e)
      case Ok(st1) => Ok(AdvanceRecv(p, st1, h.dhPublic))
  }

  function Decrypt(p: Prims, st: State, m: Sealed): (r: (State, Result<seq<byte>, Error>))
    ensures |r.0.skipped| == |st.skipped|
  {
    if !st.established then (st, Err(NotEstablished))
    else if |m.ciphertext| < TAG_SIZE then (st, Err(InvalidFormat))
    else
      match EnterChain(p, st, m.header)
      case Err(e) => (st, Err(e))
      case Ok(st1) =>
        var (st2, key) := GetMessageKey(p, st1, m.header);
        match key
        case Err(e) => (st2, Err(e))
        case Ok(k) => (st2, Open(p, k, m.header, m.ciphertext))
  }

  /** Opening with the sealing key and header gives the plaintext back. */
  lemma OpenSeal(p: Prims, key: Key, h: Header, plaintext: seq<byte>)
    requires |plaintext| + TAG_SIZE <= VEC_CAPACITY
    ensures Open(p, key, h, Seal(p, key, h, plaintext)) == Ok(plaintext)
  {
    var body := Ctr(p, key, Le64(h.messageNum), plaintext);
    var tag := Tag(p, key, HeaderBytes(h) + body);
    var c := Seal(p, key, h, plaintext);
    assert c == body + tag;
    assert c[..|c| - TAG_SIZE] == body && c[|c| - TAG_SIZE..] == tag;
    CtrTwice(p, key, Le64(h.messageNum), plaintext);
  }

  // ---------------------------------------------------------------- what goes over the air

  /** The bytes of a sealed message: header, every byte masked with its key stream byte, and the tag over header and
      masked bytes; and exactly when there is one. */
  lemma EncryptBytes(p: Prims, st: State, plaintext: seq<byte>, random: Key)
    ensures var (_, out) := Encrypt(p, st, plaintext, random);
      && (out == Err(NotEstablished) <==> !st.established)
      && (out == Err(InvalidFormat) <==> st.established && |plaintext| > 240)
      && (out.Ok? <==> st.established && |plaintext| <= 240)
      && (out.Ok? ==>
            var key := p.hkdf(st.sendChainKey, Le64(st.sendCount), Ascii("lunarpunk-message-key-v2"));
            var c := out.value.ciphertext;
            && out.value.header == Header(st.sendRatchetPublic, st.prevRecvChain, st.sendCount)
            && |c| == |plaintext| + 16
            && (forall k :: 0 <= k < |plaintext| ==>
                  c[k] == XorByte(plaintext[k], p.aes256(key, Le64(st.sendCount) + Le64(k / 16))[k % 16]))
            && c[|plaintext|..] == Tag(p, key, st.sendRatchetPublic + Le64(st.prevRecvChain) + Le64(st.sendCount)
                                               + c[..|plaintext|]))
  {
    if st.established && |plaintext| <= 240 {
      var key := MessageKey(p, st.sendChainKey, st.sendCount);
      SealBytes(p, key, Header(st.sendRatchetPublic, st.prevRecvChain, st.sendCount), plaintext);
    }
  }

  lemma SealBytes(p: Prims, key: Key, h: Header, plaintext: seq<byte>)
    requires |plaintext| <= 240
    ensures var c := Seal(p, key, h, plaintext);
      && (forall k :: 0 <= k < |plaintext| ==>
            c[k] == XorByte(plaintext[k], p.aes256(key, Le64(h.messageNum) + Le64(k / 16))[k % 16]))
      && c[|plaintext|..] == Tag(p, key, h.dhPublic + Le64(h.prevChainLen) + Le64(h.messageNum) + c[..|plaintext|])
  {
    hide XorByte, Le64;
    var c, body := Seal(p, key, h, plaintext), Ctr(p, key, Le64(h.messageNum), plaintext);
    assert c[..|plaintext|] == body;
    forall k | 0 <= k < |plaintext|
      ensures c[k] == XorByte(plaintext[k], p.aes256(key, Le64(h.messageNum) + Le64(k / 16))[k % 16])
    {
      assert c[k] == body[k];
      CtrByte(p, key, Le64(h.messageNum), plaintext, k);
    }
  }

  /** What opening with a key yields: the unmasked bytes exactly when the last 16 bytes are the tag of everything
      before them and there are at most 256 bytes; a wrong tag is reported whatever the length. */
  lemma OpenBytes(p: Prims, key: Key, h: Header, c: seq<byte>)
    requires |c| >= 16
    ensures var n := |c| - 16;
      var good := c[n..] == Tag(p, key, h.dhPublic + Le64(h.prevChainLen) + Le64(h.messageNum) + c[..n]);
      var out := Open(p, key, h, c);
      && (out == Err(DecryptionFailed) <==> !good)
      && (out == Err(InvalidFormat) <==> good && n > 256)
      && (out.Ok? <==> good && n <= 256)
      && (out.Ok? ==> |out.value| == n && forall k :: 0 <= k < n ==>
            out.value[k] == XorByte(c[k], p.aes256(key, Le64(h.messageNum) + Le64(k / 16))[k % 16]))
  {
    hide XorByte, Le64;
    var n := |c| - 16;
    var body := c[..n];
    if Open(p, key, h, c).Ok? {
      forall k | 0 <= k < n
        ensures Open(p, key, h, c).value[k] == XorByte(c[k], p.aes256(key, Le64(h.messageNum) + Le64(k / 16))[k % 16])
      {
        CtrByte(p, key, Le64(h.messageNum), body, k);
      }
    }
  }

  /** The keys after an encryption. Below the hundredth message only the chain steps and the count goes up; the
      hundredth draws a clamped private key and derives root and chain from the old root and its Diffie-Hellman
      output. */
  lemma EncryptKeys(p: Prims, st: State, plaintext: seq<byte>, random: Key)
    requires st.established && st.sendCount < 100 && |plaintext| <= 240
    ensures var r := Encrypt(p, st, plaintext, random).0;
      if st.sendCount < 99 then
        r == st.(sendCount := st.sendCount + 1,
                 sendChainKey := p.hkdf(st.sendChainKey, Ascii("chain-advance"), Ascii("lunarpunk-chain-key-v2")))
      else
        var dh := p.x25519(r.sendRatchetPrivate, st.recvRatchetPublic);
        && r == st.(sendCount := 0, prevRecvChain := st.recvCount,
                    sendRatchetPrivate := r.sendRatchetPrivate,
                    sendRatchetPublic := p.x25519Base(r.sendRatchetPrivate),
                    rootKey := p.hkdf(st.rootKey + dh, Ascii("root"), Ascii("lunarpunk-root-key-v2")),
                    sendChainKey := p.hkdf(st.rootKey + dh, Ascii("chain"), Ascii("lunarpunk-chain-key-v2")))
        && Clamped(random, r.sendRatchetPrivate)
  {
    ClampBits(random);
  }

  /** k is r with bits 0, 1, 2 and 255 clear and bit 254 set (section 5 of RFC 7748). */
  predicate Clamped(r: Key, k: Key)
  {
    && k[0] % 8 == 0 && k[0] / 8 == r[0] / 8
    && k[31] / 64 == 1 && k[31] % 64 == r[31] % 64
    && forall i :: 1 <= i < 31 ==> k[i] == r[i]
  }

  lemma ClampBits(random: Key)
    ensures Clamped(random, Clamp(random))
  {
  }

  /** Skipped keys of two publics are told apart exactly when their first eight bytes differ. */
  lemma PrefixBytes(a: Key, b: Key)
    ensures Prefix(a) == Prefix(b) <==> forall i :: 0 <= i < 8 ==> a[i] == b[i]
  {
    if forall i :: 0 <= i < 8 ==> a[i] == b[i] {
      assert a[..8] == b[..8];
    } else {
      var i :| 0 <= i < 8 && a[i] != b[i];
      assert a[..8][i] != b[..8][i];
    }
  }

  // ---------------------------------------------------------------- the implementation

  class Session {
    var rootKey: Key
    var sendChainKey: Key
    var recvChainKey: Key
    var sendRatchetPrivate: Key
    var sendRatchetPublic: Key
    var recvRatchetPublic: Key
    var sendCount: u64
    var recvCount: u64
    var prevRecvChain: u64
    var established: bool
    const table: Table

    ghost predicate Valid()
      reads this, table, table.slots
    {
      table.Valid()
    }

    ghost function View(): (st: State)
      reads this, table.slots
    {
      State(rootKey, sendChainKey, recvChainKey, sendRatchetPrivate, sendRatchetPublic, recvRatchetPublic,
                  sendCount, recvCount, prevRecvChain, table.slots[..], established)
    }

    /** An uninitialised session, as session_uninitialized leaves it. */
    constructor ()
      ensures Valid() && fresh(table) && fresh(table.slots)
      ensures !established && Room(View().skipped) == MAX_SKIPPED_KEYS
    {
      rootKey, sendChainKey, recvChainKey := Zeros(32), Zeros(32), Zeros(32);
      sendRatchetPrivate, sendRatchetPublic, recvRatchetPublic := Zeros(32), Zeros(32), Zeros(32);
      sendCount, recvCount, prevRecvChain, established := 0, 0, 0, false;
      table := new Table();
    }

    method AdvanceSendRatchet(p: Prims, random: Key)
      requires Valid()
      modifies this
      ensures Valid() && View() == AdvanceSend(p, old(View()), Clamp(random))
    {
      var private := Clamp(random);
      var public := p.x25519Base(private);
      var dh := p.x25519(private, recvRatchetPublic);
      var kdfInput := rootKey + dh;
      rootKey := p.hkdf(kdfInput, Ascii("root"), ROOT_KEY_INFO);
      sendChainKey := p.hkdf(kdfInput, Ascii("chain"), CHAIN_KEY_INFO);
      sendRatchetPrivate := private;
      sendRatchetPublic := public;
      prevRecvChain := recvCount;
      sendCount := 0;
    }

    method AdvanceRecvRatchet(p: Prims, theirs: Key)
      requires Valid()
      modifies this
      ensures Valid() && View() == AdvanceRecv(p, old(View()), theirs)
    {
      var dh := p.x25519(sendRatchetPrivate, theirs);
      var kdfInput := rootKey + dh;
      rootKey := p.hkdf(kdfInput, Ascii("root"), ROOT_KEY_INFO);
      recvChainKey := p.hkdf(kdfInput, Ascii("chain"), CHAIN_KEY_INFO);
      recvRatchetPublic := theirs;
      recvCount := 0;
    }

    method SkipKeys(p: Prims, until: u64) returns (r: Result<(), Error>)
      requires Valid()
      modifies this, table, table.slots
      ensures Valid()
      ensures match SkipMessageKeys(p, old(View()), until)
              case Ok(st) => r.Ok? && View() == st
              case Err(e) => r == Err(e) && View() == old(View())
    {
      ghost var target := SkipTo(p, View(), until);
      var toSkip := if until > recvCount then until - recvCount else 0;
      if toSkip > MAX_SKIPPED_KEYS {
        return Err(TooManySkipped);
      }
      while recvCount < until
        invariant Valid() && SkipTo(p, View(), until) == target
        decreases until - recvCount
      {
        ghost var st := View();
        var key := p.hkdf(recvChainKey, Le64(recvCount), MESSAGE_KEY_INFO);
        var _ := table.Put(recvRatchetPublic[..8], recvCount, key);
        recvChainKey := p.hkdf(recvChainKey, Ascii("chain-advance"), CHAIN_KEY_INFO);
        recvCount := recvCount + 1;
        assert View() == SkipOne(p, st);
      }
      return Ok(());
    }

    method TakeMessageKey(p: Prims, h: Header) returns (r: Result<Key, Error>)
      requires Valid()
      modifies this, table, table.slots
      ensures Valid()
      ensures (View(), r) == GetMessageKey(p, old(View()), h)
    {
      ghost var st := View();
      var found := table.Take(h.dhPublic[..8], h.messageNum);
      if found.Some? {
        return Ok(found.value);
      }
      assert View() == st by { LookupNoneReleases(st.skipped, Prefix(h.dhPublic), h.messageNum); }
      if h.messageNum > recvCount {
        var skip := SkipKeys(p, h.messageNum);
        if skip.Err? {
          return Err(skip.error);
        }
      }
      var key := p.hkdf(recvChainKey, Le64(h.messageNum), MESSAGE_KEY_INFO);
      recvChainKey := p.hkdf(recvChainKey, Ascii("chain-advance"), CHAIN_KEY_INFO);
      recvCount := (h.messageNum + 1) % 0x1_0000_0000_0000_0000;
      return Ok(key);
    }

    method EncryptMessage(p: Prims, plaintext: seq<byte>, random: Key) returns (r: Result<Sealed, Error>)
      requires Valid()
      modifies this
      ensures Valid() && (View(), r) == Encrypt(p, old(View()), plaintext, random)
    {
      if !established {
        return Err(NotEstablished);
      }
      var key := p.hkdf(sendChainKey, Le64(sendCount), MESSAGE_KEY_INFO);
      sendChainKey := p.hkdf(sendChainKey, Ascii("chain-advance"), CHAIN_KEY_INFO);
      var h := Header(sendRatchetPublic, prevRecvChain, sendCount);
      if |plaintext| > VEC_CAPACITY {
        return Err(InvalidFormat);
      }
      var buf := new byte[|plaintext|](i requires 0 <= i < |plaintext| => plaintext[i]);
      assert buf[..buf.Length] == plaintext;
      CtrInPlace(p, key, Le64(sendCount), buf, buf.Length);
      assert buf[..] == buf[..buf.Length];
      var tag := ComputeTag(p, key, HeaderBytes(h) + buf[..]);
      if buf.Length + TAG_SIZE > VEC_CAPACITY {
        return Err(InvalidFormat);
      }
      var ciphertext := buf[..] + tag;
      sendCount := (sendCount + 1) % 0x1_0000_0000_0000_0000;
      if sendCount >= MAX_MESSAGES_BEFORE_RATCHET {
        AdvanceSendRatchet(p, random);
      }
      return Ok(Sealed(h, ciphertext));
    }

    method DecryptMessage(p: Prims, m: Sealed) returns (r: Result<seq<byte>, Error>)
      requires Valid()
      modifies this, table, table.slots
      ensures Valid() && (View(), r) == Decrypt(p, old(View()), m)
    {
      if !established {
        return Err(NotEstablished);
      }
      if |m.ciphertext| < TAG_SIZE {
        return Err(InvalidFormat);
      }
      if m.header.dhPublic != recvRatchetPublic {
        var skip := SkipKeys(p, m.header.prevChainLen);
        if skip.Err? {
          return Err(skip.error);
        }
        AdvanceRecvRatchet(p, m.header.dhPublic);
      }
      var key := TakeMessageKey(p, m.header);
      if key.Err? {
        return Err(key.error);
      }
      var tagStart := |m.ciphertext| - TAG_SIZE;
      var body := m.ciphertext[..tagStart];
      var expected := ComputeTag(p, key.value, HeaderBytes(m.header) + body);
      var same := ConstantTimeEq(m.ciphertext[tagStart..], expected);
      if !same {
        return Err(DecryptionFailed);
      }
      if |body| > VEC_CAPACITY {
        return Err(InvalidFormat);
      }
      var buf := new byte[|body|](i requires 0 <= i < |body| => body[i]);
      assert buf[..buf.Length] == body;
      CtrInPlace(p, key.value, Le64(m.header.messageNum), buf, buf.Length);
      return Ok(buf[..buf.Length]);
    }
  }

  lemma {:induction false} LookupNoneReleases(slots: seq<Slot>, prefix: seq<byte>, num: u64)
    requires Lookup(slots, prefix, num).None?
    ensures Release(slots, prefix, num) == slots
  {
    if slots != [] {
      LookupNoneReleases(slots[1..], prefix, num);
    }
  }
}
