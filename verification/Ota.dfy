/** The over-the-air updater (lunarcore/src/ota.rs): a state machine fed with chunks of any size.

    Flash calls may fail; whether each one succeeds is a parameter.  The flash partition is part of the
    state: the bytes written since it was opened, and a log of every attempt to switch the
    boot partition. */
module Ota {
  import opened Bytes
  import opened Primitives

  const MAX_FIRMWARE_SIZE: nat := 3_584_000
  const HEADER_SIZE: nat := 144
  const MAX_TRUSTED_KEYS: nat := 2
  const OTA_HEADER_MAGIC: seq<byte> := [0x4C, 0x55, 0x4E, 0x41]
  const OTA_HEADER_VERSION: byte := 1

  type Signature = s: seq<byte> | |s| == 64 witness seq(64, _ => 0)

  /** SHA-256 and Ed25519 verification (public key, message, signature), uninterpreted. */
  datatype Crypto = Crypto(sha256: seq<byte> -> Key, verify: (Key, seq<byte>, Signature) -> bool)

  datatype Header = Header(
    headerSize: byte, major: byte, minor: byte, patch: byte, reserved: seq<byte>,
    firmwareSize: u32, firmwareHash: Key, signature: Signature, publicKey: Key)

  datatype Error =
    | InvalidHeader | SignatureInvalid | HashMismatch | TooLarge | FlashError | PartitionError
    | Busy | Aborted | DowngradeRejected | NoTrustedKeys

  datatype Phase = Idle | ReceivingHeader | Receiving | Verifying | Writing | Complete | Failed(error: Error)

  /** Which flash calls succeed during one operation, and the handle that opening the partition returns. */
  datatype Flash = Flash(partition: bool, begin: bool, write: bool, end: bool, setBoot: bool, handle: u32)

  predicate Succeeds(io: Flash)
  {
    io.partition && io.begin && io.write && io.end && io.setBoot
  }

  /** What held when the boot partition was asked to be switched, whether or not that succeeded: the bytes in it, the
      header, and the trusted keys and minimum version as they stood when that header was accepted. */
  datatype Attempt = Attempt(image: seq<byte>, header: Header, trusted: seq<Key>, minVersion: u32)

  datatype State = State(
    phase: Phase,
    headerBuf: seq<byte>,
    header: Option<Header>,
    bytesReceived: u32,
    hashed: seq<byte>,
    handle: u32,
    trusted: seq<Key>,
    progress: byte,
    minVersion: u32,
    // the flash partition and the record of attempts to boot from it
    flash: seq<byte>,
    attempts: seq<Attempt>,
    // trusted keys and minimum version when the current header was accepted
    keysThen: seq<Key>,
    minThen: u32)

  const NEW: State := State(Idle, [], None, 0, [], 0, [], 0, 0, [], [], [], 0)

  // ---------------------------------------------------------------- header

  function PackVersion(major: byte, minor: byte, patch: byte): (v: u32)
  {
    major * 0x1_0000 + minor * 0x100 + patch
  }

  function ParseHeader(data: seq<byte>): (h: Option<Header>)
  {
    if |data| < HEADER_SIZE || data[..4] != OTA_HEADER_MAGIC || data[4] != OTA_HEADER_VERSION then None
    else Some(Header(data[5], data[6], data[7], data[8], data[9..12],
                     ReadLe32(data[12..16]), data[16..48], data[48..112], data[112..144]))
  }

  /** Signed by one of the trusted keys over the firmware hash. */
  predicate SignedBy(c: Crypto, h: Header, trusted: seq<Key>)
  {
    h.publicKey in trusted && c.verify(h.publicKey, h.firmwareHash, h.signature)
  }

  function CheckHeader(c: Crypto, h: Header, trusted: seq<Key>, minVersion: u32): (e: Option<Error>)
  {
    if h.firmwareSize > MAX_FIRMWARE_SIZE then Some(TooLarge)
    else if trusted == [] then Some(NoTrustedKeys)
    else if PackVersion(h.major, h.minor, h.patch) < minVersion then Some(DowngradeRejected)
    else if !SignedBy(c, h, trusted) then Some(SignatureInvalid)
    else None
  }

  // ---------------------------------------------------------------- operations

  /** What the subtraction of bytes received from the firmware size relies on. */
  predicate Sane(st: State)
  {
    && |st.headerBuf| <= HEADER_SIZE
    && (st.phase == ReceivingHeader ==> st.bytesReceived == 0)
    && (st.header.Some? ==> st.bytesReceived <= st.header.value.firmwareSize)
  }

  function AddKey(st: State, key: Key): (r: State)
  {
    if |st.trusted| >= MAX_TRUSTED_KEYS then st else st.(trusted := st.trusted + [key])
  }

  function Begin(st: State, io: Flash): (r: (State, Option<Error>))
  {
    if st.phase != Idle then (st, Some(Busy))
    else
      var st1 := st.(headerBuf := [], header := None, bytesReceived := 0, hashed := [], progress := 0);
      if !io.partition then (st1, Some(PartitionError))
      else if !io.begin then (st1, Some(FlashError))
      else (st1.(phase := ReceivingHeader, handle := io.handle, flash := []), None)
  }

  function Abort(st: State): (r: State)
  {
    st.(handle := 0, phase := Idle)
  }

  function VerifyAndFinish(c: Crypto, st: State, io: Flash): (r: (State, Option<Error>))
  {
    if st.header.None? then (st, Some(InvalidHeader))
    else if c.sha256(st.hashed) != st.header.value.firmwareHash then (Abort(st), Some(HashMismatch))
    else if !io.end then (st.(phase := Failed(FlashError)), Some(FlashError))
    else
      var st1 := st.(attempts := st.attempts + [Attempt(st.flash, st.header.value, st.keysThen, st.minThen)]);
      if !io.setBoot then (st1.(phase := Failed(PartitionError)), Some(PartitionError))
      else (st1.(phase := Complete, progress := 100), None)
  }

  lemma QuotientBound(a: nat, d: nat, limit: nat)
    requires d > 0 && a <= limit * d
    ensures a / d <= limit
  {
    if a / d > limit {
      MulMonotone(limit + 1, a / d, d);
    }
  }

  lemma MulMonotone(x: nat, y: nat, d: nat)
    requires x <= y
    ensures x * d <= y * d
  {
  }

  /** Progress in percent, truncated to a byte. */
  function Percent(received: nat, size: nat): (r: byte)
    requires size > 0
  {
    received * 100 / size % 0x100
  }

  /** The bytes taken from a chunk: as many as the image still lacks. */
  function Store(st: State, data: seq<byte>): (r: State)
    requires st.header.Some? && 0 < |data| <= st.header.value.firmwareSize - st.bytesReceived
  {
    var n := st.bytesReceived + |data|;
    st.(hashed := st.hashed + data, flash := st.flash + data, bytesReceived := n,
        progress := Percent(n, st.header.value.firmwareSize))
  }

  /** After storing: wait for more, or check the complete image. */
  function Settle(c: Crypto, st: State, io: Flash): (r: (State, Option<Error>))
    requires st.header.Some?
  {
    if st.bytesReceived < st.header.value.firmwareSize then (st, None)
    else VerifyAndFinish(c, st.(phase := Verifying), io)
  }

  function WriteFirmware(c: Crypto, st: State, data: seq<byte>, io: Flash): (r: (State, Result<nat, Error>))
    requires Sane(st) && st.phase != ReceivingHeader
    ensures Sane(r.0)
  {
    if st.header.None? then (st, Err(InvalidHeader))
    else
      var n := Min(|data|, st.header.value.firmwareSize - st.bytesReceived);
      if n == 0 then (st, Ok(0))
      else if !io.write then
        (st.(hashed := st.hashed + data[..n], phase := Failed(FlashError)), Err(FlashError))
      else
        var (st1, e) := Settle(c, Store(st, data[..n]), io);
        (st1, if e.Some? then Err(e.value) else Ok(n))
  }

  function Accept(st: State, h: Header): (r: State)
  {
    st.(header := Some(h), phase := Receiving, keysThen := st.trusted, minThen := st.minVersion)
  }

  /** Once the header buffer is full: parse, check, and pass the rest of the chunk on to the image. */
  function JudgeHeader(c: Crypto, st: State, rest: seq<byte>, io: Flash): (r: (State, Result<nat, Error>))
    requires Sane(st) && st.phase == ReceivingHeader
    ensures Sane(r.0)
  {
    match ParseHeader(st.headerBuf)
    case None => (st, Err(InvalidHeader))
    case Some(h) =>
      match CheckHeader(c, h, st.trusted, st.minVersion)
      case Some(e) => (st.(phase := Failed(e)), Err(e))
      case None => if rest == [] then (Accept(st, h), Ok(0)) else WriteFirmware(c, Accept(st, h), rest, io)
  }

  function WriteHeader(c: Crypto, st: State, data: seq<byte>, io: Flash): (r: (State, Result<nat, Error>))
    requires Sane(st) && st.phase == ReceivingHeader
    ensures Sane(r.0)
  {
    var n := Min(|data|, HEADER_SIZE - |st.headerBuf|);
    var st1 := st.(headerBuf := st.headerBuf + data[..n]);
    if |st1.headerBuf| < HEADER_SIZE then (st1, Ok(n))
    else
      var (st2, r) := JudgeHeader(c, st1, data[n..], io);
      (st2, if r.Ok? then Ok(n + r.value) else r)
  }

  function Write(c: Crypto, st: State, data: seq<byte>, io: Flash): (r: (State, Result<nat, Error>))
    requires Sane(st)
    ensures Sane(r.0)
  {
    match st.phase
    case Idle => (st, Err(Aborted))
    case Failed(e) => (st, Err(e))
    case ReceivingHeader => WriteHeader(c, st, data, io)
    case Receiving => WriteFirmware(c, st, data, io)
    case Writing => WriteFirmware(c, st, data, io)
    case _ => (st, Ok(0))
  }

  // ---------------------------------------------------------------- versions, headers, beginning and aborting

  /** Version a.b.c is older than d.e.f. */
  predicate Older(a: byte, b: byte, c: byte, d: byte, e: byte, f: byte)
  {
    a < d || (a == d && (b < e || (b == e && c < f)))
  }

  /** Packed versions compare as versions do: major, then minor, then patch. */
  lemma PackOrder(a: byte, b: byte, c: byte, d: byte, e: byte, f: byte)
    ensures PackVersion(a, b, c) < PackVersion(d, e, f) <==> Older(a, b, c, d, e, f)
    ensures PackVersion(a, b, c) == a * 0x1_0000 + b * 0x100 + c
  {
  }

  /** Once a.b.c is the minimum, an otherwise acceptable header is rejected exactly when its version is older. */
  lemma DowngradeRejectedExactly(c: Crypto, st: State, h: Header, major: byte, minor: byte, patch: byte)
    requires Sane(st) && CheckHeader(c, h, st.trusted, 0).None?
    ensures var st1 := Do(c, st, DoSetMinVersion(major, minor, patch));
      && st1 == st.(minVersion := st1.minVersion)
      && CheckHeader(c, h, st1.trusted, st1.minVersion) ==
         if Older(h.major, h.minor, h.patch, major, minor, patch) then Some(DowngradeRejected) else None
  {
    PackOrder(h.major, h.minor, h.patch, major, minor, patch);
  }

  /** The one reason a header is rejected for, first things first. */
  lemma RejectionReason(c: Crypto, h: Header, trusted: seq<Key>, minVersion: u32)
    ensures var e := CheckHeader(c, h, trusted, minVersion);
      var small := h.firmwareSize <= 3_584_000;
      var recent := h.major * 0x1_0000 + h.minor * 0x100 + h.patch >= minVersion;
      var signed := h.publicKey in trusted && c.verify(h.publicKey, h.firmwareHash, h.signature);
      && (e == Some(TooLarge) <==> !small)
      && (e == Some(NoTrustedKeys) <==> small && trusted == [])
      && (e == Some(DowngradeRejected) <==> small && trusted != [] && !recent)
      && (e == Some(SignatureInvalid) <==> small && trusted != [] && recent && !signed)
      && (e == None <==> small && recent && signed)
  {
  }

  /** A header's 144 bytes: "LUNA", format 1, header size, version, three reserved bytes, firmware size, hash,
      signature, key. */
  function HeaderBytes(h: Header): (s: seq<byte>)
    requires |h.reserved| == 3
    ensures |s| == 144
  {
    [0x4C, 0x55, 0x4E, 0x41, 1, h.headerSize, h.major, h.minor, h.patch] + h.reserved + Le32(h.firmwareSize)
    + h.firmwareHash + h.signature + h.publicKey
  }

  /** Reading a header is the inverse of laying it out, and only byte strings laid out like this are read. */
  lemma HeaderLayout(h: Header, rest: seq<byte>)
    requires |h.reserved| == 3
    ensures ParseHeader(HeaderBytes(h) + rest) == Some(h)
  {
    hide Le32, ReadLe32;
    var s := HeaderBytes(h) + rest;
    Le32RoundTrip(h.firmwareSize);
    assert s[..4] == [0x4C, 0x55, 0x4E, 0x41] && s[9..12] == h.reserved && s[12..16] == Le32(h.firmwareSize);
    assert s[16..48] == h.firmwareHash && s[48..112] == h.signature && s[112..144] == h.publicKey;
  }

  lemma HeaderInverse(s: seq<byte>)
    ensures ParseHeader(s).Some? <==> |s| >= 144 && s[..5] == [0x4C, 0x55, 0x4E, 0x41, 1]
    ensures ParseHeader(s).Some? ==> |ParseHeader(s).value.reserved| == 3 && HeaderBytes(ParseHeader(s).value) == s[..144]
  {
    if |s| >= 144 {
      assert s[..5] == s[..4] + [s[4]];
      if s[..5] == [0x4C, 0x55, 0x4E, 0x41, 1] {
        assert s[..4] == s[..5][..4] && s[4] == s[..5][4];
        LeInverse(s[12..16]);
        assert s[..144] == s[..4] + [s[4], s[5], s[6], s[7], s[8]] + s[9..12] + s[12..16] + s[16..48] + s[48..112]
                           + s[112..144];
      }
    }
  }

  /** Beginning works only from Idle, reports a missing partition before a flash error, and starts from nothing; after
      an abort, from any state whatever, it starts afresh with the keys and minimum version kept. */
  lemma AbortThenBegin(st: State, io: Flash)
    ensures (Begin(st, io).1 == Some(Busy) <==> st.phase != Idle) && (st.phase != Idle ==> Begin(st, io).0 == st)
    ensures var (st1, e) := Begin(Abort(st), io);
      && (e == Some(PartitionError) <==> !io.partition)
      && (e == Some(FlashError) <==> io.partition && !io.begin)
      && (e == None <==> io.partition && io.begin)
      && st1 == (if e.None? then NEW.(phase := ReceivingHeader, flash := [], handle := io.handle)
                 else NEW.(phase := Idle, flash := st.flash, handle := 0))
                .(trusted := st.trusted, minVersion := st.minVersion, attempts := st.attempts, keysThen := st.keysThen,
                  minThen := st.minThen)
  {
  }

  /** What a complete image comes to: a wrong hash returns the updater to Idle before anything is finished, and a flash
      failure is remembered, an attempt to switch the boot partition having been made only once the image is closed. */
  lemma FinishOutcome(c: Crypto, st: State, io: Flash)
    requires st.header.Some?
    ensures var (st1, e) := VerifyAndFinish(c, st, io);
      var matches := c.sha256(st.hashed) == st.header.value.firmwareHash;
      && (e == Some(HashMismatch) <==> !matches) && (!matches ==> st1.phase == Idle && st1.handle == 0)
      && (e == Some(FlashError) <==> matches && !io.end)
      && (e == Some(PartitionError) <==> matches && io.end && !io.setBoot)
      && (e == None <==> matches && io.end && io.setBoot)
      && (matches ==> st1.phase == if e.Some? then Failed(e.value) else Complete)
      && |st1.attempts| == |st.attempts| + (if matches && io.end then 1 else 0)
      && (e == None ==> st1.progress == 100)
  {
  }

  /** Writes that store nothing: outside an update, after a failure, after completion, and when flash refuses. */
  lemma WriteRefused(c: Crypto, st: State, data: seq<byte>, io: Flash)
    requires Sane(st)
    ensures st.phase == Idle ==> Write(c, st, data, io) == (st, Err(Aborted))
    ensures st.phase.Failed? ==> Write(c, st, data, io) == (st, Err(st.phase.error))
    ensures st.phase == Complete || st.phase == Verifying ==> Write(c, st, data, io) == (st, Ok(0))
    ensures st.phase == Receiving && st.header.Some? && st.bytesReceived < st.header.value.firmwareSize
            && data != [] && !io.write ==>
      var (st1, r) := Write(c, st, data, io);
      r == Err(FlashError) && st1.phase == Failed(FlashError) && st1.flash == st.flash && st1.bytesReceived == st.bytesReceived
  {
  }

  predicate Accounted(st: State, st1: State, offered: nat, taken: nat)
  {
    && taken <= offered
    && |st1.headerBuf| + st1.bytesReceived == |st.headerBuf| + st.bytesReceived + taken
    && (taken < offered ==> st1.header.Some? && st1.bytesReceived == st1.header.value.firmwareSize)
  }

  lemma FirmwareConserves(c: Crypto, st: State, data: seq<byte>, io: Flash)
    requires Sane(st) && st.phase != ReceivingHeader && WriteFirmware(c, st, data, io).1.Ok?
    ensures var (st1, r) := WriteFirmware(c, st, data, io);
      Accounted(st, st1, |data|, r.value) && st1.headerBuf == st.headerBuf
  {
    hide Percent;
  }

  /** A write that succeeds accounts for every byte it says it took: they went into the header buffer or the image, and
      it took all it was offered unless the image is full. */
  lemma WriteConserves(c: Crypto, st: State, data: seq<byte>, io: Flash)
    requires Sane(st) && (st.phase == ReceivingHeader || st.phase == Receiving)
    requires Write(c, st, data, io).1.Ok?
    ensures var (st1, r) := Write(c, st, data, io);
      Accounted(st, st1, |data|, r.value)
  {
    hide WriteFirmware, ParseHeader, CheckHeader;
    if st.phase == Receiving {
      FirmwareConserves(c, st, data, io);
    } else {
      var n := Min(|data|, HEADER_SIZE - |st.headerBuf|);
      var full := st.(headerBuf := st.headerBuf + data[..n]);
      var h := ParseHeader(full.headerBuf);
      if |full.headerBuf| == HEADER_SIZE && h.Some? && n < |data| {
        FirmwareConserves(c, Accept(full, h.value), data[n..], io);
      }
    }
  }

  // ---------------------------------------------------------------- safety of every run

  datatype Step =
    | DoAddKey(key: Key)
    | DoSetMinVersion(major: byte, minor: byte, patch: byte)
    | DoBegin(io: Flash)
    | DoWrite(data: seq<byte>, io: Flash)
    | DoAbort

  function Do(c: Crypto, st: State, step: Step): (r: State)
    requires Sane(st)
    ensures Sane(r)
  {
    match step
    case DoAddKey(key) => AddKey(st, key)
    case DoSetMinVersion(major, minor, patch) => st.(minVersion := PackVersion(major, minor, patch))
    case DoBegin(io) => Begin(st, io).0
    case DoWrite(data, io) => Write(c, st, data, io).0
    case DoAbort => Abort(st)
  }

  function Run(c: Crypto, st: State, steps: seq<Step>): (r: State)
    requires Sane(st)
    decreases |steps|
  {
    if steps == [] then st else Run(c, Do(c, st, steps[0]), steps[1..])
  }

  /** The attempt was justified: the partition held exactly the announced number of bytes, they hash to
      the header's hash, and a key trusted at the time signed that hash for a version not below the minimum. */
  ghost predicate Justified(c: Crypto, b: Attempt)
  {
    && |b.image| == b.header.firmwareSize && 1 <= |b.image| <= 3_584_000
    && c.sha256(b.image) == b.header.firmwareHash
    && b.header.publicKey in b.trusted && c.verify(b.header.publicKey, b.header.firmwareHash, b.header.signature)
    && b.header.major * 0x1_0000 + b.header.minor * 0x100 + b.header.patch >= b.minVersion
  }

  ghost predicate Inv(c: Crypto, st: State)
  {
    && Sane(st)
    && |st.trusted| <= MAX_TRUSTED_KEYS && st.progress <= 100
    && (st.phase == ReceivingHeader ==> st.hashed == [] && st.flash == [])
    && (st.phase == Receiving || st.phase == Writing ==> Filling(c, st))
    && forall b :: b in st.attempts ==> Justified(c, b)
  }

  /** An accepted header, with the hasher and the partition fed the same bytes so far. */
  ghost predicate Filling(c: Crypto, st: State)
  {
    && st.header.Some?
    && CheckHeader(c, st.header.value, st.keysThen, st.minThen).None?
    && st.hashed == st.flash && |st.flash| == st.bytesReceived
  }

  lemma PercentBound(received: nat, size: nat)
    requires received <= size && size > 0
    ensures Percent(received, size) == received * 100 / size <= 100
  {
    QuotientBound(received * 100, size, 100);
  }

  lemma FirmwareSafe(c: Crypto, st: State, data: seq<byte>, io: Flash)
    requires Inv(c, st) && Filling(c, st)
    requires st.phase == Receiving || st.phase == Writing
    ensures Inv(c, WriteFirmware(c, st, data, io).0)
  {
    var size := st.header.value.firmwareSize;
    var n := Min(|data|, size - st.bytesReceived);
    if n > 0 && io.write {
      PercentBound(st.bytesReceived + n, size);
      var st1 := Store(st, data[..n]);
      if st1.bytesReceived >= size {
        var st2 := WriteFirmware(c, st, data, io).0;
        forall b | b in st2.attempts
          ensures Justified(c, b)
        {
        }
      }
    }
  }

  lemma HeaderSafe(c: Crypto, st: State, data: seq<byte>, io: Flash)
    requires Inv(c, st) && st.phase == ReceivingHeader
    ensures Inv(c, WriteHeader(c, st, data, io).0)
  {
    hide WriteFirmware, ParseHeader, CheckHeader, Justified;
    var n := Min(|data|, HEADER_SIZE - |st.headerBuf|);
    var st1 := st.(headerBuf := st.headerBuf + data[..n]);
    if |st1.headerBuf| == HEADER_SIZE {
      var h := ParseHeader(st1.headerBuf);
      if h.Some? && CheckHeader(c, h.value, st.trusted, st.minVersion).None? {
        assert Inv(c, Accept(st1, h.value));
        FirmwareSafe(c, Accept(st1, h.value), data[n..], io);
      }
    }
  }

  lemma StepSafe(c: Crypto, st: State, step: Step)
    requires Inv(c, st)
    ensures Inv(c, Do(c, st, step))
  {
    if step.DoWrite? {
      if st.phase == Receiving || st.phase == Writing {
        FirmwareSafe(c, st, step.data, step.io);
      } else if st.phase == ReceivingHeader {
        HeaderSafe(c, st, step.data, step.io);
      }
    }
  }

  lemma {:induction false} RunKeepsInv(c: Crypto, st: State, steps: seq<Step>)
    requires Inv(c, st)
    ensures Inv(c, Run(c, st, steps))
    decreases |steps|
  {
    if steps != [] {
      StepSafe(c, st, steps[0]);
      RunKeepsInv(c, Do(c, st, steps[0]), steps[1..]);
    }
  }

  /** In every run from a new manager, every attempt to switch the boot partition was justified and progress stays
      within 100. */
  lemma OnlyJustifiedAttempts(c: Crypto, steps: seq<Step>)
    ensures var st := Run(c, NEW, steps);
      st.progress <= 100 && forall b :: b in st.attempts ==> Justified(c, b)
  {
    RunKeepsInv(c, NEW, steps);
  }

  // ---------------------------------------------------------------- chunking

  lemma StoreTwice(st: State, a: seq<byte>, b: seq<byte>)
    requires st.header.Some? && a != [] && b != [] && |a| + |b| <= st.header.value.firmwareSize - st.bytesReceived
    ensures Store(Store(st, a), b) == Store(st, a + b)
  {
    assert st.hashed + a + b == st.hashed + (a + b);
    assert st.flash + a + b == st.flash + (a + b);
  }

  lemma FirmwareFills(c: Crypto, st: State, a: seq<byte>, b: seq<byte>, io: Flash)
    requires Sane(st) && st.header.Some? && (st.phase == Receiving || st.phase == Writing)
    requires |a| >= st.header.value.firmwareSize - st.bytesReceived
    ensures WriteFirmware(c, st, a + b, io).0 == WriteFirmware(c, st, a, io).0
    ensures var st1 := WriteFirmware(c, st, a, io).0;
      st1 == st || st1.phase == Complete || st1.phase == Idle || st1.phase.Failed?
  {
    var left := st.header.value.firmwareSize - st.bytesReceived;
    assert (a + b)[..left] == a[..left];
  }

  lemma FirmwareFull(c: Crypto, st: State, a: seq<byte>, b: seq<byte>, io: Flash)
    requires Sane(st) && Succeeds(io) && st.header.Some? && (st.phase == Receiving || st.phase == Writing)
    requires |a| >= st.header.value.firmwareSize - st.bytesReceived
    ensures Write(c, WriteFirmware(c, st, a, io).0, b, io).0 == WriteFirmware(c, st, a + b, io).0
  {
    FirmwareFills(c, st, a, b, io);
    if st.bytesReceived == st.header.value.firmwareSize {
      assert WriteFirmware(c, st, a, io).0 == st == WriteFirmware(c, st, b, io).0;
    }
  }

  lemma FirmwarePartial(c: Crypto, st: State, a: seq<byte>, b: seq<byte>, io: Flash)
    requires Sane(st) && Succeeds(io) && st.header.Some? && (st.phase == Receiving || st.phase == Writing)
    requires 0 < |a| < st.header.value.firmwareSize - st.bytesReceived && b != []
    ensures Write(c, WriteFirmware(c, st, a, io).0, b, io).0 == WriteFirmware(c, st, a + b, io).0
  {
    var m := Min(|b|, st.header.value.firmwareSize - st.bytesReceived - |a|);
    assert a[..|a|] == a;
    assert WriteFirmware(c, st, a, io).0 == Store(st, a);
    assert (a + b)[..|a| + m] == a + b[..m];
    StoreTwice(st, a, b[..m]);
  }

  lemma FirmwareSplit(c: Crypto, st: State, a: seq<byte>, b: seq<byte>, io: Flash)
    requires Sane(st) && Succeeds(io)
    requires st.phase == Receiving || st.phase == Writing
    ensures Write(c, WriteFirmware(c, st, a, io).0, b, io).0 == WriteFirmware(c, st, a + b, io).0
  {
    if st.header.Some? {
      if |a| >= st.header.value.firmwareSize - st.bytesReceived {
        FirmwareFull(c, st, a, b, io);
      } else if a == [] {
        assert a + b == b && WriteFirmware(c, st, a, io).0 == st;
      } else if b == [] {
        assert a + b == a;
        EmptyWrite(c, WriteFirmware(c, st, a, io).0, io);
      } else {
        FirmwarePartial(c, st, a, b, io);
      }
    }
  }

  lemma EmptyWrite(c: Crypto, st: State, io: Flash)
    requires Sane(st) && st.phase != ReceivingHeader
    ensures Write(c, st, [], io).0 == st
  {
  }

  lemma JudgeSplit(c: Crypto, st: State, a: seq<byte>, b: seq<byte>, io: Flash)
    requires Sane(st) && Succeeds(io) && st.phase == ReceivingHeader && |st.headerBuf| == HEADER_SIZE
    ensures Write(c, JudgeHeader(c, st, a, io).0, b, io).0 == JudgeHeader(c, st, a + b, io).0
  {
    var h := ParseHeader(st.headerBuf);
    if h.None? {
      assert st.headerBuf + b[..0] == st.headerBuf;
    } else if CheckHeader(c, h.value, st.trusted, st.minVersion).None? {
      var st1 := Accept(st, h.value);
      FirmwareSplit(c, st1, a, b, io);
      EmptyWrite(c, st1, io);
    }
  }

  lemma HeaderShort(c: Crypto, st: State, data: seq<byte>, io: Flash)
    requires Sane(st) && st.phase == ReceivingHeader && |data| < HEADER_SIZE - |st.headerBuf|
    ensures WriteHeader(c, st, data, io) == (st.(headerBuf := st.headerBuf + data[..|data|]), Ok(|data|))
  {
  }

  lemma HeaderFull(c: Crypto, st: State, full: State, data: seq<byte>, io: Flash)
    requires Sane(st) && st.phase == ReceivingHeader && |data| >= HEADER_SIZE - |st.headerBuf|
    requires full == st.(headerBuf := st.headerBuf + data[..HEADER_SIZE - |st.headerBuf|])
    ensures var n := HEADER_SIZE - |st.headerBuf|;
      var (st1, r) := JudgeHeader(c, full, data[n..], io);
      WriteHeader(c, st, data, io) == (st1, if r.Ok? then Ok(n + r.value) else r)
  {
  }

  lemma HeaderLate(c: Crypto, st: State, a: seq<byte>, b: seq<byte>, io: Flash)
    requires Sane(st) && Succeeds(io) && st.phase == ReceivingHeader && |a| >= HEADER_SIZE - |st.headerBuf|
    ensures Write(c, WriteHeader(c, st, a, io).0, b, io).0 == WriteHeader(c, st, a + b, io).0
  {
    var need := HEADER_SIZE - |st.headerBuf|;
    var full := st.(headerBuf := st.headerBuf + a[..need]);
    assert WriteHeader(c, st, a, io).0 == JudgeHeader(c, full, a[need..], io).0;
    assert WriteHeader(c, st, a + b, io).0 == JudgeHeader(c, full, a[need..] + b, io).0 by {
      assert (a + b)[..need] == a[..need] && (a + b)[need..] == a[need..] + b;
    }
    JudgeSplit(c, full, a[need..], b, io);
  }

  lemma HeaderEarly(c: Crypto, st: State, a: seq<byte>, b: seq<byte>, io: Flash)
    requires Sane(st) && st.phase == ReceivingHeader && |a| < HEADER_SIZE - |st.headerBuf|
    ensures Write(c, WriteHeader(c, st, a, io).0, b, io).0 == WriteHeader(c, st, a + b, io).0
  {
    hide JudgeHeader;
    var m := Min(|b|, HEADER_SIZE - |st.headerBuf| - |a|);
    assert a[..|a|] == a;
    var st1 := st.(headerBuf := st.headerBuf + a);
    assert WriteHeader(c, st, a, io).0 == st1;
    assert (a + b)[..|a| + m] == a + b[..m] && (a + b)[|a| + m..] == b[m..];
    assert st1.headerBuf + b[..m] == st.headerBuf + (a + b)[..|a| + m];
  }

  lemma HeaderSplit(c: Crypto, st: State, a: seq<byte>, b: seq<byte>, io: Flash)
    requires Sane(st) && Succeeds(io) && st.phase == ReceivingHeader
    ensures Write(c, WriteHeader(c, st, a, io).0, b, io).0 == WriteHeader(c, st, a + b, io).0
  {
    if |a| >= HEADER_SIZE - |st.headerBuf| {
      HeaderLate(c, st, a, b, io);
    } else {
      HeaderEarly(c, st, a, b, io);
    }
  }

  /** Writing two chunks one after the other is writing them at once: same manager state, hasher input,
      flash contents and boot attempts, in every state and for every split. */
  lemma WriteSplit(c: Crypto, st: State, a: seq<byte>, b: seq<byte>, io: Flash)
    requires Sane(st) && Succeeds(io)
    ensures Write(c, Write(c, st, a, io).0, b, io).0 == Write(c, st, a + b, io).0
  {
    match st.phase
    case ReceivingHeader => HeaderSplit(c, st, a, b, io);
    case Receiving => FirmwareSplit(c, st, a, b, io);
    case Writing => FirmwareSplit(c, st, a, b, io);
    case _ =>
  }

  function WriteAll(c: Crypto, st: State, chunks: seq<seq<byte>>, io: Flash): (r: State)
    requires Sane(st)
    decreases |chunks|
  {
    if chunks == [] then st else WriteAll(c, Write(c, st, chunks[0], io).0, chunks[1..], io)
  }

  /** Any chunking of a stream does what one write of the whole stream does. */
  lemma {:induction false} AnyChunking(c: Crypto, st: State, chunks: seq<seq<byte>>, io: Flash)
    requires Sane(st) && Succeeds(io) && chunks != []
    ensures WriteAll(c, st, chunks, io) == Write(c, st, Flatten(chunks), io).0
    decreases |chunks|
  {
    if |chunks| == 1 {
      assert Flatten(chunks) == chunks[0] + Flatten(chunks[1..]) == chunks[0];
    } else {
      AnyChunking(c, Write(c, st, chunks[0], io).0, chunks[1..], io);
      WriteSplit(c, st, chunks[0], Flatten(chunks[1..]), io);
    }
  }

  lemma HeaderThenFirmware(c: Crypto, st: State, head: seq<byte>, rest: seq<byte>, io: Flash)
    requires Sane(st) && st.phase == ReceivingHeader && st.headerBuf == []
    requires |head| == HEADER_SIZE && ParseHeader(head).Some? && rest != []
    requires CheckHeader(c, ParseHeader(head).value, st.trusted, st.minVersion).None?
    ensures Write(c, st, head + rest, io).0 ==
            WriteFirmware(c, Accept(st.(headerBuf := head), ParseHeader(head).value), rest, io).0
  {
    assert (head + rest)[..HEADER_SIZE] == head && (head + rest)[HEADER_SIZE..] == rest;
    assert [] + head == head;
  }

  lemma ImageStored(c: Crypto, st: State, image: seq<byte>, extra: seq<byte>, io: Flash)
    requires Sane(st) && st.phase == Receiving && st.header.Some? && st.bytesReceived == 0 && Succeeds(io)
    requires st.hashed == [] && st.flash == []
    requires |image| == st.header.value.firmwareSize && |image| > 0
    ensures WriteFirmware(c, st, image + extra, io).0 ==
            VerifyAndFinish(c, Store(st, image).(phase := Verifying), io).0
    ensures Store(st, image).hashed == image && Store(st, image).flash == image
  {
    assert (image + extra)[..|image|] == image;
  }

  /** An acceptable header followed by its image, in any chunks and with anything after it: a good image ends
      Complete with exactly that image booted, an image with another hash ends Idle and boots nothing. */
  lemma ImageOutcome(c: Crypto, st: State, chunks: seq<seq<byte>>, head: seq<byte>, image: seq<byte>, extra: seq<byte>, io: Flash)
    requires Sane(st) && Succeeds(io) && st.phase == Idle
    requires |head| == HEADER_SIZE && Flatten(chunks) == head + (image + extra)
    requires ParseHeader(head).Some?
    requires CheckHeader(c, ParseHeader(head).value, st.trusted, st.minVersion).None?
    requires |image| == ParseHeader(head).value.firmwareSize && |image| > 0
    ensures var h, r := ParseHeader(head).value, WriteAll(c, Begin(st, io).0, chunks, io);
      if c.sha256(image) == h.firmwareHash then
        r.phase == Complete && r.progress == 100 && r.flash == image &&
        r.attempts == st.attempts + [Attempt(image, h, st.trusted, st.minVersion)]
      else
        r.phase == Idle && r.attempts == st.attempts
  {
    var st0 := Begin(st, io).0;
    AnyChunking(c, st0, chunks, io);
    HeaderThenFirmware(c, st0, head, image + extra, io);
    ImageStored(c, Accept(st0.(headerBuf := head), ParseHeader(head).value), image, extra, io);
  }

  // ---------------------------------------------------------------- the implementation

  class OtaManager {
    var phase: Phase
    const headerBuf: array<byte>
    var headerReceived: nat
    var header: Option<Header>
    var bytesReceived: u32
    var hashed: seq<byte>
    var handle: u32
    var trusted: seq<Key>
    var progress: byte
    var minVersion: u32
    ghost var flash: seq<byte>
    ghost var attempts: seq<Attempt>
    ghost var keysThen: seq<Key>
    ghost var minThen: u32

    ghost predicate Valid()
      reads this, headerBuf
    {
      headerBuf.Length == HEADER_SIZE && headerReceived <= HEADER_SIZE && |trusted| <= MAX_TRUSTED_KEYS && Sane(View())
    }

    ghost function View(): (st: State)
      reads this, headerBuf
      requires headerReceived <= headerBuf.Length
    {
      State(phase, headerBuf[..headerReceived], header, bytesReceived, hashed, handle, trusted, progress, minVersion,
            flash, attempts, keysThen, minThen)
    }

    constructor ()
      ensures Valid() && View() == NEW && fresh(headerBuf)
    {
      phase, headerReceived, header, bytesReceived := Idle, 0, None, 0;
      headerBuf := new byte[HEADER_SIZE](_ => 0);
      hashed, handle, trusted, progress, minVersion := [], 0, [], 0, 0;
      flash, attempts, keysThen, minThen := [], [], [], 0;
    }

    method AddTrustedKey(key: Key) returns (added: bool)
      requires Valid()
      modifies this
      ensures Valid() && View() == AddKey(old(View()), key)
      ensures (added <==> |old(trusted)| < 2) && trusted == if added then old(trusted) + [key] else old(trusted)
    {
      if |trusted| >= MAX_TRUSTED_KEYS {
        return false;
      }
      trusted := trusted + [key];
      return true;
    }

    method BeginUpdate(io: Flash) returns (error: Option<Error>)
      requires Valid()
      modifies this, headerBuf
      ensures Valid() && (View(), error) == Begin(old(View()), io)
    {
      if phase != Idle {
        return Some(Busy);
      }
      forall i | 0 <= i < headerBuf.Length {
        headerBuf[i] := 0;
      }
      headerReceived, header, bytesReceived, hashed, progress := 0, None, 0, [], 0;
      if !io.partition {
        return Some(PartitionError);
      }
      if !io.begin {
        return Some(FlashError);
      }
      handle := io.handle;
      flash := [];
      phase := ReceivingHeader;
      return None;
    }

    method WriteChunk(c: Crypto, data: seq<byte>, io: Flash) returns (r: Result<nat, Error>)
      requires Valid()
      modifies this, headerBuf
      ensures Valid() && (View(), r) == Write(c, old(View()), data, io)
    {
      match phase
      case Idle => r := Err(Aborted);
      case Failed(e) => r := Err(e);
      case ReceivingHeader => r := FillHeader(c, data, io);
      case Receiving => r := FillFirmware(c, data, io);
      case Writing => r := FillFirmware(c, data, io);
      case _ => r := Ok(0);
    }

    /** Copy header bytes, at most as many as are still needed. */
    method CopyHeader(data: seq<byte>) returns (n: nat)
      requires Valid() && phase == ReceivingHeader
      modifies this`headerReceived, headerBuf
      ensures Valid() && n == Min(|data|, HEADER_SIZE - old(headerReceived))
      ensures headerReceived == old(headerReceived) + n
      ensures View() == old(View()).(headerBuf := old(View()).headerBuf + data[..n])
    {
      n := Min(|data|, HEADER_SIZE - headerReceived);
      ghost var before := headerBuf[..headerReceived];
      for i := 0 to n
        modifies headerBuf
        invariant headerBuf[..headerReceived + i] == before + data[..i]
      {
        headerBuf[headerReceived + i] := data[i];
        assert headerBuf[..headerReceived + i + 1] == headerBuf[..headerReceived + i] + [data[i]];
      }
      headerReceived := headerReceived + n;
    }

    method RejectHeader(c: Crypto, h: Header) returns (e: Option<Error>)
      requires Valid()
      ensures e == CheckHeader(c, h, trusted, minVersion)
    {
      if h.firmwareSize > MAX_FIRMWARE_SIZE {
        return Some(TooLarge);
      }
      if |trusted| == 0 {
        return Some(NoTrustedKeys);
      }
      if PackVersion(h.major, h.minor, h.patch) < minVersion {
        return Some(DowngradeRejected);
      }
      var signed := VerifySignature(c, h);
      return if signed then None else Some(SignatureInvalid);
    }

    method Judge(c: Crypto, rest: seq<byte>, io: Flash) returns (r: Result<nat, Error>)
      requires Valid() && phase == ReceivingHeader
      modifies this
      ensures Valid() && (View(), r) == JudgeHeader(c, old(View()), rest, io)
    {
      var parsed := ParseHeader(headerBuf[..headerReceived]);
      if parsed.None? {
        return Err(InvalidHeader);
      }
      var e := RejectHeader(c, parsed.value);
      if e.Some? {
        phase := Failed(e.value);
        return Err(e.value);
      }
      header, phase, keysThen, minThen := parsed, Receiving, trusted, minVersion;
      if |rest| == 0 {
        return Ok(0);
      }
      r := FillFirmware(c, rest, io);
    }

    method FillHeader(c: Crypto, data: seq<byte>, io: Flash) returns (r: Result<nat, Error>)
      requires Valid() && phase == ReceivingHeader
      modifies this, headerBuf
      ensures Valid() && (View(), r) == WriteHeader(c, old(View()), data, io)
    {
      hide JudgeHeader, WriteHeader, Sane;
      ghost var st := View();
      assert |st.headerBuf| == headerReceived;
      var n := CopyHeader(data);
      ghost var full := View();
      if headerReceived < HEADER_SIZE {
        HeaderShort(c, st, data, io);
        return Ok(n);
      }
      HeaderFull(c, st, full, data, io);
      r := Judge(c, data[n..], io);
      assert (View(), r) == JudgeHeader(c, full, data[n..], io);
      if r.Ok? {
        r := Ok(n + r.value);
      }
    }

    /** After a successful flash write: account for the bytes. */
    method CountWritten(data: seq<byte>)
      requires header.Some? && 0 < |data| <= header.value.firmwareSize - bytesReceived
      modifies this`flash, this`bytesReceived, this`progress
      ensures flash == old(flash) + data && bytesReceived == old(bytesReceived) + |data|
      ensures progress == Percent(bytesReceived, header.value.firmwareSize)
    {
      flash := flash + data;
      bytesReceived := bytesReceived + |data|;
      progress := Percent(bytesReceived, header.value.firmwareSize);
    }

    method FillFirmware(c: Crypto, data: seq<byte>, io: Flash) returns (r: Result<nat, Error>)
      requires Valid() && phase != ReceivingHeader
      modifies this
      ensures Valid() && (View(), r) == WriteFirmware(c, old(View()), data, io)
    {
      hide Percent, VerifyAndFinish;
      if header.None? {
        return Err(InvalidHeader);
      }
      var size := header.value.firmwareSize;
      var n := Min(|data|, size - bytesReceived);
      if n == 0 {
        return Ok(0);
      }
      ghost var st := View();
      hashed := hashed + data[..n];
      if !io.write {
        phase := Failed(FlashError);
        return Err(FlashError);
      }
      CountWritten(data[..n]);
      assert View() == Store(st, data[..n]);
      if bytesReceived >= size {
        phase := Verifying;
        var e := Finish(c, io);
        if e.Some? {
          return Err(e.value);
        }
      }
      return Ok(n);
    }

    method Finish(c: Crypto, io: Flash) returns (error: Option<Error>)
      requires Valid()
      modifies this
      ensures Valid() && headerReceived == old(headerReceived)
      ensures (View(), error) == VerifyAndFinish(c, old(View()), io)
    {
      if header.None? {
        return Some(InvalidHeader);
      }
      if c.sha256(hashed) != header.value.firmwareHash {
        phase := Failed(HashMismatch);
        AbortUpdate();
        return Some(HashMismatch);
      }
      if !io.end {
        phase := Failed(FlashError);
        return Some(FlashError);
      }
      attempts := attempts + [Attempt(flash, header.value, keysThen, minThen)];
      if !io.setBoot {
        phase := Failed(PartitionError);
        return Some(PartitionError);
      }
      phase := Complete;
      progress := 100;
      return None;
    }

    method VerifySignature(c: Crypto, h: Header) returns (valid: bool)
      ensures valid <==> SignedBy(c, h, trusted)
    {
      for i := 0 to |trusted|
        invariant !SignedBy(c, h, trusted[..i])
      {
        var same := ConstantTimeEq(h.publicKey, trusted[i]);
        if same && c.verify(h.publicKey, h.firmwareHash, h.signature) {
          return true;
        }
        assert trusted[..i + 1] == trusted[..i] + [trusted[i]];
      }
      assert trusted[..|trusted|] == trusted;
      return false;
    }

    method AbortUpdate()
      requires Valid()
      modifies this
      ensures Valid() && View() == Abort(old(View()))
    {
      if handle != 0 {
        handle := 0;
      }
      phase := Idle;
    }
  }
}
