/** Packet identifiers that survive power loss (lunarcore/lunar/packet_id.c).

    Counters live in RAM; every 256 identifiers a checkpoint goes to RTC memory, one word at a time.
    Power may fail between any two of those writes, and an identifier counts as issued only when the
    call that produced it returns. */
module PacketId {
  import opened Bytes

  const RTC_MAGIC: u32 := 0x4C55_4E42
  const MAX_SEQUENCE: u32 := 0xFFFF_FFFE
  const WAKE_SEQUENCE_SKIP: u32 := 256
  const WORD: int := 0x1_0000_0000

  // ---------------------------------------------------------------- the mixer

  function XorShift(x: u32, k: nat): (r: u32)
  {
    XorWord(x, Shr(x, k))
  }

  function MulWord(x: u32, c: u32): (r: u32)
  {
    (x * c) % WORD
  }

  function Mix32(x: u32): (r: u32)
  {
    XorShift(MulWord(XorShift(MulWord(XorShift(x, 16), 0x85EB_CA6B), 13), 0xC2B2_AE35), 16)
  }

  /** The inverse of Mix32: its steps undone in reverse order. */
  function Unmix32(y: u32): (r: u32)
  {
    XorShift(MulWord(UndoShift13(MulWord(XorShift(y, 16), 0x7ED1_B41D)), 0xA5CB_9243), 16)
  }

  function UndoShift13(y: u32): (r: u32)
  {
    XorWord(XorShift(y, 13), Shr(y, 26))
  }

  lemma XorShift16Undone(x: u32)
    ensures XorShift(XorShift(x, 16), 16) == x
  {
    Pow2Words();
    var s := Shr(x, 16);
    XorShr(x, s, 16);
    ShrAdd(x, 16, 16);
    ShrVanishes(x, 32);
    XorZero(s);
    XorCancel(x, s);
  }

  lemma XorShift13Undone(x: u32)
    ensures UndoShift13(XorShift(x, 13)) == x
  {
    Pow2Words();
    var a, b := Shr(x, 13), Shr(x, 26);
    var y := XorShift(x, 13);
    ShrAdd(x, 13, 13);
    XorShr(x, a, 13);
    assert Shr(y, 13) == Xor(a, b);
    ShrAdd(y, 13, 13);
    XorShr(a, b, 13);
    ShrAdd(x, 26, 13);
    ShrAdd(x, 32, 7);
    ShrVanishes(x, 32);
    XorZero(b);
    assert Shr(y, 26) == b;
    XorAssoc(Xor(x, a), a, b);
    XorCancel(x, a);
    XorCancel(x, b);
  }

  lemma MulUndone(x: u32, c: u32, inverse: u32, q: nat)
    requires c * inverse == q * WORD + 1
    ensures MulWord(MulWord(x, c), inverse) == x
  {
    var d := (x * c) / WORD;
    var y := MulWord(x, c);
    assert x * c == d * WORD + y;
    assert (x * c) * inverse == x * (c * inverse) == (x * q) * WORD + x;
    assert (d * WORD + y) * inverse == (d * inverse) * WORD + y * inverse;
    assert y * inverse == (x * q - d * inverse) * WORD + x;
    ModAbsorbs(x, x * q - d * inverse);
  }

  lemma {:induction false} ModAbsorbs(x: u32, k: int)
    ensures (k * WORD + x) % WORD == x
    decreases if k < 0 then -k else k
  {
    if k > 0 {
      ModAbsorbs(x, k - 1);
    } else if k < 0 {
      ModAbsorbs(x, k + 1);
    }
  }

  lemma FirstMulUndone(x: u32)
    ensures MulWord(MulWord(x, 0x85EB_CA6B), 0xA5CB_9243) == x
  {
    MulUndone(x, 0x85EB_CA6B, 0xA5CB_9243, 1455126516);
  }

  lemma SecondMulUndone(x: u32)
    ensures MulWord(MulWord(x, 0xC2B2_AE35), 0x7ED1_B41D) == x
  {
    MulUndone(x, 0xC2B2_AE35, 0x7ED1_B41D, 1618177690);
  }

  /** Mix32 loses nothing: it is a bijection of the 32-bit words. */
  lemma MixRoundTrip(x: u32)
    ensures Unmix32(Mix32(x)) == x
  {
    var x1 := XorShift(x, 16);
    var x2 := MulWord(x1, 0x85EB_CA6B);
    var x3 := XorShift(x2, 13);
    var x4 := MulWord(x3, 0xC2B2_AE35);
    assert Unmix32(Mix32(x)) == x by {
      XorShift16Undone(x4);
      SecondMulUndone(x3);
      XorShift13Undone(x2);
      FirstMulUndone(x1);
      XorShift16Undone(x);
    }
  }

  /** The identifier of one sequence number of one session. */
  function PacketIdOf(session: u32, sequence: u32): (id: u32)
  {
    Mix32(XorWord(session, MulWord(sequence, 0x85EB_CA6B)))
  }

  lemma XorWordInjective(session: u32, a: u32, b: u32)
    ensures XorWord(session, a) == XorWord(session, b) ==> a == b
  {
    XorComm(session, a);
    XorComm(session, b);
    XorCancel(a, session);
    XorCancel(b, session);
  }

  /** Within a session the identifier determines the sequence number. */
  lemma IdsDistinct(session: u32, a: u32, b: u32)
    ensures PacketIdOf(session, a) == PacketIdOf(session, b) <==> a == b
  {
    if PacketIdOf(session, a) == PacketIdOf(session, b) {
      var ma, mb := MulWord(a, 0x85EB_CA6B), MulWord(b, 0x85EB_CA6B);
      MixRoundTrip(XorWord(session, ma));
      MixRoundTrip(XorWord(session, mb));
      XorWordInjective(session, ma, mb);
      FirstMulUndone(a);
      FirstMulUndone(b);
    }
  }

  lemma XorShiftIs(x: u32)
    ensures XorShift(x, 16) == Xor(x, x / 0x1_0000) && XorShift(x, 13) == Xor(x, x / 0x2000)
  {
    Pow2Words();
    assert Pow2(13) == 0x2000;
    ShrBounds(x, 16);
    ShrBounds(x, 13);
  }

  /** The identifier in plain arithmetic: the 32-bit finalizer of MurmurHash3 over session and scaled sequence. */
  lemma IdentifierWritten(session: u32, sequence: u32)
    ensures var x := Xor(session, sequence * 0x85EB_CA6B % 0x1_0000_0000);
      var a := Xor(x, x / 0x1_0000) * 0x85EB_CA6B % 0x1_0000_0000;
      var b := Xor(a, a / 0x2000) * 0xC2B2_AE35 % 0x1_0000_0000;
      PacketIdOf(session, sequence) == Xor(b, b / 0x1_0000)
  {
    hide XorShift, Xor;
    var x := XorWord(session, MulWord(sequence, 0x85EB_CA6B));
    XorShiftIs(x);
    var a := MulWord(XorShift(x, 16), 0x85EB_CA6B);
    XorShiftIs(a);
    var b := MulWord(XorShift(a, 13), 0xC2B2_AE35);
    XorShiftIs(b);
  }

  // ---------------------------------------------------------------- state and RTC writes

  datatype Rtc = Rtc(session: u32, sequence: u32, bootCount: u32, magic: u32)

  datatype Write = SessionSlot(v: u32) | SequenceSlot(v: u32) | BootCountSlot(v: u32) | MagicSlot(v: u32)

  datatype Ram = Ram(session: u32, sequence: u32, bootCount: u32, initialized: bool)

  const POWER_ON: Ram := Ram(0, 0, 0, false)

  function Apply(rtc: Rtc, w: Write): (r: Rtc)
  {
    match w
    case SessionSlot(v) => rtc.(session := v)
    case SequenceSlot(v) => rtc.(sequence := v)
    case BootCountSlot(v) => rtc.(bootCount := v)
    case MagicSlot(v) => rtc.(magic := v)
  }

  function ApplyAll(rtc: Rtc, ws: seq<Write>): (r: Rtc)
    decreases |ws|
  {
    if ws == [] then rtc else ApplyAll(Apply(rtc, ws[0]), ws[1..])
  }

  lemma {:induction false} ApplyConcat(rtc: Rtc, a: seq<Write>, b: seq<Write>)
    ensures ApplyAll(rtc, a + b) == ApplyAll(ApplyAll(rtc, a), b)
    decreases |a|
  {
    if a == [] {
      assert a + b == b;
    } else {
      assert (a + b)[1..] == a[1..] + b;
      ApplyConcat(Apply(rtc, a[0]), a[1..], b);
    }
  }

  // ---------------------------------------------------------------- the operations

  /** Initialisation from RTC memory: the new RAM state and the RTC writes, in order. */
  function Wake(ram: Ram, rtc: Rtc, newSession: u32): (r: (Ram, seq<Write>))
  {
    if ram.initialized then (ram, [])
    else if rtc.magic == RTC_MAGIC then
      var boot := (rtc.bootCount + 1) % WORD;
      var skipped := (rtc.sequence + WAKE_SEQUENCE_SKIP) % WORD;
      var (session, sequence) :=
        if rtc.sequence >= MAX_SEQUENCE then (newSession, 0)
        else (rtc.session, if skipped < rtc.sequence then MAX_SEQUENCE else skipped);
      (Ram(session, sequence, boot, true), [BootCountSlot(boot), SessionSlot(session), SequenceSlot(sequence)])
    else
      (Ram(newSession, 0, 0, true), [MagicSlot(RTC_MAGIC), BootCountSlot(0), SessionSlot(newSession), SequenceSlot(0)])
  }

  function RotateNow(ram: Ram, newSession: u32): (r: (Ram, seq<Write>))
  {
    (ram.(session := newSession, sequence := 0), [SessionSlot(newSession), SequenceSlot(0)])
  }

  /** Drawing one identifier from initialised state. */
  function Draw(ram: Ram, newSession: u32): (r: (Ram, seq<Write>))
  {
    var counted := ram.(sequence := (ram.sequence + 1) % WORD);
    var (rotated, ws) := if ram.sequence >= MAX_SEQUENCE then RotateNow(counted, newSession) else (counted, []);
    (rotated, ws + if ram.sequence % 256 == 0 then [SessionSlot(ram.session), SequenceSlot(ram.sequence)] else [])
  }

  // ---------------------------------------------------------------- the implementation

  class Generator {
    var session: u32
    var sequence: u32
    var bootCount: u32
    var initialized: bool
    /** RTC slow memory: outlives the RAM fields above. */
    var rtc: Rtc
    /** Every RTC write so far, in order. */
    ghost var trace: seq<Write>

    constructor (memory: Rtc)
      ensures View() == POWER_ON && rtc == memory && trace == []
    {
      session, sequence, bootCount, initialized := 0, 0, 0, false;
      rtc, trace := memory, [];
    }

    ghost function View(): (ram: Ram)
      reads this
    {
      Ram(session, sequence, bootCount, initialized)
    }

    method RtcWrite(w: Write)
      modifies this`rtc, this`trace
      ensures rtc == Apply(old(rtc), w) && trace == old(trace) + [w]
    {
      rtc := Apply(rtc, w);
      trace := trace + [w];
    }

    method Init(newSession: u32)
      modifies this
      ensures var (ram, ws) := Wake(old(View()), old(rtc), newSession);
        View() == ram && trace == old(trace) + ws && rtc == ApplyAll(old(rtc), ws)
    {
      if initialized {
        return;
      }
      initialized := true;
      var s, q, b: u32 := newSession, 0, 0;
      var stored := rtc;
      if stored.magic == RTC_MAGIC {
        b := (stored.bootCount + 1) % WORD;
        if stored.sequence < MAX_SEQUENCE {
          q := (stored.sequence + WAKE_SEQUENCE_SKIP) % WORD;
          if q < stored.sequence {
            q := MAX_SEQUENCE;
          }
          s := stored.session;
        }
      } else {
        RtcWrite(MagicSlot(RTC_MAGIC));
      }
      bootCount := b;
      RtcWrite(BootCountSlot(b));
      session := s;
      sequence := q;
      RtcWrite(SessionSlot(s));
      RtcWrite(SequenceSlot(q));
      ghost var ws := Wake(old(View()), old(rtc), newSession).1;
      assert trace == old(trace) + ws;
      ApplyFour(old(rtc), ws);
    }

    method RotateInternal(newSession: u32)
      modifies this
      ensures var (ram, ws) := RotateNow(old(View()), newSession);
        View() == ram && trace == old(trace) + ws && rtc == ApplyAll(old(rtc), ws)
    {
      session := newSession;
      sequence := 0;
      RtcWrite(SessionSlot(newSession));
      RtcWrite(SequenceSlot(0));
      ApplyFour(old(rtc), RotateNow(old(View()), newSession).1);
    }

    /** The part of next_packet_id that follows initialisation. */
    method DrawId(newSession: u32) returns (id: u32)
      modifies this
      ensures var (ram, ws) := Draw(old(View()), newSession);
        View() == ram && trace == old(trace) + ws && rtc == ApplyAll(old(rtc), ws)
      ensures id == PacketIdOf(old(session), old(sequence))
    {
      var q := sequence;
      sequence := (sequence + 1) % WORD;
      var s := session;
      if q >= MAX_SEQUENCE {
        RotateInternal(newSession);
      }
      ghost var before, memory := trace, rtc;
      ghost var checkpoint := if q % 256 == 0 then [SessionSlot(s), SequenceSlot(q)] else [];
      if q % 256 == 0 {
        RtcWrite(SessionSlot(s));
        RtcWrite(SequenceSlot(q));
      }
      assert trace == before + checkpoint;
      ApplyFour(memory, checkpoint);
      ghost var rotation := if q >= MAX_SEQUENCE then [SessionSlot(newSession), SequenceSlot(0)] else [];
      ApplyConcat(old(rtc), rotation, checkpoint);
      return Mix32(XorWord(s, MulWord(q, 0x85EB_CA6B)));
    }

    method NextPacketId(wakeSession: u32, newSession: u32) returns (id: u32)
      modifies this
      ensures var (ram, ws) := Wake(old(View()), old(rtc), wakeSession);
        var (ram1, ws1) := Draw(ram, newSession);
        && View() == ram1 && trace == old(trace) + (ws + ws1) && rtc == ApplyAll(old(rtc), ws + ws1)
        && id == PacketIdOf(ram.session, ram.sequence)
    {
      Init(wakeSession);
      ghost var ram := View();
      id := DrawId(newSession);
      ApplyConcat(old(rtc), Wake(old(View()), old(rtc), wakeSession).1, Draw(ram, newSession).1);
    }

    method RotateSession(wakeSession: u32, newSession: u32)
      modifies this
      ensures var (ram, ws) := Wake(old(View()), old(rtc), wakeSession);
        var (ram1, ws1) := RotateNow(ram, newSession);
        View() == ram1 && trace == old(trace) + (ws + ws1) && rtc == ApplyAll(old(rtc), ws + ws1)
    {
      Init(wakeSession);
      ghost var ram := View();
      RotateInternal(newSession);
      ApplyConcat(old(rtc), Wake(old(View()), old(rtc), wakeSession).1, RotateNow(ram, newSession).1);
    }
  }

  /** Writing at most four slots, spelled out. */
  lemma ApplyFour(rtc: Rtc, ws: seq<Write>)
    requires |ws| <= 4
    ensures |ws| == 0 ==> ApplyAll(rtc, ws) == rtc
    ensures |ws| == 1 ==> ApplyAll(rtc, ws) == Apply(rtc, ws[0])
    ensures |ws| == 2 ==> ApplyAll(rtc, ws) == Apply(Apply(rtc, ws[0]), ws[1])
    ensures |ws| == 3 ==> ApplyAll(rtc, ws) == Apply(Apply(Apply(rtc, ws[0]), ws[1]), ws[2])
    ensures |ws| == 4 ==> ApplyAll(rtc, ws) == Apply(Apply(Apply(Apply(rtc, ws[0]), ws[1]), ws[2]), ws[3])
  {
    if |ws| > 1 {
      ApplyThree(Apply(rtc, ws[0]), ws[1..]);
    }
  }

  lemma ApplyThree(rtc: Rtc, ws: seq<Write>)
    requires 1 <= |ws| <= 3
    ensures |ws| == 1 ==> ApplyAll(rtc, ws) == Apply(rtc, ws[0])
    ensures |ws| == 2 ==> ApplyAll(rtc, ws) == Apply(Apply(rtc, ws[0]), ws[1])
    ensures |ws| == 3 ==> ApplyAll(rtc, ws) == Apply(Apply(Apply(rtc, ws[0]), ws[1]), ws[2])
  {
    if |ws| > 1 {
      ApplyTwo(Apply(rtc, ws[0]), ws[1..]);
    }
  }

  lemma ApplyTwo(rtc: Rtc, ws: seq<Write>)
    requires 1 <= |ws| <= 2
    ensures |ws| == 1 ==> ApplyAll(rtc, ws) == Apply(rtc, ws[0])
    ensures |ws| == 2 ==> ApplyAll(rtc, ws) == Apply(Apply(rtc, ws[0]), ws[1])
  {
    var ws1 := ws[1..];
    if |ws| == 2 {
      assert ws1[1..] == [];
      assert ApplyAll(Apply(rtc, ws[0]), ws1) == Apply(Apply(rtc, ws[0]), ws1[0]);
    }
  }

  // ---------------------------------------------------------------- runs with power loss

  datatype Op = Next | Rotate

  /** A completed call, an invalidation of RTC memory, or power loss after the first `writes` RTC writes of a call. */
  datatype Step =
    | Call(op: Op, wakeSession: u32, newSession: u32)
    | Invalidate
    | Crash(op: Op, wakeSession: u32, newSession: u32, writes: nat)

  /** RTC memory and RAM, and the (session, sequence) pairs issued so far. */
  datatype Device = Device(rtc: Rtc, ram: Ram, issued: seq<(u32, u32)>)

  function OpEffect(op: Op, ram: Ram, newSession: u32): (r: (Ram, seq<Write>))
  {
    match op case Next => Draw(ram, newSession) case Rotate => RotateNow(ram, newSession)
  }

  function StepWrites(d: Device, op: Op, wakeSession: u32, newSession: u32): (ws: seq<Write>)
  {
    var (ram, ws) := Wake(d.ram, d.rtc, wakeSession);
    ws + OpEffect(op, ram, newSession).1
  }

  function Do(d: Device, step: Step): (r: Device)
  {
    match step
    case Call(op, wakeSession, newSession) =>
      var ram := Wake(d.ram, d.rtc, wakeSession).0;
      Device(ApplyAll(d.rtc, StepWrites(d, op, wakeSession, newSession)),
             OpEffect(op, ram, newSession).0,
             d.issued + if op.Next? then [(ram.session, ram.sequence)] else [])
    case Invalidate =>
      d.(rtc := Apply(d.rtc, MagicSlot(0)))
    case Crash(op, wakeSession, newSession, writes) =>
      var ws := StepWrites(d, op, wakeSession, newSession);
      Device(ApplyAll(d.rtc, ws[..Min(writes, |ws|)]), POWER_ON, d.issued)
  }

  /** Waking draws a session identifier when RTC memory is not valid, or its session is used up. */
  predicate WakeDraws(ram: Ram, rtc: Rtc)
  {
    !ram.initialized && (rtc.magic != RTC_MAGIC || rtc.sequence >= MAX_SEQUENCE)
  }

  /** A rotation draws one, and so does the call that takes the last number of a session. */
  predicate OpDraws(op: Op, ram: Ram)
  {
    op.Rotate? || ram.sequence >= MAX_SEQUENCE
  }

  /** Nothing has been issued under this session identifier. */
  predicate Unused(issued: seq<(u32, u32)>, session: u32)
  {
    forall e :: e in issued ==> e.0 != session
  }

  /** Where an operation draws an identifier, nothing has been issued under it, the number in the making included. */
  predicate DrawFresh(op: Op, ram: Ram, issued: seq<(u32, u32)>, newSession: u32)
  {
    OpDraws(op, ram) ==> Unused(issued, newSession) && (op.Next? ==> newSession != ram.session)
  }

  /** The session identifiers a step draws, if it draws any, are unused. */
  predicate DrawsFresh(d: Device, step: Step)
  {
    step.Invalidate? ||
    (&& (WakeDraws(d.ram, d.rtc) ==> Unused(d.issued, step.wakeSession))
     && DrawFresh(step.op, Wake(d.ram, d.rtc, step.wakeSession).0, d.issued, step.newSession))
  }

  predicate FreshRun(d: Device, steps: seq<Step>)
    decreases |steps|
  {
    steps == [] || (DrawsFresh(d, steps[0]) && FreshRun(Do(d, steps[0]), steps[1..]))
  }

  function Run(d: Device, steps: seq<Step>): (r: Device)
    decreases |steps|
  {
    if steps == [] then d else Run(Do(d, steps[0]), steps[1..])
  }

  /** The checkpoint bounds everything issued in its session. */
  ghost predicate Covered(rtc: Rtc, issued: seq<(u32, u32)>)
  {
    forall e :: e in issued && e.0 == rtc.session ==> e.1 <= rtc.sequence + 255 && e.1 < MAX_SEQUENCE
  }

  /** RAM runs ahead of the checkpoint by no more than the next multiple of 256. */
  ghost predicate Ahead(rtc: Rtc, ram: Ram, issued: seq<(u32, u32)>)
  {
    ram.initialized ==>
      && ram.session == rtc.session
      && rtc.sequence <= ram.sequence <= (rtc.sequence / 256 + 1) * 256
      && forall e :: e in issued && e.0 == ram.session ==> e.1 < ram.sequence
  }

  predicate NoReuse(issued: seq<(u32, u32)>)
  {
    forall i, j :: 0 <= i < j < |issued| ==> issued[i] != issued[j]
  }

  ghost predicate Inv(d: Device)
  {
    Covered(d.rtc, d.issued) && Ahead(d.rtc, d.ram, d.issued) && NoReuse(d.issued)
  }

  /** Waking keeps the bound at every crash point and ends ahead of everything issued. */
  lemma WakeSafe(rtc: Rtc, ram: Ram, issued: seq<(u32, u32)>, newSession: u32, k: nat)
    requires Covered(rtc, issued) && Ahead(rtc, ram, issued)
    requires WakeDraws(ram, rtc) ==> Unused(issued, newSession)
    requires k <= |Wake(ram, rtc, newSession).1|
    ensures var (ram1, ws) := Wake(ram, rtc, newSession);
      && Covered(ApplyAll(rtc, ws[..k]), issued)
      && Ahead(ApplyAll(rtc, ws), ram1, issued) && ram1.initialized
  {
    var (ram1, ws) := Wake(ram, rtc, newSession);
    ApplyFour(rtc, ws);
    ApplyFour(rtc, ws[..k]);
  }

  /** A call from initialised state keeps the bound at every crash point. */
  lemma OpSafe(op: Op, rtc: Rtc, ram: Ram, issued: seq<(u32, u32)>, newSession: u32, k: nat)
    requires Covered(rtc, issued) && Ahead(rtc, ram, issued) && ram.initialized && DrawFresh(op, ram, issued, newSession)
    requires k <= |OpEffect(op, ram, newSession).1|
    ensures var ws := OpEffect(op, ram, newSession).1;
      Covered(ApplyAll(rtc, ws[..k]), issued)
  {
    var ws := OpEffect(op, ram, newSession).1;
    ApplyFour(rtc, ws[..k]);
  }

  /** Moving to an unused session. */
  lemma RotationSafe(rtc: Rtc, issued: seq<(u32, u32)>, boot: u32, newSession: u32)
    requires Unused(issued, newSession)
    ensures var rtc1 := rtc.(session := newSession, sequence := 0);
      && Covered(rtc1, issued)
      && Ahead(rtc1, Ram(newSession, 0, boot, true), issued)
  {
  }

  /** Issuing one more number of the current session, with a checkpoint when it is a multiple of 256. */
  lemma IssueSafe(rtc: Rtc, rtc1: Rtc, ram: Ram, ram1: Ram, issued: seq<(u32, u32)>)
    requires Covered(rtc, issued) && Ahead(rtc, ram, issued) && ram.initialized && ram.sequence < MAX_SEQUENCE
    requires rtc1 == if ram.sequence % 256 == 0 then rtc.(session := ram.session, sequence := ram.sequence) else rtc
    requires ram1 == ram.(sequence := ram.sequence + 1)
    ensures var issued1 := issued + [(ram.session, ram.sequence)];
      Covered(rtc1, issued1) && Ahead(rtc1, ram1, issued1)
  {
    var issued1 := issued + [(ram.session, ram.sequence)];
    var q := rtc.sequence / 256;
    assert ram.sequence <= rtc1.sequence + 255;
    forall e | e in issued1 && e.0 == rtc1.session
      ensures e.1 <= rtc1.sequence + 255 && e.1 < MAX_SEQUENCE
    {
      assert e in issued || e == (ram.session, ram.sequence);
    }
    forall e | e in issued1 && e.0 == ram.session
      ensures e.1 < ram1.sequence
    {
      assert e in issued || e == (ram.session, ram.sequence);
    }
  }

  lemma IssueIsNew(rtc: Rtc, ram: Ram, issued: seq<(u32, u32)>)
    requires Ahead(rtc, ram, issued) && ram.initialized && NoReuse(issued)
    ensures NoReuse(issued + [(ram.session, ram.sequence)])
  {
  }

  /** A completed draw keeps the invariant with the new identifier counted. */
  lemma DrawSafe(rtc: Rtc, ram: Ram, issued: seq<(u32, u32)>, newSession: u32)
    requires Covered(rtc, issued) && Ahead(rtc, ram, issued) && ram.initialized && DrawFresh(Next, ram, issued, newSession)
    ensures var (ram1, ws) := Draw(ram, newSession);
      var issued1 := issued + [(ram.session, ram.sequence)];
      Covered(ApplyAll(rtc, ws), issued1) && Ahead(ApplyAll(rtc, ws), ram1, issued1)
  {
    var (ram1, ws) := Draw(ram, newSession);
    var issued1 := issued + [(ram.session, ram.sequence)];
    ApplyFour(rtc, ws);
    if ram.sequence >= MAX_SEQUENCE {
      assert ram.sequence % 256 != 0;
      RotationSafe(rtc, issued1, ram.bootCount, newSession);
    } else {
      IssueSafe(rtc, ApplyAll(rtc, ws), ram, ram1, issued);
    }
  }

  /** A completed call keeps the invariant with the new identifier counted. */
  lemma CallSafe(op: Op, rtc: Rtc, ram: Ram, issued: seq<(u32, u32)>, newSession: u32)
    requires Covered(rtc, issued) && Ahead(rtc, ram, issued) && ram.initialized && DrawFresh(op, ram, issued, newSession)
    ensures var (ram1, ws) := OpEffect(op, ram, newSession);
      var issued1 := issued + if op.Next? then [(ram.session, ram.sequence)] else [];
      && Covered(ApplyAll(rtc, ws), issued1)
      && Ahead(ApplyAll(rtc, ws), ram1, issued1)
      && (NoReuse(issued) ==> NoReuse(issued1))
  {
    if op.Next? {
      DrawSafe(rtc, ram, issued, newSession);
      if NoReuse(issued) {
        IssueIsNew(rtc, ram, issued);
      }
    } else {
      ApplyFour(rtc, RotateNow(ram, newSession).1);
      RotationSafe(rtc, issued, ram.bootCount, newSession);
      assert issued + [] == issued;
    }
  }

  lemma StepSafe(d: Device, step: Step)
    requires Inv(d) && DrawsFresh(d, step)
    ensures Inv(Do(d, step))
  {
    if !step.Invalidate? {
      var op, wakeSession, newSession := step.op, step.wakeSession, step.newSession;
      var (ram, wake) := Wake(d.ram, d.rtc, wakeSession);
      var awake := ApplyAll(d.rtc, wake);
      var rest := OpEffect(op, ram, newSession).1;
      assert wake[..|wake|] == wake;
      WakeSafe(d.rtc, d.ram, d.issued, wakeSession, |wake|);
      if step.Call? {
        ApplyConcat(d.rtc, wake, rest);
        CallSafe(op, awake, ram, d.issued, newSession);
      } else {
        var k := Min(step.writes, |wake + rest|);
        if k <= |wake| {
          assert (wake + rest)[..k] == wake[..k];
          WakeSafe(d.rtc, d.ram, d.issued, wakeSession, k);
        } else {
          assert (wake + rest)[..k] == wake + rest[..k - |wake|];
          ApplyConcat(d.rtc, wake, rest[..k - |wake|]);
          OpSafe(op, awake, ram, d.issued, newSession, k - |wake|);
        }
      }
    }
  }

  lemma {:induction false} RunSafe(d: Device, steps: seq<Step>)
    requires Inv(d) && FreshRun(d, steps)
    ensures Inv(Run(d, steps))
    decreases |steps|
  {
    if steps != [] {
      StepSafe(d, steps[0]);
      RunSafe(Do(d, steps[0]), steps[1..]);
    }
  }

  // ---------------------------------------------------------------- what a power loss costs

  /** n draws in a row, on a device that holds no valid checkpoint. */
  function Draws(session: u32, other: u32, n: nat): (steps: seq<Step>)
  {
    if n == 0 then [] else Draws(session, other, n - 1) + [Call(Next, session, other)]
  }

  function Numbers(session: u32, n: u32): (s: seq<(u32, u32)>)
    ensures |s| == n && forall i :: 0 <= i < n ==> s[i] == (session, i)
  {
    seq(n, i requires 0 <= i < n => (session, i))
  }

  lemma {:induction false} RunConcat(d: Device, a: seq<Step>, b: seq<Step>)
    ensures Run(d, a + b) == Run(Run(d, a), b)
    decreases |a|
  {
    if a == [] {
      assert a + b == b;
    } else {
      assert (a + b)[1..] == a[1..] + b;
      RunConcat(Do(d, a[0]), a[1..], b);
    }
  }

  /** n draws issue the numbers from 0 up; the checkpoint is the last multiple of 256 issued. */
  lemma {:induction false} DrawsIssue(rtc: Rtc, session: u32, other: u32, n: nat)
    requires rtc.magic != 0x4C55_4E42 && 1 <= n <= 0xFFFF_FFFE
    ensures Run(Device(rtc, POWER_ON, []), Draws(session, other, n)) ==
      Device(Rtc(session, (n - 1) / 256 * 256, 0, 0x4C55_4E42), Ram(session, n, 0, true), Numbers(session, n))
    decreases n
  {
    var d0 := Device(rtc, POWER_ON, []);
    var step := Call(Next, session, other);
    var before := if n == 1 then d0 else Run(d0, Draws(session, other, n - 1));
    RunConcat(d0, Draws(session, other, n - 1), [step]);
    assert Run(before, [step]) == Do(before, step) by { assert [step][1..] == []; }
    if n == 1 {
      FirstDraw(rtc, session, other);
      assert Numbers(session, 1) == [(session, 0)];
    } else {
      DrawsIssue(rtc, session, other, n - 1);
      LaterDraw(before, session, other, n - 1);
      assert Numbers(session, n) == Numbers(session, n - 1) + [(session, n - 1)];
    }
  }

  lemma FirstDraw(rtc: Rtc, session: u32, other: u32)
    requires rtc.magic != 0x4C55_4E42
    ensures Do(Device(rtc, POWER_ON, []), Call(Next, session, other)) ==
      Device(Rtc(session, 0, 0, 0x4C55_4E42), Ram(session, 1, 0, true), [(session, 0)])
  {
    var (ram, wake) := Wake(POWER_ON, rtc, session);
    var rest := Draw(ram, other).1;
    ApplyFour(rtc, wake);
    ApplyConcat(rtc, wake, rest);
    ApplyFour(ApplyAll(rtc, wake), rest);
  }

  lemma LaterDraw(d: Device, session: u32, other: u32, n: u32)
    requires 1 <= n < 0xFFFF_FFFE && d.ram == Ram(session, n, 0, true)
    requires d.rtc == Rtc(session, (n - 1) / 256 * 256, 0, 0x4C55_4E42)
    ensures Do(d, Call(Next, session, other)) ==
      Device(Rtc(session, n / 256 * 256, 0, 0x4C55_4E42), Ram(session, n + 1, 0, true), d.issued + [(session, n)])
  {
    var rest := Draw(d.ram, other).1;
    assert [] + rest == rest;
    ApplyFour(d.rtc, rest);
    if n % 256 == 0 {
      assert n == n / 256 * 256;
    } else {
      assert n / 256 == (n - 1) / 256;
    }
  }

  /** The first draw after a power loss: 256 past the checkpoint, or the last number where that would overflow; and the
      boot is counted. */
  lemma DrawAfterLoss(d: Device, wakeSession: u32, other: u32)
    requires d.ram == POWER_ON && d.rtc.magic == 0x4C55_4E42 && d.rtc.sequence < 0xFFFF_FFFE
    ensures var d1 := Do(d, Call(Next, wakeSession, other));
      var next := if d.rtc.sequence + 256 < 0x1_0000_0000 then d.rtc.sequence + 256 else 0xFFFF_FFFE;
      && d1.issued == d.issued + [(d.rtc.session, next)]
      && d1.ram.bootCount == (d.rtc.bootCount + 1) % 0x1_0000_0000
  {
    hide ApplyAll;
  }

  lemma LossKeeps(d: Device, session: u32, other: u32)
    ensures Run(d, [Crash(Next, session, other, 0)]) == d.(ram := POWER_ON)
  {
    var loss := Crash(Next, session, other, 0);
    assert [loss][1..] == [] && StepWrites(d, Next, session, other)[..0] == [];
  }

  lemma RoundUp(n: nat)
    requires n > 0
    ensures (n - 1) / 256 * 256 + 256 == (n + 255) / 256 * 256
  {
  }

  /** After n draws and a power loss, the next draw issues the first multiple of 256 that is at least n, in the same
      session (near the end of a session, the last number), so never more than 255 numbers are lost. */
  lemma PowerLossCost(rtc: Rtc, session: u32, other: u32, n: nat)
    requires rtc.magic != 0x4C55_4E42 && 1 <= n <= 0xFFFF_FFFE
    ensures var d := Run(Device(rtc, POWER_ON, []), Draws(session, other, n) + [Crash(Next, session, other, 0)]);
      var next := (n + 255) / 256 * 256;
      Do(d, Call(Next, other, other)).issued ==
        Numbers(session, n) + [(session, if next < 0x1_0000_0000 then next else 0xFFFF_FFFE)]
  {
    hide Do, Run, Numbers;
    var d0 := Device(rtc, POWER_ON, []);
    var d := Run(d0, Draws(session, other, n));
    DrawsIssue(rtc, session, other, n);
    RunConcat(d0, Draws(session, other, n), [Crash(Next, session, other, 0)]);
    LossKeeps(d, session, other);
    RoundUp(n);
    DrawAfterLoss(d.(ram := POWER_ON), other, other);
  }

  /** Once RTC memory is invalidated, the first draw after a power loss starts a new session at number 0. */
  lemma InvalidationStartsOver(d: Device, session: u32, other: u32)
    ensures Do(Do(d, Invalidate).(ram := POWER_ON), Call(Next, session, other)).issued == d.issued + [(session, 0)]
  {
    hide ApplyAll;
  }

  /** A rotation starts the new session at number 0. */
  lemma RotationStartsOver(d: Device, wakeSession: u32, newSession: u32, w: u32, s: u32)
    ensures var d1 := Do(d, Call(Rotate, wakeSession, newSession));
      && d1.issued == d.issued
      && Do(d1, Call(Next, w, s)).issued == d.issued + [(newSession, 0)]
  {
  }

  /** Over every run of calls, rotations, invalidations and power losses, starting from whatever RTC
      memory holds, no (session, sequence) pair is issued twice. */
  lemma NeverReused(rtc: Rtc, steps: seq<Step>)
    requires FreshRun(Device(rtc, POWER_ON, []), steps)
    ensures NoReuse(Run(Device(rtc, POWER_ON, []), steps).issued)
  {
    RunSafe(Device(rtc, POWER_ON, []), steps);
  }

  /** ... and so the 32-bit identifiers of one session are pairwise different, across reboots. */
  lemma NeverRepeated(rtc: Rtc, steps: seq<Step>, i: nat, j: nat)
    requires FreshRun(Device(rtc, POWER_ON, []), steps)
    requires i < j < |Run(Device(rtc, POWER_ON, []), steps).issued|
    ensures var issued := Run(Device(rtc, POWER_ON, []), steps).issued;
      issued[i].0 == issued[j].0 ==>
        PacketIdOf(issued[i].0, issued[i].1) != PacketIdOf(issued[j].0, issued[j].1)
  {
    NeverReused(rtc, steps);
    var issued := Run(Device(rtc, POWER_ON, []), steps).issued;
    IdsDistinct(issued[i].0, issued[i].1, issued[j].1);
    assert issued[i] == (issued[i].0, issued[i].1) && issued[j] == (issued[j].0, issued[j].1);
  }
}
