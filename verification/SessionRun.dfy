/** Runs of two sessions over a lossy, reordering network: one side sends, the other receives,
    and the sender's ratchet turns by itself after every hundredth message. */
module SessionRun {
  import opened Bytes
  import opened Primitives
  import opened SkippedKeys
  import opened Session

  const PER_CHAIN: nat := MAX_MESSAGES_BEFORE_RATCHET

  /** A message the sender has handed to the network, with the plaintext it seals. */
  datatype Sent = Sent(plaintext: seq<byte>, wire: Sealed)

  datatype Net = Net(sender: State, receiver: State, sent: seq<Sent>)

  datatype Step = Send(plaintext: seq<byte>, random: Key) | Deliver(k: nat)

  /** What a step reports: the outcome of the encryption or of the decryption. */
  datatype Outcome = Sealing(sealed: Result<Sealed, Error>) | Opening(text: Result<seq<byte>, Error>)

  function Exec(p: Prims, net: Net, step: Step): (r: (Net, Outcome))
    requires step.Deliver? ==> step.k < |net.sent|
  {
    match step
    case Send(plaintext, random) =>
      var (sender, out) := Encrypt(p, net.sender, plaintext, random);
      var sent := if out.Ok? then net.sent + [Sent(plaintext, out.value)] else net.sent;
      (net.(sender := sender, sent := sent), Sealing(out))
    case Deliver(k) =>
      var (receiver, out) := Decrypt(p, net.receiver, net.sent[k].wire);
      (net.(receiver := receiver), Opening(out))
  }

  // ---------------------------------------------------------------- which deliveries are timely

  function Range(from: nat, to: nat): (s: set<nat>)
    ensures forall n: nat :: n in s <==> from <= n < to
  {
    if from >= to then {} else Range(from, to - 1) + {to - 1}
  }

  /** Bookkeeping over deliveries alone: the newest chain seen, one past the highest number passed in it, the
      numbers of it whose keys are set aside, and the number of free slots. A full table drops keys. */
  datatype Tracker = Tracker(chain: nat, high: nat, kept: set<nat>, room: nat)
  {
    /** Pass over the numbers below n: their keys go into the free slots, lowest numbers first. */
    function Skip(n: nat): (t: Tracker)
    {
      if n <= high then this
      else
        var stored := Min(n - high, room);
        Tracker(chain, n, kept + Range(high, high + stored), room - stored)
    }

    function Enter(prevLen: nat): (t: Tracker)
    {
      Tracker(chain + 1, 0, {}, Skip(prevLen).room)
    }

    function Take(n: nat): (t: Tracker)
    {
      if n in kept then Tracker(chain, high, kept - {n}, room + 1)
      else
        var passed := Skip(n);
        Tracker(chain, n + 1, passed.kept, passed.room)
    }

    /** Passed over, and no key set aside: delivered already, or dropped for lack of room. */
    predicate Spent(n: nat)
    {
      n < high && n !in kept
    }
  }

  /** The tracker after message k; `prevLen` is the previous-chain length that ratcheted headers carry. */
  function Track(t: Tracker, k: nat, prevLen: nat): (r: Tracker)
  {
    (if k / PER_CHAIN == t.chain then t else t.Enter(prevLen)).Take(k % PER_CHAIN)
  }

  /** Message k can be opened now: in the current chain its number is not spent, or it belongs to the next chain
      and the header asks for at most 100 keys of the chain it leaves. */
  predicate Timely(t: Tracker, k: nat, prevLen: nat)
  {
    if k / PER_CHAIN == t.chain then !t.Spent(k % PER_CHAIN)
    else k / PER_CHAIN == t.chain + 1 && prevLen <= t.high + MAX_SKIPPED_KEYS
  }

  /** A number is spent by its own delivery, or by being passed over when the slots have run out. */
  lemma SpentExactly(t: Tracker, n: nat, m: nat)
    requires !t.Spent(n) && forall i :: i in t.kept ==> i < t.high
    ensures t.Take(n).Spent(m) <==> t.Spent(m) || m == n || (n >= t.high && t.high + t.room <= m < n)
  {
  }

  /** A ratchet public whose 8-byte prefix differs from every prefix used so far. */
  ghost predicate FreshPublic(net: Net, foreign: set<seq<byte>>, public: Key)
  {
    && Prefix(public) !in foreign
    && Prefix(public) != Prefix(net.sender.sendRatchetPublic)
    && forall m :: m in net.sent ==> Prefix(public) != Prefix(m.wire.header.dhPublic)
  }

  /** The key that the receiver's chain key gives for the message does not produce the message's tag. */
  ghost predicate TellsApart(p: Prims, r: State, m: Sealed)
  {
    |m.ciphertext| >= TAG_SIZE ==>
      var body := m.ciphertext[..|m.ciphertext| - TAG_SIZE];
      m.ciphertext[|m.ciphertext| - TAG_SIZE..]
        != Tag(p, MessageKey(p, r.recvChainKey, m.header.messageNum), HeaderBytes(m.header) + body)
  }

  /** At most 240 bytes, and a new prefix for the public of the ratchet that the hundredth message triggers. */
  ghost predicate Sendable(p: Prims, net: Net, foreign: set<seq<byte>>, plaintext: seq<byte>, random: Key)
  {
    && |plaintext| <= 240
    && (|net.sent| % PER_CHAIN == PER_CHAIN - 1 ==> FreshPublic(net, foreign, p.x25519Base(Clamp(random))))
  }

  /** What a run may do: send, and deliver any message sent so far that is not older than the newest chain and
      leaves no chain out. Only for a delivery of a spent number is anything asked of the tag: that the wrong key
      does not produce it. */
  ghost predicate Covered(p: Prims, net: Net, t: Tracker, foreign: set<seq<byte>>, step: Step)
  {
    match step
    case Send(plaintext, random) => Sendable(p, net, foreign, plaintext, random)
    case Deliver(k) =>
      && k < |net.sent| && t.chain <= k / PER_CHAIN <= t.chain + 1
      && (k / PER_CHAIN == t.chain && t.Spent(k % PER_CHAIN) ==> TellsApart(p, net.receiver, net.sent[k].wire))
  }

  predicate TimelyStep(net: Net, t: Tracker, step: Step)
  {
    step.Deliver? ==> step.k < |net.sent| && Timely(t, step.k, net.sender.recvCount)
  }

  function NextTracker(net: Net, t: Tracker, step: Step): (r: Tracker)
  {
    if step.Deliver? then Track(t, step.k, net.sender.recvCount) else t
  }

  /** Every delivery of the run is timely. */
  predicate TimelyRun(p: Prims, net: Net, t: Tracker, steps: seq<Step>)
    decreases |steps|
  {
    steps == [] ||
    (&& TimelyStep(net, t, steps[0])
     && TimelyRun(p, Exec(p, net, steps[0]).0, NextTracker(net, t, steps[0]), steps[1..]))
  }

  /** The run is covered as long as its deliveries are timely; after the first one that is not, anything goes. */
  ghost predicate CoveredRun(p: Prims, net: Net, t: Tracker, foreign: set<seq<byte>>, steps: seq<Step>)
    decreases |steps|
  {
    steps == [] ||
    (&& Covered(p, net, t, foreign, steps[0])
     && (TimelyStep(net, t, steps[0]) ==>
           CoveredRun(p, Exec(p, net, steps[0]).0, NextTracker(net, t, steps[0]), foreign, steps[1..])))
  }

  // ---------------------------------------------------------------- what they guarantee

  function ChainAt(p: Prims, base: Key, n: nat): (k: Key)
  {
    if n == 0 then base else NextChain(p, ChainAt(p, base, n - 1))
  }

  /** Both ends hold the same root, name the same ratchet keys, and stand on the same chain. */
  ghost predicate InStep(p: Prims, s: State, r: State)
  {
    && s.rootKey == r.rootKey
    && s.sendRatchetPublic == r.recvRatchetPublic
    && s.recvRatchetPublic == p.x25519Base(r.sendRatchetPrivate)
    && exists base ::
         && s.sendChainKey == ChainAt(p, base, s.sendCount)
         && r.recvChainKey == ChainAt(p, base, r.recvCount)
  }

  /** Two sessions at the start of a common chain. */
  ghost predicate Paired(p: Prims, s: State, r: State)
  {
    && s.established && r.established
    && s.sendCount == 0 && r.recvCount == 0
    && s.sendChainKey == r.recvChainKey
    && InStep(p, s, r)
    && |r.skipped| == MAX_SKIPPED_KEYS && Unique(r.skipped)
    && Prefix(s.sendRatchetPublic) !in Prefixes(r.skipped)
  }

  function Prefixes(slots: seq<Slot>): (s: set<seq<byte>>)
  {
    set i | 0 <= i < |slots| && slots[i].occupied :: slots[i].prefix
  }

  function StartTracker(r: State): (t: Tracker)
  {
    Tracker(0, 0, {}, Room(r.skipped))
  }

  /** Every send succeeds, every delivery returns exactly the plaintext that was sealed, and a delivery
      from the sender's current chain leaves the two ends in step. */
  ghost predicate AllCorrect(p: Prims, net: Net, steps: seq<Step>)
    decreases |steps|
  {
    steps == [] ||
    (&& (steps[0].Deliver? ==> steps[0].k < |net.sent|)
     && var (next, out) := Exec(p, net, steps[0]);
       && (match steps[0]
           case Send(plaintext, _) => out.Sealing? && out.sealed.Ok?
           case Deliver(k) =>
             && out == Opening(Ok(net.sent[k].plaintext))
             && (k / PER_CHAIN == |net.sent| / PER_CHAIN ==> InStep(p, next.sender, next.receiver)))
       && AllCorrect(p, next, steps[1..]))
  }

  // ---------------------------------------------------------------- the invariant

  /** One sending chain: its root, first chain key, ratchet public, and the private key behind it. */
  datatype Chain = Chain(root: Key, base: Key, public: Key, private: Key)

  ghost predicate Linked(p: Prims, from: Chain, to: Chain, theirs: Key)
  {
    var dh := p.x25519(to.private, theirs);
    && to.public == p.x25519Base(to.private)
    && to.root == RatchetRoot(p, from.root, dh)
    && to.base == RatchetChain(p, from.root, dh)
  }

  ghost predicate ChainsOk(p: Prims, chains: seq<Chain>, theirs: Key, foreign: set<seq<byte>>)
  {
    && chains != []
    && (forall c :: 0 < c < |chains| ==> Linked(p, chains[c - 1], chains[c], theirs))
    && (forall c :: 0 <= c < |chains| ==> Prefix(chains[c].public) !in foreign)
    && (forall c, d :: 0 <= c < d < |chains| ==> Prefix(chains[c].public) != Prefix(chains[d].public))
  }

  ghost predicate ChainsDistinct(chains: seq<Chain>, c: nat)
    requires c < |chains|
  {
    forall d :: c < d < |chains| ==> Prefix(chains[c].public) != Prefix(chains[d].public)
  }

  ghost predicate SenderOk(p: Prims, s: State, chains: seq<Chain>, theirs: Key)
    requires chains != []
  {
    var last := chains[|chains| - 1];
    && s.established && s.sendCount < PER_CHAIN
    && s.rootKey == last.root && s.sendRatchetPublic == last.public
    && s.sendChainKey == ChainAt(p, last.base, s.sendCount)
    && s.recvRatchetPublic == theirs
    && (|chains| > 1 ==> s.prevRecvChain == s.recvCount)
  }

  function KeyOf(p: Prims, c: Chain, n: u64): (k: Key)
  {
    MessageKey(p, ChainAt(p, c.base, n), n)
  }

  ghost predicate SentOk(p: Prims, m: Sent, k: nat, chains: seq<Chain>, prevLen: nat)
    requires k / PER_CHAIN < |chains|
  {
    var c := chains[k / PER_CHAIN];
    && |m.plaintext| <= 240
    && m.wire.header.dhPublic == c.public && m.wire.header.messageNum == k % PER_CHAIN
    && (k >= PER_CHAIN ==> m.wire.header.prevChainLen == prevLen)
    && m.wire.ciphertext == Seal(p, KeyOf(p, c, k % PER_CHAIN), m.wire.header, m.plaintext)
  }

  ghost predicate LogOk(p: Prims, net: Net, chains: seq<Chain>)
    requires chains != []
  {
    && |net.sent| == PER_CHAIN * (|chains| - 1) + net.sender.sendCount
    && net.sender.sendCount < PER_CHAIN
    && forall k :: 0 <= k < |net.sent| ==> SentOk(p, net.sent[k], k, chains, net.sender.recvCount)
  }

  /** The table holds, for the current chain, exactly the keys set aside, and otherwise only keys of older
      chains. */
  ghost predicate TableOk(p: Prims, slots: seq<Slot>, chains: seq<Chain>, t: Tracker, foreign: set<seq<byte>>)
    requires t.chain < |chains|
  {
    var c := chains[t.chain];
    && |slots| == MAX_SKIPPED_KEYS && Unique(slots)
    && Room(slots) == t.room
    && (forall n: u64 :: Lookup(slots, Prefix(c.public), n) == if n in t.kept then Some(KeyOf(p, c, n)) else None)
    && (forall d, n: u64 :: t.chain < d < |chains| ==> Lookup(slots, Prefix(chains[d].public), n).None?)
    && (forall q, n: u64 :: Lookup(slots, q, n).Some? ==> Known(q, chains, t.chain, foreign))
  }

  ghost predicate Known(q: seq<byte>, chains: seq<Chain>, upTo: nat, foreign: set<seq<byte>>)
  {
    q in foreign || exists d :: 0 <= d <= upTo && d < |chains| && q == Prefix(chains[d].public)
  }

  ghost predicate ReceiverOk(p: Prims, r: State, chains: seq<Chain>, theirs: Key, t: Tracker, foreign: set<seq<byte>>)
  {
    && t.chain < |chains|
    && (forall n :: n in t.kept ==> n < t.high)
    && r.established
    && p.x25519Base(r.sendRatchetPrivate) == theirs
    && r.rootKey == chains[t.chain].root && r.recvRatchetPublic == chains[t.chain].public
    && r.recvCount == t.high && r.recvChainKey == ChainAt(p, chains[t.chain].base, t.high)
    && TableOk(p, r.skipped, chains, t, foreign)
  }

  ghost predicate Inv(p: Prims, net: Net, chains: seq<Chain>, t: Tracker, foreign: set<seq<byte>>)
  {
    var theirs := net.sender.recvRatchetPublic;
    && ChainsOk(p, chains, theirs, foreign)
    && SenderOk(p, net.sender, chains, theirs)
    && LogOk(p, net, chains)
    && ReceiverOk(p, net.receiver, chains, theirs, t, foreign)
  }

  // ---------------------------------------------------------------- skipping

  /** Between the two tables only the keys of messages lo..hi-1 of chain c were added. */
  ghost predicate Adds(p: Prims, slots: seq<Slot>, slots1: seq<Slot>, public: Key, base: Key, lo: nat, hi: nat)
  {
    forall q, n: u64 :: Lookup(slots1, q, n) == Added(p, slots, public, base, lo, hi, q, n)
  }

  function Added(p: Prims, slots: seq<Slot>, public: Key, base: Key, lo: nat, hi: nat, q: seq<byte>, n: u64): (key: Option<Key>)
  {
    if q == Prefix(public) && lo <= n < hi then Some(MessageKey(p, ChainAt(p, base, n), n)) else Lookup(slots, q, n)
  }

  /** Skipping forward along a chain stores the keys of the messages passed over, as many as there is room for and
      lowest numbers first, and no others. */
  lemma {:induction false} SkipToStores(p: Prims, st: State, until: u64, base: Key)
    requires st.recvCount <= until
    requires st.recvChainKey == ChainAt(p, base, st.recvCount)
    requires Unique(st.skipped)
    requires forall n: u64 :: st.recvCount <= n < until ==> Lookup(st.skipped, Prefix(st.recvRatchetPublic), n).None?
    ensures var r := SkipTo(p, st, until);
      var stored := Min(until - st.recvCount, Room(st.skipped));
      && r == st.(recvCount := until, recvChainKey := ChainAt(p, base, until), skipped := r.skipped)
      && Unique(r.skipped) && Room(r.skipped) == Room(st.skipped) - stored
      && Adds(p, st.skipped, r.skipped, st.recvRatchetPublic, base, st.recvCount, st.recvCount + stored)
    decreases until - st.recvCount
  {
    if st.recvCount < until {
      var pre, num := Prefix(st.recvRatchetPublic), st.recvCount;
      var key := MessageKey(p, st.recvChainKey, num);
      var st1 := SkipOne(p, st);
      if Room(st.skipped) == 0 {
        InsertFull(st.skipped, pre, num, key);
      } else {
        InsertKeeps(st.skipped, pre, num, key);
        forall q, n: u64
          ensures Lookup(st1.skipped, q, n) == if q == pre && n == num then Some(key) else Lookup(st.skipped, q, n)
        {
          InsertLookup(st.skipped, pre, num, key, q, n);
        }
      }
      SkipToStores(p, st1, until, base);
    }
  }

  // ---------------------------------------------------------------- one delivery

  lemma KeptTable(p: Prims, slots: seq<Slot>, chains: seq<Chain>, t: Tracker, foreign: set<seq<byte>>, n: u64)
    requires t.chain < |chains| && TableOk(p, slots, chains, t, foreign) && n in t.kept
    ensures TableOk(p, Release(slots, Prefix(chains[t.chain].public), n), chains, t.Take(n), foreign)
  {
    var pre := Prefix(chains[t.chain].public);
    ReleaseKeeps(slots, pre, n);
    var slots1 := Release(slots, pre, n);
    forall q, m: u64
      ensures Lookup(slots1, q, m) == if q == pre && m == n then None else Lookup(slots, q, m)
    {
      ReleaseLookup(slots, pre, n, q, m);
    }
  }

  /** A number whose key was set aside takes it out of the table. */
  lemma TakeKeptKey(p: Prims, r: State, chains: seq<Chain>, theirs: Key, t: Tracker, foreign: set<seq<byte>>, h: Header)
    requires ReceiverOk(p, r, chains, theirs, t, foreign)
    requires h.dhPublic == chains[t.chain].public && h.messageNum in t.kept
    ensures var (r1, key) := GetMessageKey(p, r, h);
      && key == Ok(KeyOf(p, chains[t.chain], h.messageNum))
      && ReceiverOk(p, r1, chains, theirs, t.Take(h.messageNum), foreign)
  {
    KeptTable(p, r.skipped, chains, t, foreign, h.messageNum);
  }

  lemma SkipKnown(p: Prims, slots: seq<Slot>, slots1: seq<Slot>, chains: seq<Chain>, t: Tracker, foreign: set<seq<byte>>, hi: nat)
    requires t.chain < |chains| && TableOk(p, slots, chains, t, foreign)
    requires Adds(p, slots, slots1, chains[t.chain].public, chains[t.chain].base, t.high, hi)
    ensures forall q, m: u64 :: Lookup(slots1, q, m).Some? ==> Known(q, chains, t.chain, foreign)
  {
    forall q, m: u64 | Lookup(slots1, q, m).Some?
      ensures Known(q, chains, t.chain, foreign)
    {
      assert Lookup(slots1, q, m) == Added(p, slots, chains[t.chain].public, chains[t.chain].base, t.high, hi, q, m);
      if q == Prefix(chains[t.chain].public) {
        KnownSelf(chains, t.chain, foreign);
      }
    }
  }

  lemma SkipLater(p: Prims, slots: seq<Slot>, slots1: seq<Slot>, chains: seq<Chain>, t: Tracker, foreign: set<seq<byte>>, hi: nat)
    requires t.chain < |chains| && TableOk(p, slots, chains, t, foreign) && ChainsDistinct(chains, t.chain)
    requires Adds(p, slots, slots1, chains[t.chain].public, chains[t.chain].base, t.high, hi)
    ensures forall d, n: u64 :: t.chain < d < |chains| ==> Lookup(slots1, Prefix(chains[d].public), n).None?
  {
    forall d, n: u64 | t.chain < d < |chains|
      ensures Lookup(slots1, Prefix(chains[d].public), n).None?
    {
      var q := Prefix(chains[d].public);
      assert Lookup(slots1, q, n) == Added(p, slots, chains[t.chain].public, chains[t.chain].base, t.high, hi, q, n);
    }
  }

  lemma SkipCurrent(p: Prims, slots: seq<Slot>, slots1: seq<Slot>, chains: seq<Chain>, t: Tracker, foreign: set<seq<byte>>, hi: nat)
    requires t.chain < |chains| && TableOk(p, slots, chains, t, foreign) && t.high <= hi
    requires Adds(p, slots, slots1, chains[t.chain].public, chains[t.chain].base, t.high, hi)
    ensures var c := chains[t.chain];
      forall m: u64 :: Lookup(slots1, Prefix(c.public), m) ==
                       if m in t.kept + Range(t.high, hi) then Some(KeyOf(p, c, m)) else None
  {
    var c := chains[t.chain];
    forall m: u64
      ensures Lookup(slots1, Prefix(c.public), m) == if m in t.kept + Range(t.high, hi) then Some(KeyOf(p, c, m)) else None
    {
      assert Lookup(slots1, Prefix(c.public), m) == Added(p, slots, c.public, c.base, t.high, hi, Prefix(c.public), m);
      assert Lookup(slots, Prefix(c.public), m) == if m in t.kept then Some(KeyOf(p, c, m)) else None;
    }
  }

  lemma SkipTable(p: Prims, slots: seq<Slot>, slots1: seq<Slot>, chains: seq<Chain>, t: Tracker, foreign: set<seq<byte>>, n: u64)
    requires t.chain < |chains| && TableOk(p, slots, chains, t, foreign) && ChainsDistinct(chains, t.chain)
    requires t.high <= n && n !in t.kept && |slots1| == |slots|
    requires Unique(slots1) && Room(slots1) == Room(slots) - Min(n - t.high, t.room)
    requires Adds(p, slots, slots1, chains[t.chain].public, chains[t.chain].base, t.high, t.high + Min(n - t.high, t.room))
    ensures TableOk(p, slots1, chains, t.Take(n), foreign)
  {
    var hi := t.high + Min(n - t.high, t.room);
    SkipKnown(p, slots, slots1, chains, t, foreign, hi);
    SkipLater(p, slots, slots1, chains, t, foreign, hi);
    SkipCurrent(p, slots, slots1, chains, t, foreign, hi);
    assert t.kept + Range(t.high, t.high) == t.kept;
  }

  lemma KnownSelf(chains: seq<Chain>, c: nat, foreign: set<seq<byte>>)
    requires c < |chains|
    ensures Known(Prefix(chains[c].public), chains, c, foreign)
  {
  }

  lemma NewKeyComputed(p: Prims, r: State, h: Header)
    requires Lookup(r.skipped, Prefix(h.dhPublic), h.messageNum).None?
    requires h.messageNum - r.recvCount <= MAX_SKIPPED_KEYS
    ensures var st := SkipTo(p, r, h.messageNum);
      GetMessageKey(p, r, h) == (PassMessage(p, st, h.messageNum), Ok(MessageKey(p, st.recvChainKey, h.messageNum)))
  {
  }

  lemma NewKeyLegal(p: Prims, r: State, chains: seq<Chain>, theirs: Key, t: Tracker, foreign: set<seq<byte>>)
    requires ReceiverOk(p, r, chains, theirs, t, foreign)
    ensures Room(r.skipped) == t.room && Unique(r.skipped) && |r.skipped| == MAX_SKIPPED_KEYS
    ensures forall m: u64 :: t.high <= m ==> Lookup(r.skipped, Prefix(chains[t.chain].public), m).None?
  {
  }

  lemma ReceiverPasses(p: Prims, r: State, r1: State, chains: seq<Chain>, theirs: Key, t: Tracker, foreign: set<seq<byte>>, n: u64)
    requires ReceiverOk(p, r, chains, theirs, t, foreign) && t.high <= n < PER_CHAIN
    requires r1 == r.(recvCount := n, recvChainKey := ChainAt(p, chains[t.chain].base, n), skipped := r1.skipped)
    requires TableOk(p, r1.skipped, chains, t.Take(n), foreign)
    ensures ReceiverOk(p, PassMessage(p, r1, n), chains, theirs, t.Take(n), foreign)
  {
    hide TableOk;
  }

  /** A number at or past the highest one passed derives its key from the chain, setting the gap's keys aside. */
  lemma TakeNewKey(p: Prims, r: State, chains: seq<Chain>, theirs: Key, t: Tracker, foreign: set<seq<byte>>, h: Header)
    requires ReceiverOk(p, r, chains, theirs, t, foreign) && ChainsDistinct(chains, t.chain)
    requires h.dhPublic == chains[t.chain].public && t.high <= h.messageNum < PER_CHAIN
    ensures var (r1, key) := GetMessageKey(p, r, h);
      && key == Ok(KeyOf(p, chains[t.chain], h.messageNum))
      && ReceiverOk(p, r1, chains, theirs, t.Take(h.messageNum), foreign)
  {
    var n := h.messageNum;
    NewKeyLegal(p, r, chains, theirs, t, foreign);
    SkipToStores(p, r, n, chains[t.chain].base);
    var st := SkipTo(p, r, n);
    SkipTable(p, r.skipped, st.skipped, chains, t, foreign, n);
    NewKeyComputed(p, r, h);
    ReceiverPasses(p, r, st, chains, theirs, t, foreign, n);
  }

  /** Any number of the current chain that is not spent yields its own key. */
  lemma TakeKey(p: Prims, r: State, chains: seq<Chain>, theirs: Key, t: Tracker, foreign: set<seq<byte>>, h: Header)
    requires ReceiverOk(p, r, chains, theirs, t, foreign) && ChainsDistinct(chains, t.chain)
    requires h.dhPublic == chains[t.chain].public && !t.Spent(h.messageNum) && h.messageNum < PER_CHAIN
    ensures var (r1, key) := GetMessageKey(p, r, h);
      && key == Ok(KeyOf(p, chains[t.chain], h.messageNum))
      && ReceiverOk(p, r1, chains, theirs, t.Take(h.messageNum), foreign)
  {
    if h.messageNum in t.kept {
      TakeKeptKey(p, r, chains, theirs, t, foreign, h);
    } else {
      TakeNewKey(p, r, chains, theirs, t, foreign, h);
    }
  }

  /** Entering the next chain with a header of that chain re-derives the sender's root and chain key. */
  lemma EnterNextChain(p: Prims, r: State, chains: seq<Chain>, theirs: Key, t: Tracker, foreign: set<seq<byte>>, h: Header)
    requires DhCommutes(p) && ChainsOk(p, chains, theirs, foreign)
    requires ReceiverOk(p, r, chains, theirs, t, foreign)
    requires t.chain + 1 < |chains| && h.dhPublic == chains[t.chain + 1].public
    requires h.prevChainLen <= t.high + MAX_SKIPPED_KEYS
    ensures var e := EnterChain(p, r, h);
      e.Ok? && ReceiverOk(p, e.value, chains, theirs, t.Enter(h.prevChainLen), foreign)
  {
    var c := t.chain;
    assert Prefix(chains[c].public) != Prefix(chains[c + 1].public);
    var until := h.prevChainLen;
    var st1 := SkipTo(p, r, until);
    NewKeyLegal(p, r, chains, theirs, t, foreign);
    if until > r.recvCount {
      SkipToStores(p, r, until, chains[c].base);
      KnownSelf(chains, c, foreign);
    }
    var e := AdvanceRecv(p, st1, h.dhPublic);
    assert Linked(p, chains[c], chains[c + 1], theirs);
    assert p.x25519(r.sendRatchetPrivate, p.x25519Base(chains[c + 1].private))
        == p.x25519(chains[c + 1].private, p.x25519Base(r.sendRatchetPrivate));
    var t1 := t.Enter(until);
    forall d, n: u64 | c < d < |chains|
      ensures Lookup(e.skipped, Prefix(chains[d].public), n).None?
    {
      assert Prefix(chains[c].public) != Prefix(chains[d].public);
    }
    forall q, n: u64 | Lookup(e.skipped, q, n).Some?
      ensures Known(q, chains, c + 1, foreign)
    {
      assert Known(q, chains, c, foreign);
    }
    assert TableOk(p, e.skipped, chains, t1, foreign);
  }

  /** A timely delivery opens to its plaintext and keeps the invariant. */
  lemma DeliverCorrect(p: Prims, net: Net, chains: seq<Chain>, t: Tracker, foreign: set<seq<byte>>, k: nat)
    requires DhCommutes(p) && Inv(p, net, chains, t, foreign)
    requires k < |net.sent| && Timely(t, k, net.sender.recvCount)
    ensures var (next, out) := Exec(p, net, Deliver(k));
      && out == Opening(Ok(net.sent[k].plaintext))
      && Inv(p, next, chains, Track(t, k, net.sender.recvCount), foreign)
  {
    var theirs := net.sender.recvRatchetPublic;
    var m := net.sent[k];
    var h := m.wire.header;
    assert SentOk(p, m, k, chains, net.sender.recvCount);
    if k / PER_CHAIN == t.chain {
      TakeKey(p, net.receiver, chains, theirs, t, foreign, h);
    } else {
      EnterNextChain(p, net.receiver, chains, theirs, t, foreign, h);
      TakeKey(p, EnterChain(p, net.receiver, h).value, chains, theirs, t.Enter(h.prevChainLen), foreign, h);
      assert Prefix(chains[t.chain].public) != Prefix(chains[t.chain + 1].public);
    }
    OpenSeal(p, KeyOf(p, chains[k / PER_CHAIN], k % PER_CHAIN), h, m.plaintext);
  }

  lemma SealedLength(p: Prims, key: Key, h: Header, plaintext: seq<byte>)
    ensures |Seal(p, key, h, plaintext)| == |plaintext| + TAG_SIZE
  {
  }

  /** What any other delivery does. A spent number of the current chain is tried with the key the chain gives at
      its present position, and key and counter part; a next chain that asks for too many keys is refused. */
  lemma DeliverUntimely(p: Prims, net: Net, chains: seq<Chain>, t: Tracker, foreign: set<seq<byte>>, k: nat)
    requires Inv(p, net, chains, t, foreign) && k < |net.sent|
    requires t.chain <= k / PER_CHAIN <= t.chain + 1 && !Timely(t, k, net.sender.recvCount)
    ensures var (next, out) := Exec(p, net, Deliver(k));
      var (r, m, n) := (net.receiver, net.sent[k].wire, k % PER_CHAIN);
      if k / PER_CHAIN == t.chain then
        && |m.ciphertext| >= TAG_SIZE
        && next.receiver == r.(recvCount := n + 1, recvChainKey := ChainAt(p, chains[t.chain].base, t.high + 1))
        && out == Opening(Open(p, MessageKey(p, ChainAt(p, chains[t.chain].base, t.high), n), m.header, m.ciphertext))
      else next == net && out == Opening(Err(TooManySkipped))
  {
    hide Decrypt, EnterChain, GetMessageKey, Seal, Open;
    var h := net.sent[k].wire.header;
    assert SentOk(p, net.sent[k], k, chains, net.sender.recvCount);
    SealedLength(p, KeyOf(p, chains[k / PER_CHAIN], k % PER_CHAIN), h, net.sent[k].plaintext);
    if k / PER_CHAIN == t.chain {
      StaysInChain(p, net.receiver, h);
      DecryptEntered(p, net.receiver, net.sent[k].wire, net.receiver);
      NewKeyComputed(p, net.receiver, h);
    } else {
      RefusedEntry(p, net.receiver, net.sent[k].wire);
      assert Prefix(chains[t.chain].public) != Prefix(chains[t.chain + 1].public);
    }
  }

  // ---------------------------------------------------------------- one send

  /** The chains after a send: a new one exactly when the hundredth message of a chain goes out. */
  ghost function ChainsAfter(p: Prims, net: Net, chains: seq<Chain>, random: Key): (r: seq<Chain>)
    requires chains != []
  {
    if net.sender.sendCount + 1 < PER_CHAIN then chains
    else
      var last := chains[|chains| - 1];
      var private := Clamp(random);
      var dh := p.x25519(private, net.sender.recvRatchetPublic);
      chains + [Chain(RatchetRoot(p, last.root, dh), RatchetChain(p, last.root, dh), p.x25519Base(private), private)]
  }

  lemma FreshMeansDistinct(p: Prims, net: Net, chains: seq<Chain>, t: Tracker, foreign: set<seq<byte>>, public: Key, c: nat)
    requires Inv(p, net, chains, t, foreign) && c < |chains|
    requires FreshPublic(net, foreign, public)
    ensures Prefix(chains[c].public) != Prefix(public)
  {
    if c < |chains| - 1 {
      var k := PER_CHAIN * c;
      assert k < |net.sent| && k / PER_CHAIN == c;
      assert SentOk(p, net.sent[k], k, chains, net.sender.recvCount);
      assert net.sent[k] in net.sent;
    }
  }

  lemma NewMessageOk(p: Prims, net: Net, chains: seq<Chain>, plaintext: seq<byte>, random: Key)
    requires chains != [] && LogOk(p, net, chains) && |plaintext| <= 240
    requires SenderOk(p, net.sender, chains, net.sender.recvRatchetPublic)
    ensures var next := Exec(p, net, Send(plaintext, random)).0;
      && |next.sent| == |net.sent| + 1 && next.sent[..|net.sent|] == net.sent
      && |net.sent| / PER_CHAIN == |chains| - 1
      && SentOk(p, next.sent[|net.sent|], |net.sent|, chains, net.sender.recvCount)
  {
    assert |net.sent| / PER_CHAIN == |chains| - 1 && |net.sent| % PER_CHAIN == net.sender.sendCount;
  }

  lemma SentOkExtends(p: Prims, m: Sent, k: nat, chains: seq<Chain>, chains1: seq<Chain>, prevLen: nat)
    requires k / PER_CHAIN < |chains| <= |chains1| && chains1[..|chains|] == chains
    requires SentOk(p, m, k, chains, prevLen)
    ensures SentOk(p, m, k, chains1, prevLen)
  {
    assert chains1[k / PER_CHAIN] == chains1[..|chains|][k / PER_CHAIN];
  }

  lemma LogGrows(p: Prims, net: Net, next: Net, chains: seq<Chain>, chains1: seq<Chain>)
    requires chains != [] && LogOk(p, net, chains)
    requires |chains| <= |chains1| && chains1[..|chains|] == chains
    requires |next.sent| == |net.sent| + 1 && next.sent[..|net.sent|] == net.sent
    requires next.sender.recvCount == net.sender.recvCount
    requires |net.sent| / PER_CHAIN == |chains| - 1
    requires |next.sent| == PER_CHAIN * (|chains1| - 1) + next.sender.sendCount && next.sender.sendCount < PER_CHAIN
    requires SentOk(p, next.sent[|net.sent|], |net.sent|, chains, net.sender.recvCount)
    ensures LogOk(p, next, chains1)
  {
    forall k | 0 <= k < |next.sent|
      ensures k / PER_CHAIN < |chains1| && SentOk(p, next.sent[k], k, chains1, next.sender.recvCount)
    {
      if k < |net.sent| {
        assert next.sent[k] == net.sent[k];
      }
      SentOkExtends(p, next.sent[k], k, chains, chains1, net.sender.recvCount);
    }
  }

  lemma SendCounts(p: Prims, net: Net, chains: seq<Chain>, plaintext: seq<byte>, random: Key)
    requires chains != [] && net.sender.established && net.sender.sendCount < PER_CHAIN && |plaintext| <= 240
    ensures var next, chains1 := Exec(p, net, Send(plaintext, random)).0, ChainsAfter(p, net, chains, random);
      && next.sender.recvCount == net.sender.recvCount
      && next.sender.sendCount == (net.sender.sendCount + 1) % PER_CHAIN
      && |chains1| == |chains| + (net.sender.sendCount + 1) / PER_CHAIN && chains1[..|chains|] == chains
  {
  }

  lemma SendKeepsLog(p: Prims, net: Net, chains: seq<Chain>, plaintext: seq<byte>, random: Key)
    requires chains != [] && LogOk(p, net, chains) && |plaintext| <= 240
    requires SenderOk(p, net.sender, chains, net.sender.recvRatchetPublic)
    ensures LogOk(p, Exec(p, net, Send(plaintext, random)).0, ChainsAfter(p, net, chains, random))
  {
    assert net.sender.established;
    hide Encrypt, ChainsAfter, SentOk, SenderOk;
    NewMessageOk(p, net, chains, plaintext, random);
    SendCounts(p, net, chains, plaintext, random);
    LogGrows(p, net, Exec(p, net, Send(plaintext, random)).0, chains, ChainsAfter(p, net, chains, random));
  }

  lemma SendKeepsReceiver(p: Prims, net: Net, chains: seq<Chain>, t: Tracker, foreign: set<seq<byte>>, c: Chain)
    requires Inv(p, net, chains, t, foreign)
    requires Prefix(c.public) !in foreign
    requires forall d :: 0 <= d < |chains| ==> Prefix(chains[d].public) != Prefix(c.public)
    ensures ReceiverOk(p, net.receiver, chains + [c], net.sender.recvRatchetPublic, t, foreign)
  {
    var slots := net.receiver.skipped;
    var chains1 := chains + [c];
    forall d, n: u64 | t.chain < d < |chains1|
      ensures Lookup(slots, Prefix(chains1[d].public), n).None?
    {
      assert !Known(Prefix(c.public), chains, t.chain, foreign);
    }
    forall q, n: u64 | Lookup(slots, q, n).Some?
      ensures Known(q, chains1, t.chain, foreign)
    {
      assert Known(q, chains, t.chain, foreign);
      if q !in foreign {
        var d :| 0 <= d <= t.chain && d < |chains| && q == Prefix(chains[d].public);
        assert chains1[d] == chains[d];
      }
    }
    assert TableOk(p, slots, chains1, t, foreign);
  }

  lemma SendKeepsChains(p: Prims, net: Net, chains: seq<Chain>, t: Tracker, foreign: set<seq<byte>>, random: Key)
    requires Inv(p, net, chains, t, foreign) && net.sender.sendCount + 1 == PER_CHAIN
    requires FreshPublic(net, foreign, p.x25519Base(Clamp(random)))
    ensures var chains1 := ChainsAfter(p, net, chains, random);
      && ChainsOk(p, chains1, net.sender.recvRatchetPublic, foreign)
      && ReceiverOk(p, net.receiver, chains1, net.sender.recvRatchetPublic, t, foreign)
  {
    var theirs := net.sender.recvRatchetPublic;
    var chains1 := ChainsAfter(p, net, chains, random);
    var c := chains1[|chains|];
    forall d | 0 <= d < |chains|
      ensures Prefix(chains[d].public) != Prefix(c.public)
    {
      FreshMeansDistinct(p, net, chains, t, foreign, c.public, d);
    }
    SendKeepsReceiver(p, net, chains, t, foreign, c);
    forall d | 0 < d < |chains1|
      ensures Linked(p, chains1[d - 1], chains1[d], theirs)
    {
      if d < |chains| {
        assert Linked(p, chains[d - 1], chains[d], theirs);
      }
    }
  }

  lemma SendKeepsSender(p: Prims, net: Net, chains: seq<Chain>, plaintext: seq<byte>, random: Key)
    requires chains != [] && |plaintext| <= 240
    requires SenderOk(p, net.sender, chains, net.sender.recvRatchetPublic)
    ensures var (next, out) := Exec(p, net, Send(plaintext, random));
      && out.Sealing? && out.sealed.Ok?
      && next.receiver == net.receiver && next.sender.recvRatchetPublic == net.sender.recvRatchetPublic
      && SenderOk(p, next.sender, ChainsAfter(p, net, chains, random), net.sender.recvRatchetPublic)
  {
  }

  lemma AssembleInv(p: Prims, net: Net, next: Net, chains: seq<Chain>, chains1: seq<Chain>, t: Tracker, foreign: set<seq<byte>>)
    requires Inv(p, net, chains, t, foreign) && chains1 != []
    requires next.receiver == net.receiver && next.sender.recvRatchetPublic == net.sender.recvRatchetPublic
    requires SenderOk(p, next.sender, chains1, net.sender.recvRatchetPublic) && LogOk(p, next, chains1)
    requires chains1 == chains ||
             (&& ChainsOk(p, chains1, net.sender.recvRatchetPublic, foreign)
              && ReceiverOk(p, net.receiver, chains1, net.sender.recvRatchetPublic, t, foreign))
    ensures Inv(p, next, chains1, t, foreign)
  {
  }

  lemma SendCorrect(p: Prims, net: Net, chains: seq<Chain>, t: Tracker, foreign: set<seq<byte>>, plaintext: seq<byte>, random: Key)
    requires Inv(p, net, chains, t, foreign)
    requires Sendable(p, net, foreign, plaintext, random)
    ensures var (next, out) := Exec(p, net, Send(plaintext, random));
      && out.Sealing? && out.sealed.Ok?
      && Inv(p, next, ChainsAfter(p, net, chains, random), t, foreign)
  {
    var next := Exec(p, net, Send(plaintext, random)).0;
    SendKeepsLog(p, net, chains, plaintext, random);
    SendKeepsSender(p, net, chains, plaintext, random);
    if net.sender.sendCount + 1 == PER_CHAIN {
      SendKeepsChains(p, net, chains, t, foreign, random);
    }
    AssembleInv(p, net, next, chains, ChainsAfter(p, net, chains, random), t, foreign);
  }

  // ---------------------------------------------------------------- whole runs

  lemma InvInStep(p: Prims, net: Net, chains: seq<Chain>, t: Tracker, foreign: set<seq<byte>>)
    requires Inv(p, net, chains, t, foreign) && t.chain == |net.sent| / PER_CHAIN
    ensures InStep(p, net.sender, net.receiver)
  {
    assert t.chain == |chains| - 1;
    assert net.receiver.recvChainKey == ChainAt(p, chains[t.chain].base, net.receiver.recvCount);
  }

  /** From the invariant, a run goes right exactly when its deliveries are timely. */
  lemma {:induction false} RunFromInvariant(p: Prims, net: Net, chains: seq<Chain>, t: Tracker, foreign: set<seq<byte>>, steps: seq<Step>)
    requires DhCommutes(p) && Inv(p, net, chains, t, foreign)
    requires CoveredRun(p, net, t, foreign, steps)
    ensures AllCorrect(p, net, steps) <==> TimelyRun(p, net, t, steps)
    decreases |steps|
  {
    if steps != [] {
      hide Inv, Encrypt, Decrypt, Track, Timely;
      var next := Exec(p, net, steps[0]).0;
      match steps[0]
      case Send(plaintext, random) =>
        SendCorrect(p, net, chains, t, foreign, plaintext, random);
        RunFromInvariant(p, next, ChainsAfter(p, net, chains, random), t, foreign, steps[1..]);
      case Deliver(k) =>
        if Timely(t, k, net.sender.recvCount) {
          var t1 := Track(t, k, net.sender.recvCount);
          DeliverCorrect(p, net, chains, t, foreign, k);
          TimelyInStep(p, net, chains, t, foreign, k);
          RunFromInvariant(p, next, chains, t1, foreign, steps[1..]);
        } else {
          UntimelyFails(p, net, chains, t, foreign, k);
        }
    }
  }

  lemma TimelyInStep(p: Prims, net: Net, chains: seq<Chain>, t: Tracker, foreign: set<seq<byte>>, k: nat)
    requires DhCommutes(p) && Inv(p, net, chains, t, foreign)
    requires k < |net.sent| && Timely(t, k, net.sender.recvCount)
    ensures var next := Exec(p, net, Deliver(k)).0;
      k / PER_CHAIN == |net.sent| / PER_CHAIN ==> InStep(p, next.sender, next.receiver)
  {
    hide Encrypt, Decrypt, InStep, Inv;
    DeliverCorrect(p, net, chains, t, foreign, k);
    if k / PER_CHAIN == |net.sent| / PER_CHAIN {
      InvInStep(p, Exec(p, net, Deliver(k)).0, chains, Track(t, k, net.sender.recvCount), foreign);
    }
  }

  /** A covered delivery that is not timely does not yield the plaintext. */
  lemma UntimelyFails(p: Prims, net: Net, chains: seq<Chain>, t: Tracker, foreign: set<seq<byte>>, k: nat)
    requires Inv(p, net, chains, t, foreign) && Covered(p, net, t, foreign, Deliver(k))
    requires !Timely(t, k, net.sender.recvCount)
    ensures Exec(p, net, Deliver(k)).1 != Opening(Ok(net.sent[k].plaintext))
  {
    hide Decrypt, Ctr, Tag;
    DeliverUntimely(p, net, chains, t, foreign, k);
    if k / PER_CHAIN == t.chain {
      assert net.receiver.recvChainKey == ChainAt(p, chains[t.chain].base, t.high);
      assert SentOk(p, net.sent[k], k, chains, net.sender.recvCount);
    }
  }

  lemma {:induction false} LookupPrefix(slots: seq<Slot>, q: seq<byte>, n: u64)
    requires Lookup(slots, q, n).Some?
    ensures q in Prefixes(slots)
  {
    if Holds(slots[0], q, n) {
      assert slots[0].occupied;
    } else {
      LookupPrefix(slots[1..], q, n);
      var i :| 0 <= i < |slots[1..]| && slots[1..][i].occupied && slots[1..][i].prefix == q;
      assert slots[i + 1] == slots[1..][i];
    }
  }

  lemma PairedInv(p: Prims, s: State, r: State)
    requires Paired(p, s, r)
    ensures Inv(p, Net(s, r, []), [Chain(s.rootKey, s.sendChainKey, s.sendRatchetPublic, s.sendRatchetPrivate)],
                StartTracker(r), Prefixes(r.skipped))
  {
    forall q, n: u64 | Lookup(r.skipped, q, n).Some?
      ensures q in Prefixes(r.skipped)
    {
      LookupPrefix(r.skipped, q, n);
    }
    var chains := [Chain(s.rootKey, s.sendChainKey, s.sendRatchetPublic, s.sendRatchetPrivate)];
    assert TableOk(p, r.skipped, chains, StartTracker(r), Prefixes(r.skipped));
  }

  /** Whole-run agreement: from a paired sender and receiver, in every covered run of any length, all is well (each
      message opens to its plaintext and each ratchet brings the two ends back in step) exactly when every
      delivery is timely. */
  lemma RunAgreement(p: Prims, s: State, r: State, steps: seq<Step>)
    requires DhCommutes(p) && Paired(p, s, r)
    requires CoveredRun(p, Net(s, r, []), StartTracker(r), Prefixes(r.skipped), steps)
    ensures AllCorrect(p, Net(s, r, []), steps) <==> TimelyRun(p, Net(s, r, []), StartTracker(r), steps)
  {
    PairedInv(p, s, r);
    RunFromInvariant(p, Net(s, r, []), [Chain(s.rootKey, s.sendChainKey, s.sendRatchetPublic, s.sendRatchetPrivate)],
                     StartTracker(r), Prefixes(r.skipped), steps);
  }

  // ---------------------------------------------------------------- no message is timely twice

  predicate KeptBelow(t: Tracker)
  {
    forall n :: n in t.kept ==> n < t.high
  }

  /** Never timely again: of an older chain, or spent in this one. */
  predicate Gone(t: Tracker, k: nat)
  {
    k / PER_CHAIN < t.chain || (k / PER_CHAIN == t.chain && t.Spent(k % PER_CHAIN))
  }

  lemma GoneStays(t: Tracker, k: nat, j: nat, prevLen: nat)
    requires KeptBelow(t) && Timely(t, k, prevLen)
    ensures KeptBelow(Track(t, k, prevLen)) && Gone(Track(t, k, prevLen), k)
    ensures Gone(t, j) ==> Gone(Track(t, k, prevLen), j) && j != k
  {
    if k / PER_CHAIN == t.chain {
      SpentExactly(t, k % PER_CHAIN, j % PER_CHAIN);
      SpentExactly(t, k % PER_CHAIN, k % PER_CHAIN);
    }
  }

  lemma {:induction false} GoneIsNotDelivered(p: Prims, net: Net, t: Tracker, steps: seq<Step>, k: nat, i: nat)
    requires KeptBelow(t) && Gone(t, k) && TimelyRun(p, net, t, steps) && i < |steps|
    ensures steps[i] != Deliver(k)
    decreases |steps|
  {
    hide Exec, Track, Timely, Gone, KeptBelow;
    if steps[0].Deliver? {
      GoneStays(t, steps[0].k, k, net.sender.recvCount);
    }
    if i > 0 {
      GoneIsNotDelivered(p, Exec(p, net, steps[0]).0, NextTracker(net, t, steps[0]), steps[1..], k, i - 1);
    }
  }

  /** No message is delivered twice. */
  predicate NoRepeats(steps: seq<Step>)
  {
    forall i, j :: 0 <= i < j < |steps| && steps[i].Deliver? && steps[j].Deliver? ==> steps[i].k != steps[j].k
  }

  /** A run whose deliveries are all timely repeats none: with RunAgreement, no run with a repeat goes right. */
  lemma {:induction false} TimelyOnce(p: Prims, net: Net, t: Tracker, steps: seq<Step>)
    requires KeptBelow(t) && TimelyRun(p, net, t, steps)
    ensures NoRepeats(steps)
    decreases |steps|
  {
    hide Exec, Track, Timely, Gone, KeptBelow;
    if steps != [] {
      var next, t1 := Exec(p, net, steps[0]).0, NextTracker(net, t, steps[0]);
      if steps[0].Deliver? {
        GoneStays(t, steps[0].k, 0, net.sender.recvCount);
      }
      TimelyOnce(p, next, t1, steps[1..]);
      forall i, j | 0 <= i < j < |steps| && steps[i].Deliver? && steps[j].Deliver?
        ensures steps[i].k != steps[j].k
      {
        assert steps[j] == steps[1..][j - 1];
        if i == 0 {
          GoneIsNotDelivered(p, next, t1, steps[1..], steps[0].k, j - 1);
        } else {
          assert steps[i] == steps[1..][i - 1];
        }
      }
    }
  }

  // ---------------------------------------------------------------- one chain, any order

  predicate FirstChainOnly(steps: seq<Step>)
  {
    forall i :: 0 <= i < |steps| && steps[i].Deliver? ==> steps[i].k < PER_CHAIN
  }

  predicate Avoids(steps: seq<Step>, got: set<nat>)
  {
    forall i :: 0 <= i < |steps| && steps[i].Deliver? ==> steps[i].k !in got
  }

  /** While there is room for a whole chain, only deliveries spend numbers. */
  lemma {:induction false} OneChainTimely(p: Prims, net: Net, t: Tracker, foreign: set<seq<byte>>, got: set<nat>, steps: seq<Step>)
    requires t.chain == 0 && KeptBelow(t) && t.high + t.room >= PER_CHAIN
    requires forall n: nat :: t.Spent(n) <==> n in got
    requires CoveredRun(p, net, t, foreign, steps)
    requires FirstChainOnly(steps) && NoRepeats(steps) && Avoids(steps, got)
    ensures TimelyRun(p, net, t, steps)
    decreases |steps|
  {
    if steps != [] {
      hide Exec, TellsApart, Sendable;
      var t1 := NextTracker(net, t, steps[0]);
      var got1 := if steps[0].Deliver? then got + {steps[0].k} else got;
      if steps[0].Deliver? {
        var k := steps[0].k;
        forall n: nat
          ensures t1.Spent(n) <==> n in got1
        {
          SpentExactly(t, k, n);
        }
      }
      forall i | 0 <= i < |steps[1..]| && steps[1..][i].Deliver?
        ensures steps[1..][i].k < PER_CHAIN && steps[1..][i].k !in got1
      {
        assert steps[1..][i] == steps[i + 1];
      }
      OneChainTimely(p, Exec(p, net, steps[0]).0, t1, foreign, got1, steps[1..]);
    }
  }

  /** Order independence: with an empty table, messages of one chain arriving in any order all open exactly when
      none arrives twice. A chain has 100 messages, so the limit on skipped keys is never met. */
  lemma OrderIndependence(p: Prims, s: State, r: State, steps: seq<Step>)
    requires DhCommutes(p) && Paired(p, s, r) && Room(r.skipped) == MAX_SKIPPED_KEYS
    requires CoveredRun(p, Net(s, r, []), StartTracker(r), Prefixes(r.skipped), steps) && FirstChainOnly(steps)
    ensures AllCorrect(p, Net(s, r, []), steps) <==> NoRepeats(steps)
  {
    RunAgreement(p, s, r, steps);
    if NoRepeats(steps) {
      OneChainTimely(p, Net(s, r, []), StartTracker(r), Prefixes(r.skipped), {}, steps);
    } else if TimelyRun(p, Net(s, r, []), StartTracker(r), steps) {
      TimelyOnce(p, Net(s, r, []), StartTracker(r), steps);
    }
  }

  // ---------------------------------------------------------------- nothing lost, any number of ratchets

  /** What to send next: a plaintext, and the random bytes a ratchet would draw. */
  datatype Outgoing = Outgoing(plaintext: seq<byte>, random: Key)

  /** Every message is delivered as soon as it is sent. */
  function Lossless(messages: seq<Outgoing>, first: nat): (steps: seq<Step>)
  {
    if messages == [] then []
    else [Send(messages[0].plaintext, messages[0].random)] + ([Deliver(first)] + Lossless(messages[1..], first + 1))
  }

  ghost predicate AllSendable(p: Prims, net: Net, foreign: set<seq<byte>>, messages: seq<Outgoing>)
    decreases |messages|
  {
    messages == [] ||
    (&& Sendable(p, net, foreign, messages[0].plaintext, messages[0].random)
     && AllSendable(p, Exec(p, net, Send(messages[0].plaintext, messages[0].random)).0, foreign, messages[1..]))
  }

  lemma {:induction false} SendableAnywhere(p: Prims, net: Net, r: State, foreign: set<seq<byte>>, messages: seq<Outgoing>)
    requires AllSendable(p, net, foreign, messages)
    ensures AllSendable(p, net.(receiver := r), foreign, messages)
    decreases |messages|
  {
    if messages != [] {
      hide Encrypt;
      SendableAnywhere(p, Exec(p, net, Send(messages[0].plaintext, messages[0].random)).0, r, foreign, messages[1..]);
    }
  }

  /** Messages 0..k-1 have arrived in order and no key of the current chain is set aside. */
  predicate InOrder(t: Tracker, k: nat)
  {
    && t.kept == {}
    && if k == 0 then t.chain == 0 && t.high == 0
       else t.chain == (k - 1) / PER_CHAIN && t.high == (k - 1) % PER_CHAIN + 1
  }

  /** In order, a delivery is timely unless it opens a chain whose header asks for more than 200 keys. */
  lemma InOrderNext(t: Tracker, k: nat, prevLen: nat)
    requires InOrder(t, k)
    ensures t.chain <= k / PER_CHAIN <= t.chain + 1 && (k / PER_CHAIN == t.chain ==> !t.Spent(k % PER_CHAIN))
    ensures Timely(t, k, prevLen) <==> prevLen <= 2 * PER_CHAIN || k == 0 || k % PER_CHAIN > 0
    ensures Timely(t, k, prevLen) ==> InOrder(Track(t, k, prevLen), k + 1)
  {
    if k > 0 {
      if k % PER_CHAIN > 0 {
        assert (k - 1) / PER_CHAIN == k / PER_CHAIN && (k - 1) % PER_CHAIN == k % PER_CHAIN - 1;
      } else {
        assert (k - 1) / PER_CHAIN + 1 == k / PER_CHAIN && (k - 1) % PER_CHAIN == PER_CHAIN - 1;
      }
    }
  }

  lemma SendAppends(p: Prims, net: Net, message: Outgoing)
    requires net.sender.established && |message.plaintext| <= 240
    ensures var next := Exec(p, net, Send(message.plaintext, message.random)).0;
      && |next.sent| == |net.sent| + 1 && next.receiver == net.receiver
      && next.sender.established && next.sender.recvCount == net.sender.recvCount
  {
  }

  lemma FirstStep(p: Prims, net: Net, t: Tracker, foreign: set<seq<byte>>, step: Step, rest: seq<Step>)
    requires step.Deliver? ==> step.k < |net.sent|
    ensures var next, t1 := Exec(p, net, step).0, NextTracker(net, t, step);
      && (CoveredRun(p, net, t, foreign, [step] + rest) <==>
            Covered(p, net, t, foreign, step) && (TimelyStep(net, t, step) ==> CoveredRun(p, next, t1, foreign, rest)))
      && (TimelyRun(p, net, t, [step] + rest) <==> TimelyStep(net, t, step) && TimelyRun(p, next, t1, rest))
  {
    assert ([step] + rest)[1..] == rest;
  }

  /** Nothing lost: every such run is covered, and its deliveries are timely unless the first ratchet asks for too
      much. */
  lemma {:induction false} LosslessTimely(p: Prims, net: Net, t: Tracker, foreign: set<seq<byte>>, messages: seq<Outgoing>)
    requires net.sender.established && InOrder(t, |net.sent|)
    requires net.sender.recvCount <= 2 * PER_CHAIN || |net.sent| <= PER_CHAIN
    requires AllSendable(p, net, foreign, messages)
    ensures CoveredRun(p, net, t, foreign, Lossless(messages, |net.sent|))
    ensures TimelyRun(p, net, t, Lossless(messages, |net.sent|)) <==>
            net.sender.recvCount <= 2 * PER_CHAIN || |net.sent| + |messages| <= PER_CHAIN
    decreases |messages|
  {
    hide Encrypt, Decrypt, Timely, Track, InOrder, FreshPublic, TellsApart, CoveredRun, TimelyRun;
    var k := |net.sent|;
    if messages == [] {
      NothingToDo(p, net, t, foreign);
      assert Lossless(messages, k) == [];
    } else {
      var send := Send(messages[0].plaintext, messages[0].random);
      var later := Lossless(messages[1..], k + 1);
      var sent := Exec(p, net, send).0;
      SendAppends(p, net, messages[0]);
      InOrderNext(t, k, net.sender.recvCount);
      FirstStep(p, net, t, foreign, send, [Deliver(k)] + later);
      FirstStep(p, sent, t, foreign, Deliver(k), later);
      assert Lossless(messages, k) == [send] + ([Deliver(k)] + later);
      if Timely(t, k, net.sender.recvCount) {
        var received := Exec(p, sent, Deliver(k)).0;
        SendableAnywhere(p, sent, received.receiver, foreign, messages[1..]);
        LosslessTimely(p, received, Track(t, k, net.sender.recvCount), foreign, messages[1..]);
      }
    }
  }

  lemma NothingToDo(p: Prims, net: Net, t: Tracker, foreign: set<seq<byte>>)
    ensures CoveredRun(p, net, t, foreign, []) && TimelyRun(p, net, t, [])
  {
  }

  /** On a link that loses and reorders nothing, with any skipped table, all goes well exactly when no ratchet
      happens or the sender has itself received at most 200 messages in its current receiving chain: that count
      is what it announces as the length of the chain it leaves, and the receiver has passed 100. */
  lemma LosslessLink(p: Prims, s: State, r: State, messages: seq<Outgoing>)
    requires DhCommutes(p) && Paired(p, s, r)
    requires AllSendable(p, Net(s, r, []), Prefixes(r.skipped), messages)
    ensures AllCorrect(p, Net(s, r, []), Lossless(messages, 0)) <==> s.recvCount <= 200 || |messages| <= 100
  {
    LosslessTimely(p, Net(s, r, []), StartTracker(r), Prefixes(r.skipped), messages);
    RunAgreement(p, s, r, Lossless(messages, 0));
  }

  // ---------------------------------------------------------------- the keys a receiver uses

  /** Every chain key is derived from the one before it. */
  lemma ChainLinks(p: Prims, base: Key, n: nat)
    ensures ChainAt(p, base, 0) == base
    ensures ChainAt(p, base, n + 1) == p.hkdf(ChainAt(p, base, n), Ascii("chain-advance"), Ascii("lunarpunk-chain-key-v2"))
  {
  }

  lemma {:induction false} ChainShift(p: Prims, base: Key, n: nat)
    ensures ChainAt(p, NextChain(p, base), n) == ChainAt(p, base, n + 1)
  {
    if n > 0 {
      ChainShift(p, base, n - 1);
    }
  }

  lemma {:induction false} SkipChain(p: Prims, st: State, until: u64)
    requires st.recvCount <= until
    ensures SkipTo(p, st, until).recvChainKey == ChainAt(p, st.recvChainKey, until - st.recvCount)
    decreases until - st.recvCount
  {
    if st.recvCount < until {
      SkipChain(p, SkipOne(p, st), until);
      ChainShift(p, st.recvChainKey, until - st.recvCount - 1);
    }
  }

  /** The key a message is opened with, once the receiver is on the message's chain (e is r itself for a message of
      the current chain): the one set aside for it, or the one that its number and the chain key, stepped as often
      as the number is ahead, give. */
  function OpeningKey(p: Prims, e: State, h: Header): (key: Key)
  {
    var stored := Lookup(e.skipped, h.dhPublic[..8], h.messageNum);
    if stored.Some? then stored.value
    else
      var ahead := if h.messageNum > e.recvCount then h.messageNum - e.recvCount else 0;
      p.hkdf(ChainAt(p, e.recvChainKey, ahead), Le64(h.messageNum), Ascii("lunarpunk-message-key-v2"))
  }

  /** A message on the receiver's chain is refused when it is more than 100 ahead, and otherwise opened with that key. */
  lemma DecryptKey(p: Prims, r: State, m: Sealed, e: State)
    requires r.established && |m.ciphertext| >= 16 && EnterChain(p, r, m.header) == Ok(e)
    ensures Decrypt(p, r, m).1 ==
      if Lookup(e.skipped, m.header.dhPublic[..8], m.header.messageNum).None? && m.header.messageNum > e.recvCount + 100
      then Err(TooManySkipped)
      else Open(p, OpeningKey(p, e, m.header), m.header, m.ciphertext)
  {
    hide EnterChain, Open;
    var h := m.header;
    DecryptEntered(p, r, m, e);
    if Lookup(e.skipped, Prefix(h.dhPublic), h.messageNum).Some? {
      KeyStays(p, e, h);
    } else if h.messageNum > e.recvCount + 100 {
      SkipRefused(p, r, m, e);
    } else {
      hide Decrypt, GetMessageKey;
      NewKeyComputed(p, e, h);
      if h.messageNum > e.recvCount {
        SkipChain(p, e, h.messageNum);
      }
    }
  }

  lemma SkipRefused(p: Prims, r: State, m: Sealed, e: State)
    requires r.established && |m.ciphertext| >= 16 && EnterChain(p, r, m.header) == Ok(e)
    requires Lookup(e.skipped, Prefix(m.header.dhPublic), m.header.messageNum).None?
    requires m.header.messageNum > e.recvCount + 100
    ensures Decrypt(p, r, m).1 == Err(TooManySkipped)
  {
  }

  /** What a successful decryption returns: every byte unmasked with its key stream byte, under a valid tag. */
  lemma DecryptBytes(p: Prims, r: State, m: Sealed, e: State)
    requires r.established && |m.ciphertext| >= 16 && EnterChain(p, r, m.header) == Ok(e)
    requires Decrypt(p, r, m).1.Ok?
    ensures var key, h, c := OpeningKey(p, e, m.header), m.header, m.ciphertext;
      var n, text := |c| - 16, Decrypt(p, r, m).1.value;
      && |text| == n
      && (forall k :: 0 <= k < n ==> text[k] == XorByte(c[k], p.aes256(key, Le64(h.messageNum) + Le64(k / 16))[k % 16]))
      && c[n..] == Tag(p, key, h.dhPublic + Le64(h.prevChainLen) + Le64(h.messageNum) + c[..n])
  {
    hide Decrypt, EnterChain, OpeningKey, Open, XorByte, Le64;
    DecryptKey(p, r, m, e);
    OpenBytes(p, OpeningKey(p, e, m.header), m.header, m.ciphertext);
  }

  // ---------------------------------------------------------------- key and counter

  /** Chain key and counter agree: the key is the one the counter names. */
  ghost predicate OnChain(p: Prims, r: State, base: Key)
  {
    r.recvChainKey == ChainAt(p, base, r.recvCount)
  }

  /** The next chain key is none of the earlier ones. */
  ghost predicate NoReturn(p: Prims, base: Key, count: nat)
  {
    forall n :: 0 <= n <= count ==> ChainAt(p, base, n) != ChainAt(p, base, count + 1)
  }

  lemma {:induction false} SkipStaysOnChain(p: Prims, st: State, until: u64, base: Key)
    requires OnChain(p, st, base)
    ensures OnChain(p, SkipTo(p, st, until), base)
    ensures SkipTo(p, st, until).recvCount == Max(st.recvCount, until)
    decreases until - st.recvCount
  {
    if st.recvCount < until {
      SkipStaysOnChain(p, SkipOne(p, st), until, base);
    }
  }

  lemma StaysInChain(p: Prims, r: State, h: Header)
    requires h.dhPublic == r.recvRatchetPublic
    ensures EnterChain(p, r, h) == Ok(r)
  {
  }

  /** Once the chain is entered, the new state is the key lookup's, whatever the tag says. */
  lemma DecryptEntered(p: Prims, r: State, m: Sealed, e: State)
    requires r.established && |m.ciphertext| >= TAG_SIZE && EnterChain(p, r, m.header) == Ok(e)
    ensures var (r1, key) := GetMessageKey(p, e, m.header);
      && Decrypt(p, r, m).0 == r1
      && (key.Ok? ==> Decrypt(p, r, m).1 == Open(p, key.value, m.header, m.ciphertext))
  {
  }

  /** The counter is not about to wrap around: no message number within reach is the last 64-bit word. */
  predicate FarFromWrap(r: State)
  {
    r.recvCount + MAX_SKIPPED_KEYS + 1 < 0x1_0000_0000_0000_0000
  }

  lemma KeyKeepsOnChain(p: Prims, r: State, h: Header, base: Key)
    requires OnChain(p, r, base) && FarFromWrap(r)
    requires Lookup(r.skipped, Prefix(h.dhPublic), h.messageNum).Some? || h.messageNum >= r.recvCount
    ensures OnChain(p, GetMessageKey(p, r, h).0, base)
  {
    hide GetMessageKey, SkipTo, MessageKey;
    var n := h.messageNum;
    if Lookup(r.skipped, Prefix(h.dhPublic), n).Some? || n - r.recvCount > MAX_SKIPPED_KEYS {
      OldKeyComputed(p, r, h);
    } else {
      NewKeyComputed(p, r, h);
      SkipStaysOnChain(p, r, n, base);
      assert ChainAt(p, base, n + 1) == NextChain(p, ChainAt(p, base, n));
    }
  }

  lemma OldKeyComputed(p: Prims, r: State, h: Header)
    requires Lookup(r.skipped, Prefix(h.dhPublic), h.messageNum).Some? || h.messageNum - r.recvCount > MAX_SKIPPED_KEYS
    ensures var r1 := GetMessageKey(p, r, h).0;
      r1 == r.(skipped := r1.skipped)
  {
  }

  /** Any message under the current ratchet public, whatever its tag, leaves key and counter in agreement exactly when
      it is refused outright, its key was set aside, or its number has not been passed. Otherwise the chain key moves
      on and the counter does not. */
  lemma PassedNumberParts(p: Prims, r: State, m: Sealed, base: Key)
    requires m.header.dhPublic == r.recvRatchetPublic && FarFromWrap(r)
    requires OnChain(p, r, base) && NoReturn(p, base, r.recvCount)
    ensures OnChain(p, Decrypt(p, r, m).0, base) <==>
            || !r.established || |m.ciphertext| < TAG_SIZE
            || Lookup(r.skipped, Prefix(m.header.dhPublic), m.header.messageNum).Some?
            || m.header.messageNum >= r.recvCount
  {
    hide GetMessageKey, MessageKey, EnterChain, Open;
    if !r.established || |m.ciphertext| < TAG_SIZE {
      return;
    }
    hide Decrypt;
    var h := m.header;
    StaysInChain(p, r, h);
    DecryptEntered(p, r, m, r);
    if Lookup(r.skipped, Prefix(h.dhPublic), h.messageNum).Some? || h.messageNum >= r.recvCount {
      KeyKeepsOnChain(p, r, h, base);
    } else {
      NewKeyComputed(p, r, h);
    }
  }

  /** In a run: any delivery from the current chain leaves key and counter in agreement exactly when it is timely. By
      GoneStays a second copy never is, nor is a message whose key found no room. */
  lemma RepeatParts(p: Prims, net: Net, chains: seq<Chain>, t: Tracker, foreign: set<seq<byte>>, k: nat)
    requires DhCommutes(p) && Inv(p, net, chains, t, foreign)
    requires k < |net.sent| && k / PER_CHAIN == t.chain && NoReturn(p, chains[t.chain].base, t.high)
    ensures OnChain(p, Exec(p, net, Deliver(k)).0.receiver, chains[t.chain].base) <==> Timely(t, k, net.sender.recvCount)
  {
    hide Encrypt, Decrypt;
    if Timely(t, k, net.sender.recvCount) {
      DeliverCorrect(p, net, chains, t, foreign, k);
    } else {
      DeliverUntimely(p, net, chains, t, foreign, k);
    }
  }

  /** What a header with any other public does, an older chain's included: unless it asks for too many keys, the
      receiver's root, chain and counter are replaced before the tag is looked at, and stay replaced whatever it
      says; and if the message's key had been set aside, that key opens it on the way. */
  lemma OtherPublicReplaces(p: Prims, r: State, m: Sealed)
    requires r.established && |m.ciphertext| >= TAG_SIZE && m.header.dhPublic != r.recvRatchetPublic
    ensures var (r1, out) := Decrypt(p, r, m);
      var dh := p.x25519(r.sendRatchetPrivate, m.header.dhPublic);
      var chain := p.hkdf(r.rootKey + dh, Ascii("chain"), Ascii("lunarpunk-chain-key-v2"));
      var root := p.hkdf(r.rootKey + dh, Ascii("root"), Ascii("lunarpunk-root-key-v2"));
      var n := m.header.messageNum;
      if m.header.prevChainLen - r.recvCount > MAX_SKIPPED_KEYS then r1 == r && out == Err(TooManySkipped)
      else
        && r1.recvRatchetPublic == m.header.dhPublic && r1.rootKey == root
        && OnChain(p, r1, chain)
        && (Prefix(m.header.dhPublic) != Prefix(r.recvRatchetPublic) ==>
              var stored := Lookup(r.skipped, Prefix(m.header.dhPublic), n);
              stored.Some? ==> out == Open(p, stored.value, m.header, m.ciphertext))
  {
    hide Decrypt, GetMessageKey, SkipTo, OnChain, Open;
    var h := m.header;
    var dh := p.x25519(r.sendRatchetPrivate, h.dhPublic);
    var chain := RatchetChain(p, r.rootKey, dh);
    if h.prevChainLen - r.recvCount <= MAX_SKIPPED_KEYS {
      var st := SkipTo(p, r, h.prevChainLen);
      var e := AdvanceRecv(p, st, h.dhPublic);
      SkipKeeps(p, r, h.prevChainLen, Prefix(h.dhPublic), h.messageNum);
      DecryptEntered(p, r, m, e);
      assert OnChain(p, e, chain) by { AtStart(p, e, chain); }
      KeyStays(p, e, h);
      KeyKeepsOnChain(p, e, h, chain);
    } else {
      RefusedEntry(p, r, m);
    }
  }

  lemma AtStart(p: Prims, r: State, base: Key)
    requires r.recvCount == 0 && r.recvChainKey == base
    ensures OnChain(p, r, base)
  {
  }

  lemma RefusedEntry(p: Prims, r: State, m: Sealed)
    requires r.established && |m.ciphertext| >= TAG_SIZE && m.header.dhPublic != r.recvRatchetPublic
    requires m.header.prevChainLen - r.recvCount > MAX_SKIPPED_KEYS
    ensures Decrypt(p, r, m) == (r, Err(TooManySkipped))
  {
  }

  /** Taking a message key touches neither root nor ratchet keys; a key that was set aside is the one taken. */
  lemma KeyStays(p: Prims, r: State, h: Header)
    ensures var (r1, key) := GetMessageKey(p, r, h);
      && r1.rootKey == r.rootKey && r1.recvRatchetPublic == r.recvRatchetPublic
      && (Lookup(r.skipped, Prefix(h.dhPublic), h.messageNum).Some? ==>
            key == Ok(Lookup(r.skipped, Prefix(h.dhPublic), h.messageNum).value))
  {
    SkipKeeps(p, r, h.messageNum, [], 0);
  }

  /** Skipping touches neither root nor ratchet keys, and no answer under another prefix that was there. */
  lemma {:induction false} SkipKeeps(p: Prims, st: State, until: u64, q: seq<byte>, n: u64)
    ensures var r := SkipTo(p, st, until);
      && r == st.(recvCount := r.recvCount, recvChainKey := r.recvChainKey, skipped := r.skipped)
      && (q != Prefix(st.recvRatchetPublic) ==> Lookup(r.skipped, q, n) == Lookup(st.skipped, q, n))
    decreases until - st.recvCount
  {
    if st.recvCount < until {
      var key := MessageKey(p, st.recvChainKey, st.recvCount);
      if q != Prefix(st.recvRatchetPublic) {
        InsertElsewhere(st.skipped, Prefix(st.recvRatchetPublic), st.recvCount, key, q, n);
      }
      SkipKeeps(p, SkipOne(p, st), until, q, n);
    }
  }

  /** Encryption keeps the chain key and the counter together exactly when the plaintext fits in 240 bytes: the chain
      steps before the length is checked. The hundredth message of a chain that fits starts the next chain. (A chain
      key that steps to itself would not show it.) */
  lemma EncryptKeepsStep(p: Prims, s: State, base: Key, plaintext: seq<byte>, random: Key)
    requires s.established && s.sendCount < PER_CHAIN
    requires s.sendChainKey == ChainAt(p, base, s.sendCount) && NextChain(p, s.sendChainKey) != s.sendChainKey
    ensures var s1 := Encrypt(p, s, plaintext, random).0;
      var next := RatchetChain(p, s.rootKey, p.x25519(Clamp(random), s.recvRatchetPublic));
      (s1.sendChainKey == ChainAt(p, if s1.sendCount < s.sendCount then next else base, s1.sendCount))
      <==> |plaintext| <= 240
  {
    assert ChainAt(p, base, s.sendCount + 1) == NextChain(p, s.sendChainKey);
    assert forall key :: ChainAt(p, key, 0) == key;
  }
}
