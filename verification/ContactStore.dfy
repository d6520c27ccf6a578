/** The contact store (lunarcore/lunar/contact.c): 64 slots, searched linearly for a fingerprint and probed from a
    hash for a free slot. Seen from outside it is a finite map. */
module ContactStore {
  import opened Bytes
  import opened Primitives
  import opened ContactCodec

  const MAX_CONTACTS: nat := 64

  type Fingerprint = s: seq<byte> | |s| == 8 witness seq(8, _ => 0)

  datatype Slot = Free | Taken(key: Fingerprint, value: Contact)

  /** The first eight bytes of the hash of the signing key. */
  function FingerprintOf(p: Prims, c: Contact): (f: Fingerprint)
  {
    p.sha256(c.hello.ed25519Public)[..8]
  }

  /** FNV-1a over the eight key bytes in a 32-bit word, reduced to a slot number. */
  function HashFrom(key: seq<byte>, hash: u32): (h: u32)
  {
    if key == [] then hash else HashFrom(key[1..], (XorWord(hash, key[0]) * 16777619) % 0x1_0000_0000)
  }

  function HashKey(key: Fingerprint): (i: nat)
    ensures i < MAX_CONTACTS
  {
    HashFrom(key, 2166136261) % MAX_CONTACTS
  }

  /** The k-th slot tried from a starting slot. */
  function ProbeAt(start: nat, k: nat): (i: nat)
    ensures i < MAX_CONTACTS
  {
    (start + k) % MAX_CONTACTS
  }

  // ---------------------------------------------------------------- the map behind the slots

  /** Every fingerprint held by a slot, with that slot's value. */
  function Contents(slots: seq<Slot>): (m: map<Fingerprint, Contact>)
  {
    if slots == [] then map[]
    else
      var rest := Contents(slots[..|slots| - 1]);
      match slots[|slots| - 1]
      case Free => rest
      case Taken(key, value) => rest[key := value]
  }

  /** No two slots hold the same fingerprint. */
  predicate Unique(slots: seq<Slot>)
  {
    forall i, j :: 0 <= i < j < |slots| && slots[i].Taken? && slots[j].Taken? ==> slots[i].key != slots[j].key
  }

  function CountTaken(slots: seq<Slot>): (n: nat)
    ensures n <= |slots|
  {
    if slots == [] then 0
    else CountTaken(slots[..|slots| - 1]) + if slots[|slots| - 1].Taken? then 1 else 0
  }

  /** A slot holds a fingerprint exactly when the map does, and with the map's value. */
  lemma {:induction false} ContentsAt(slots: seq<Slot>, key: Fingerprint)
    requires Unique(slots)
    ensures key in Contents(slots) <==> exists i :: 0 <= i < |slots| && slots[i].Taken? && slots[i].key == key
    ensures forall i :: 0 <= i < |slots| && slots[i].Taken? && slots[i].key == key ==>
              key in Contents(slots) && Contents(slots)[key] == slots[i].value
  {
    if slots != [] {
      var n := |slots| - 1;
      var front := slots[..n];
      ContentsAt(front, key);
      if key in Contents(front) {
        var i :| 0 <= i < |front| && front[i].Taken? && front[i].key == key;
        assert slots[i] == front[i];
      }
    }
  }

  lemma {:induction false} ContentsSize(slots: seq<Slot>)
    requires Unique(slots)
    ensures |Contents(slots)| == CountTaken(slots)
  {
    if slots != [] {
      var n := |slots| - 1;
      ContentsSize(slots[..n]);
      if slots[n].Taken? {
        ContentsAt(slots[..n], slots[n].key);
        assert slots[n].key !in Contents(slots[..n]);
      }
    }
  }

  /** Changing one slot changes the map at the fingerprints involved and nowhere else. */
  lemma ContentsUpdate(slots: seq<Slot>, i: nat, s: Slot)
    requires i < |slots| && Unique(slots) && Unique(slots[i := s])
    ensures Contents(slots[i := s]) ==
      (if slots[i].Taken? then Contents(slots) - {slots[i].key} else Contents(slots))
      + (if s.Taken? then map[s.key := s.value] else map[])
  {
    var slots1 := slots[i := s];
    var left := Contents(slots1);
    var right := (if slots[i].Taken? then Contents(slots) - {slots[i].key} else Contents(slots))
                 + (if s.Taken? then map[s.key := s.value] else map[]);
    forall key: Fingerprint
      ensures key in left <==> key in right
      ensures key in left ==> left[key] == right[key]
    {
      ContentsAt(slots, key);
      ContentsAt(slots1, key);
      if key in left {
        var k :| 0 <= k < |slots1| && slots1[k].Taken? && slots1[k].key == key;
        if k != i {
          assert slots[k] == slots1[k];
        }
      }
      if key in right && !(s.Taken? && key == s.key) {
        var k :| 0 <= k < |slots| && slots[k].Taken? && slots[k].key == key;
        assert slots1[k] == slots[k];
      }
      if s.Taken? && key == s.key {
        assert slots1[i] == s;
      }
    }
  }

  lemma {:induction false} CountUpdate(slots: seq<Slot>, i: nat, s: Slot)
    requires i < |slots|
    ensures CountTaken(slots[i := s]) ==
            CountTaken(slots) - (if slots[i].Taken? then 1 else 0) + (if s.Taken? then 1 else 0)
  {
    var n := |slots| - 1;
    if i < n {
      assert slots[i := s][..n] == slots[..n][i := s];
      CountUpdate(slots[..n], i, s);
    } else {
      assert slots[i := s][..n] == slots[..n];
    }
  }

  lemma {:induction false} CountFull(slots: seq<Slot>)
    ensures CountTaken(slots) == |slots| <==> forall k :: 0 <= k < |slots| ==> slots[k].Taken?
  {
    if slots != [] {
      CountFull(slots[..|slots| - 1]);
    }
  }

  // ---------------------------------------------------------------- the map operations

  datatype Op = Add(contact: Contact) | Remove(gone: Fingerprint)

  /** Adding to the map fails exactly when the fingerprint is new and the map holds 64. */
  function AddTo(p: Prims, m: map<Fingerprint, Contact>, c: Contact): (r: (map<Fingerprint, Contact>, bool))
  {
    var key := FingerprintOf(p, c);
    if key in m || |m| < MAX_CONTACTS then (m[key := c], true) else (m, false)
  }

  function Do(p: Prims, m: map<Fingerprint, Contact>, op: Op): (r: map<Fingerprint, Contact>)
  {
    match op case Add(contact) => AddTo(p, m, contact).0 case Remove(key) => m - {key}
  }

  /** A contact is stored under the first eight bytes of the SHA-256 of its signing key, in place of the one that was
      there; nothing else changes; and it is turned away exactly when that is new and 64 are held. */
  lemma AddExactly(p: Prims, m: map<Fingerprint, Contact>, c: Contact)
    ensures var key: Fingerprint := p.sha256(c.hello.ed25519Public)[..8];
      var (r, ok) := AddTo(p, m, c);
      && (!ok <==> key !in m && |m| >= 64)
      && (ok ==> key in r && r[key] == c && r.Keys == m.Keys + {key} && forall k :: k in m && k != key ==> r[k] == m[k])
      && (!ok ==> r == m)
  {
  }

  /** The slot number is the 32-bit FNV-1a hash, byte by byte from offset basis 2166136261. */
  lemma {:induction false} HashStep(key: seq<byte>, b: byte, hash: u32)
    ensures HashFrom([], hash) == hash
    ensures HashFrom(key + [b], hash) == Xor(HashFrom(key, hash), b) * 16777619 % 0x1_0000_0000
    decreases |key|
  {
    hide XorWord;
    if key == [] {
      assert ([] + [b])[1..] == [];
      WordXor(hash, b);
    } else {
      assert (key + [b])[1..] == key[1..] + [b];
      HashStep(key[1..], b, (XorWord(hash, key[0]) * 16777619) % 0x1_0000_0000);
    }
  }

  lemma WordXor(a: u32, b: u32)
    ensures XorWord(a, b) == Xor(a, b)
  {
  }

  // ---------------------------------------------------------------- the implementation

  class Store {
    const slots: array<Slot>
    var count: nat

    ghost predicate Valid()
      reads this, slots
    {
      slots.Length == MAX_CONTACTS && Unique(slots[..]) && count == CountTaken(slots[..])
    }

    ghost function View(): (m: map<Fingerprint, Contact>)
      reads this, slots
      requires Valid()
    {
      Contents(slots[..])
    }

    constructor ()
      ensures Valid() && fresh(slots) && View() == map[]
    {
      slots := new Slot[MAX_CONTACTS](_ => Free);
      count := 0;
      new;
      NothingTaken(slots[..]);
    }

    /** The slot holding a fingerprint, or 64. */
    method Locate(key: Fingerprint) returns (i: nat)
      requires Valid()
      ensures i <= MAX_CONTACTS
      ensures if i < MAX_CONTACTS then
                slots[i].Taken? && slots[i].key == key && key in View() && View()[key] == slots[i].value
              else key !in View()
    {
      i := 0;
      while i < slots.Length
        invariant i <= slots.Length
        invariant forall k :: 0 <= k < i ==> !(slots[k].Taken? && slots[k].key == key)
      {
        if slots[i].Taken? && slots[i].key == key {
          ContentsAt(slots[..], key);
          assert slots[..][i] == slots[i];
          return;
        }
        i := i + 1;
      }
      ContentsAt(slots[..], key);
    }

    /** Probing from the key's hash: a free slot, or 64 exactly when all are taken. */
    method Probe(key: Fingerprint) returns (i: nat)
      requires Valid()
      ensures i <= MAX_CONTACTS
      ensures if i < MAX_CONTACTS then slots[i].Free? else forall k :: 0 <= k < MAX_CONTACTS ==> slots[k].Taken?
    {
      var start := HashKey(key);
      for j := 0 to MAX_CONTACTS
        invariant forall k :: 0 <= k < j ==> slots[ProbeAt(start, k)].Taken?
      {
        var at := ProbeAt(start, j);
        if slots[at].Free? {
          return at;
        }
      }
      forall k | 0 <= k < MAX_CONTACTS
        ensures slots[k].Taken?
      {
        var d := if k >= start then k - start else k + MAX_CONTACTS - start;
        assert ProbeAt(start, d) == k;
      }
      return MAX_CONTACTS;
    }

    /** Write one slot; the counter is the caller's business. */
    method SetSlot(i: nat, s: Slot)
      requires Valid() && i < MAX_CONTACTS
      requires s.Taken? ==> if slots[i].Taken? then slots[i].key == s.key else s.key !in View()
      modifies slots
      ensures Unique(slots[..])
      ensures Contents(slots[..]) ==
        if s.Taken? then old(View())[s.key := s.value]
        else if old(slots[i]).Taken? then old(View()) - {old(slots[i]).key}
        else old(View())
      ensures CountTaken(slots[..]) == count - (if old(slots[i]).Taken? then 1 else 0) + (if s.Taken? then 1 else 0)
    {
      ghost var before := slots[..];
      if s.Taken? {
        ContentsAt(before, s.key);
      }
      Replace(before, i, s);
      if s.Taken? {
        MapPut(old(View()), s.key, s.value);
      }
      slots[i] := s;
      assert slots[..] == before[i := s];
    }

    method AddContact(p: Prims, value: Contact) returns (ok: bool)
      requires Valid()
      modifies this, slots
      ensures Valid() && (View(), ok) == AddTo(p, old(View()), value)
      ensures count == |View()|
    {
      hide Contents, CountTaken, Unique;
      var key := FingerprintOf(p, value);
      ContentsSize(slots[..]);
      var i := Locate(key);
      if i < MAX_CONTACTS {
        SetSlot(i, Taken(key, value));
        ContentsSize(slots[..]);
        return true;
      }
      CountFull(slots[..]);
      i := Probe(key);
      if i < MAX_CONTACTS {
        SetSlot(i, Taken(key, value));
        count := count + 1;
        ContentsSize(slots[..]);
        return true;
      }
      return false;
    }

    method GetContact(key: Fingerprint) returns (value: Option<Contact>)
      requires Valid()
      ensures value == if key in View() then Some(View()[key]) else None
    {
      var i := Locate(key);
      return if i < MAX_CONTACTS then Some(slots[i].value) else None;
    }

    method RemoveContact(key: Fingerprint) returns (value: Option<Contact>)
      requires Valid()
      modifies this, slots
      ensures Valid() && View() == old(View()) - {key}
      ensures value == if key in old(View()) then Some(old(View())[key]) else None
      ensures count == |View()|
    {
      hide Contents, CountTaken, Unique;
      ghost var m := View();
      ContentsSize(slots[..]);
      var i := Locate(key);
      if i == MAX_CONTACTS {
        assert m - {key} == m;
        return None;
      }
      value := Some(slots[i].value);
      SetSlot(i, Free);
      assert count > 0 by { TakenCounts(old(slots[..]), i); }
      count := count - 1;
      ContentsSize(slots[..]);
    }
  }

  lemma MapPut(m: map<Fingerprint, Contact>, key: Fingerprint, value: Contact)
    ensures (m - {key}) + map[key := value] == m[key := value] == m + map[key := value]
  {
  }

  lemma {:induction false} TakenCounts(slots: seq<Slot>, i: nat)
    requires i < |slots| && slots[i].Taken?
    ensures CountTaken(slots) > 0
  {
    if i < |slots| - 1 {
      TakenCounts(slots[..|slots| - 1], i);
    }
  }

  /** Writing a slot whose new fingerprint no other slot holds. */
  lemma Replace(slots: seq<Slot>, i: nat, s: Slot)
    requires i < |slots| && Unique(slots)
    requires s.Taken? ==> forall k :: 0 <= k < |slots| && k != i && slots[k].Taken? ==> slots[k].key != s.key
    ensures Unique(slots[i := s])
    ensures Contents(slots[i := s]) ==
      (if slots[i].Taken? then Contents(slots) - {slots[i].key} else Contents(slots))
      + (if s.Taken? then map[s.key := s.value] else map[])
    ensures CountTaken(slots[i := s]) ==
            CountTaken(slots) - (if slots[i].Taken? then 1 else 0) + (if s.Taken? then 1 else 0)
  {
    ContentsUpdate(slots, i, s);
    CountUpdate(slots, i, s);
  }

  lemma {:induction false} NothingTaken(slots: seq<Slot>)
    requires forall k :: 0 <= k < |slots| ==> slots[k].Free?
    ensures CountTaken(slots) == 0 && Contents(slots) == map[]
  {
    if slots != [] {
      NothingTaken(slots[..|slots| - 1]);
    }
  }

  // ---------------------------------------------------------------- runs

  function Run(p: Prims, m: map<Fingerprint, Contact>, ops: seq<Op>): (r: map<Fingerprint, Contact>)
    decreases |ops|
  {
    if ops == [] then m else Run(p, Do(p, m, ops[0]), ops[1..])
  }

  /** Over every run of the implementation's operations, the store is the map the operations describe, holds at
      most 64 fingerprints, and its counter is the size of that map. */
  method RunStore(p: Prims, ops: seq<Op>) returns (store: Store)
    ensures store.Valid() && store.View() == Run(p, map[], ops)
    ensures store.count == |store.View()| <= 64
  {
    store := new Store();
    ContentsSize(store.slots[..]);
    assert ops[0..] == ops;
    for i := 0 to |ops|
      invariant fresh(store) && fresh(store.slots) && store.Valid()
      invariant store.count == |store.View()|
      invariant Run(p, store.View(), ops[i..]) == Run(p, map[], ops)
    {
      assert ops[i..][0] == ops[i] && ops[i..][1..] == ops[i + 1..];
      match ops[i]
      case Add(contact) => var _ := store.AddContact(p, contact);
      case Remove(key) => var _ := store.RemoveContact(key);
    }
  }
}
