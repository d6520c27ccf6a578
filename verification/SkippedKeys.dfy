/** The table of message keys set aside for messages that have not arrived yet
    (lunarcore/lunar/session.c): a fixed array of slots searched first to last. */
module SkippedKeys {
  import opened Bytes
  import opened Primitives

  const MAX_SKIPPED_KEYS: nat := 100

  datatype Slot = Slot(prefix: seq<byte>, num: u64, key: Key, occupied: bool)

  predicate Holds(s: Slot, prefix: seq<byte>, num: u64)
  {
    s.occupied && s.prefix == prefix && s.num == num
  }

  /** Number of free slots. */
  function Room(slots: seq<Slot>): (n: nat)
    ensures n <= |slots|
  {
    if slots == [] then 0 else (if slots[0].occupied then 0 else 1) + Room(slots[1..])
  }

  /** Fill the first free slot; a full table silently drops the key. */
  function Insert(slots: seq<Slot>, prefix: seq<byte>, num: u64, key: Key): (r: seq<Slot>)
    ensures |r| == |slots|
  {
    if slots == [] then []
    else if !slots[0].occupied then [Slot(prefix, num, key, true)] + slots[1..]
    else [slots[0]] + Insert(slots[1..], prefix, num, key)
  }

  /** The key in the first matching slot. */
  function Lookup(slots: seq<Slot>, prefix: seq<byte>, num: u64): (r: Option<Key>)
  {
    if slots == [] then None
    else if Holds(slots[0], prefix, num) then Some(slots[0].key)
    else Lookup(slots[1..], prefix, num)
  }

  /** Release the first matching slot. */
  function Release(slots: seq<Slot>, prefix: seq<byte>, num: u64): (r: seq<Slot>)
    ensures |r| == |slots|
  {
    if slots == [] then []
    else if Holds(slots[0], prefix, num) then [slots[0].(occupied := false)] + slots[1..]
    else [slots[0]] + Release(slots[1..], prefix, num)
  }

  /** No two occupied slots answer to the same message. */
  predicate Unique(slots: seq<Slot>)
  {
    slots == [] ||
    (&& (slots[0].occupied ==> Lookup(slots[1..], slots[0].prefix, slots[0].num).None?)
     && Unique(slots[1..]))
  }

  /** Inserting a new message changes the answer for that message and for no other. */
  lemma {:induction false} InsertLookup(slots: seq<Slot>, prefix: seq<byte>, num: u64, key: Key, p: seq<byte>, n: u64)
    requires Room(slots) > 0
    requires Lookup(slots, prefix, num).None?
    ensures Lookup(Insert(slots, prefix, num, key), p, n) ==
            if p == prefix && n == num then Some(key) else Lookup(slots, p, n)
  {
    var r := Insert(slots, prefix, num, key);
    assert r[1..] == if slots[0].occupied then Insert(slots[1..], prefix, num, key) else slots[1..];
    if slots[0].occupied {
      InsertLookup(slots[1..], prefix, num, key, p, n);
    }
  }

  /** With or without room, insertion changes no answer for another message. */
  lemma {:induction false} InsertElsewhere(slots: seq<Slot>, prefix: seq<byte>, num: u64, key: Key, p: seq<byte>, n: u64)
    requires p != prefix || n != num
    ensures Lookup(Insert(slots, prefix, num, key), p, n) == Lookup(slots, p, n)
  {
    if slots != [] {
      var r := Insert(slots, prefix, num, key);
      assert r[1..] == if slots[0].occupied then Insert(slots[1..], prefix, num, key) else slots[1..];
      InsertElsewhere(slots[1..], prefix, num, key, p, n);
    }
  }

  lemma {:induction false} InsertKeeps(slots: seq<Slot>, prefix: seq<byte>, num: u64, key: Key)
    requires Room(slots) > 0 && Unique(slots)
    requires Lookup(slots, prefix, num).None?
    ensures Room(Insert(slots, prefix, num, key)) == Room(slots) - 1
    ensures Unique(Insert(slots, prefix, num, key))
  {
    var r := Insert(slots, prefix, num, key);
    assert r[1..] == if slots[0].occupied then Insert(slots[1..], prefix, num, key) else slots[1..];
    if slots[0].occupied {
      InsertKeeps(slots[1..], prefix, num, key);
      InsertLookup(slots[1..], prefix, num, key, slots[0].prefix, slots[0].num);
    }
  }

  /** Releasing a message makes it unknown and leaves every other answer alone. */
  lemma {:induction false} ReleaseLookup(slots: seq<Slot>, prefix: seq<byte>, num: u64, p: seq<byte>, n: u64)
    requires Unique(slots)
    ensures Lookup(Release(slots, prefix, num), p, n) ==
            if p == prefix && n == num then None else Lookup(slots, p, n)
  {
    if slots != [] {
      var r := Release(slots, prefix, num);
      assert r[1..] == if Holds(slots[0], prefix, num) then slots[1..] else Release(slots[1..], prefix, num);
      ReleaseLookup(slots[1..], prefix, num, p, n);
    }
  }

  lemma {:induction false} ReleaseKeeps(slots: seq<Slot>, prefix: seq<byte>, num: u64)
    requires Unique(slots) && Lookup(slots, prefix, num).Some?
    ensures Room(Release(slots, prefix, num)) == Room(slots) + 1
    ensures Unique(Release(slots, prefix, num))
  {
    var r := Release(slots, prefix, num);
    assert r[1..] == if Holds(slots[0], prefix, num) then slots[1..] else Release(slots[1..], prefix, num);
    if !Holds(slots[0], prefix, num) {
      ReleaseKeeps(slots[1..], prefix, num);
      ReleaseLookup(slots[1..], prefix, num, slots[0].prefix, slots[0].num);
    }
  }

  // ---------------------------------------------------------------- where the searches stop

  lemma {:induction false} InsertAt(slots: seq<Slot>, i: nat, prefix: seq<byte>, num: u64, key: Key)
    requires i < |slots| && !slots[i].occupied
    requires forall k :: 0 <= k < i ==> slots[k].occupied
    ensures Insert(slots, prefix, num, key) == slots[i := Slot(prefix, num, key, true)]
  {
    if i > 0 {
      InsertAt(slots[1..], i - 1, prefix, num, key);
    }
  }

  lemma {:induction false} NoRoom(slots: seq<Slot>)
    ensures Room(slots) == 0 <==> forall k :: 0 <= k < |slots| ==> slots[k].occupied
  {
    if slots != [] {
      NoRoom(slots[1..]);
      if Room(slots) == 0 {
        forall k | 0 <= k < |slots|
          ensures slots[k].occupied
        {
          assert k > 0 ==> slots[k] == slots[1..][k - 1];
        }
      }
    }
  }

  /** Insertion leaves the table alone exactly when it is full. */
  lemma {:induction false} InsertFull(slots: seq<Slot>, prefix: seq<byte>, num: u64, key: Key)
    ensures Insert(slots, prefix, num, key) == slots <==> Room(slots) == 0
  {
    if slots != [] {
      var r := Insert(slots, prefix, num, key);
      if slots[0].occupied {
        InsertFull(slots[1..], prefix, num, key);
        assert r[1..] == Insert(slots[1..], prefix, num, key);
        assert r == [slots[0]] + r[1..] && slots == [slots[0]] + slots[1..];
      } else {
        assert r[0].occupied;
      }
    }
  }

  lemma {:induction false} ReleaseAt(slots: seq<Slot>, i: nat, prefix: seq<byte>, num: u64)
    requires i < |slots| && Holds(slots[i], prefix, num)
    requires forall k :: 0 <= k < i ==> !Holds(slots[k], prefix, num)
    ensures Lookup(slots, prefix, num) == Some(slots[i].key)
    ensures Release(slots, prefix, num) == slots[i := slots[i].(occupied := false)]
  {
    if i > 0 {
      ReleaseAt(slots[1..], i - 1, prefix, num);
    }
  }

  lemma {:induction false} LookupAbsent(slots: seq<Slot>, prefix: seq<byte>, num: u64)
    requires forall k :: 0 <= k < |slots| ==> !Holds(slots[k], prefix, num)
    ensures Lookup(slots, prefix, num).None? && Release(slots, prefix, num) == slots
  {
    if slots != [] {
      LookupAbsent(slots[1..], prefix, num);
    }
  }

  lemma {:induction false} RoomUpdate(slots: seq<Slot>, i: nat, s: Slot)
    requires i < |slots|
    ensures Room(slots[i := s]) == Room(slots) + (if slots[i].occupied then 1 else 0) - (if s.occupied then 1 else 0)
  {
    if i == 0 {
      assert slots[i := s][1..] == slots[1..];
    } else {
      assert slots[i := s][1..] == slots[1..][i - 1 := s];
      RoomUpdate(slots[1..], i - 1, s);
    }
  }

  class Table {
    const slots: array<Slot>
    var count: nat

    ghost predicate Valid()
      reads this, slots
    {
      slots.Length == MAX_SKIPPED_KEYS && count == MAX_SKIPPED_KEYS - Room(slots[..])
    }

    constructor ()
      ensures Valid() && fresh(slots)
      ensures Room(slots[..]) == MAX_SKIPPED_KEYS && Unique(slots[..])
    {
      var free := Slot(Zeros(8), 0, Zeros(32), false);
      slots := new Slot[MAX_SKIPPED_KEYS](_ => free);
      count := 0;
      new;
      AllFree(slots[..]);
    }

    method Put(prefix: seq<byte>, num: u64, key: Key) returns (stored: bool)
      requires Valid()
      modifies this, slots
      ensures Valid()
      ensures slots[..] == Insert(old(slots[..]), prefix, num, key)
      ensures stored <==> Room(old(slots[..])) > 0
    {
      ghost var before := slots[..];
      for i := 0 to slots.Length
        invariant slots[..] == before && Valid()
        invariant forall k :: 0 <= k < i ==> slots[k].occupied
      {
        if !slots[i].occupied {
          InsertAt(before, i, prefix, num, key);
          RoomUpdate(before, i, Slot(prefix, num, key, true));
          slots[i] := Slot(prefix, num, key, true);
          count := count + 1;
          return true;
        }
      }
      NoRoom(before);
      InsertFull(before, prefix, num, key);
      return false;
    }

    method Take(prefix: seq<byte>, num: u64) returns (key: Option<Key>)
      requires Valid()
      modifies this, slots
      ensures Valid()
      ensures key == Lookup(old(slots[..]), prefix, num)
      ensures slots[..] == Release(old(slots[..]), prefix, num)
    {
      ghost var before := slots[..];
      for i := 0 to slots.Length
        invariant slots[..] == before && Valid()
        invariant forall k :: 0 <= k < i ==> !Holds(slots[k], prefix, num)
      {
        if Holds(slots[i], prefix, num) {
          ReleaseAt(before, i, prefix, num);
          RoomUpdate(before, i, slots[i].(occupied := false));
          key := Some(slots[i].key);
          slots[i] := slots[i].(occupied := false);
          count := count - 1;
          return;
        }
      }
      LookupAbsent(before, prefix, num);
      return None;
    }
  }

  lemma {:induction false} AllFree(slots: seq<Slot>)
    requires forall k :: 0 <= k < |slots| ==> !slots[k].occupied
    ensures Room(slots) == |slots| && Unique(slots)
  {
    if slots != [] {
      AllFree(slots[1..]);
    }
  }
}
