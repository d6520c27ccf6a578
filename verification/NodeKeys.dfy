/** The store of known node keys (meshtastic_lite/meshtastic_pki.c): an array kept in insertion order, the
    oldest node evicted when a 65th arrives. */
module NodeKeys {
  import opened Bytes
  import opened Primitives

  const MAX_NODE_KEYS: nat := 64

  datatype Entry = Entry(node: u32, key: Key, hasKey: bool)

  // ---------------------------------------------------------------- on values

  function Find(entries: seq<Entry>, node: u32): (i: nat)
    ensures i <= |entries|
    ensures i < |entries| ==> entries[i].node == node
    ensures forall k :: 0 <= k < i ==> entries[k].node != node
  {
    if entries == [] || entries[0].node == node then 0 else 1 + Find(entries[1..], node)
  }

  /** Overwrite in place, append, or drop the oldest and append. */
  function Set(entries: seq<Entry>, node: u32, key: Key): (r: seq<Entry>)
    requires |entries| <= MAX_NODE_KEYS
    ensures |r| <= MAX_NODE_KEYS
  {
    var i := Find(entries, node);
    if i < |entries| then entries[i := Entry(node, key, true)]
    else if |entries| < MAX_NODE_KEYS then entries + [Entry(node, key, true)]
    else entries[1..] + [Entry(node, key, true)]
  }

  function Get(entries: seq<Entry>, node: u32): (key: Option<Key>)
  {
    var i := Find(entries, node);
    if i < |entries| && entries[i].hasKey then Some(entries[i].key) else None
  }

  // ---------------------------------------------------------------- runs

  datatype Update = Update(node: u32, key: Key)

  function Run(updates: seq<Update>): (entries: seq<Entry>)
    ensures |entries| <= MAX_NODE_KEYS
  {
    if updates == [] then []
    else
      var last := updates[|updates| - 1];
      Set(Run(updates[..|updates| - 1]), last.node, last.key)
  }

  function LastN<T>(s: seq<T>, n: nat): (r: seq<T>)
  {
    if |s| <= n then s else s[|s| - n..]
  }

  /** The nodes in the order of their insertions. A node is inserted again only after eviction, that is, when it
      is not among the last 64 insertions. */
  function Insertions(updates: seq<Update>): (r: seq<u32>)
  {
    if updates == [] then []
    else
      var before := Insertions(updates[..|updates| - 1]);
      var node := updates[|updates| - 1].node;
      if node in LastN(before, MAX_NODE_KEYS) then before else before + [node]
  }

  /** The key most recently reported for a node. */
  function LastKey(updates: seq<Update>, node: u32): (key: Option<Key>)
  {
    if updates == [] then None
    else
      var last := updates[|updates| - 1];
      if last.node == node then Some(last.key) else LastKey(updates[..|updates| - 1], node)
  }

  predicate Distinct(entries: seq<Entry>)
  {
    forall i, j :: 0 <= i < j < |entries| ==> entries[i].node != entries[j].node
  }

  /** The store holds the last 64 insertions, in order, each node once and with its latest key. */
  ghost predicate Refines(entries: seq<Entry>, updates: seq<Update>)
  {
    && Distinct(entries)
    && |entries| == |LastN(Insertions(updates), MAX_NODE_KEYS)|
    && forall i :: 0 <= i < |entries| ==>
         && entries[i].node == LastN(Insertions(updates), MAX_NODE_KEYS)[i]
         && entries[i].hasKey && LastKey(updates, entries[i].node) == Some(entries[i].key)
  }

  lemma Snoc(updates: seq<Update>, u: Update, node: u32)
    ensures LastKey(updates + [u], node) == if u.node == node then Some(u.key) else LastKey(updates, node)
    ensures Insertions(updates + [u]) ==
      if u.node in LastN(Insertions(updates), MAX_NODE_KEYS) then Insertions(updates) else Insertions(updates) + [u.node]
  {
    var updates1 := updates + [u];
    assert updates1[..|updates1| - 1] == updates && updates1[|updates1| - 1] == u;
  }

  lemma SetKnownRefines(entries: seq<Entry>, updates: seq<Update>, u: Update, i: nat)
    requires |entries| <= MAX_NODE_KEYS && Refines(entries, updates)
    requires i < |entries| && entries[i].node == u.node
    ensures Refines(entries[i := Entry(u.node, u.key, true)], updates + [u])
  {
    hide LastKey, Insertions;
    assert LastN(Insertions(updates), MAX_NODE_KEYS)[i] == u.node;
    Snoc(updates, u, u.node);
    forall k | 0 <= k < |entries|
      ensures LastKey(updates + [u], entries[k].node) ==
              if entries[k].node == u.node then Some(u.key) else LastKey(updates, entries[k].node)
    {
      Snoc(updates, u, entries[k].node);
    }
  }

  /** A new node goes to the end; with 64 nodes already there the oldest leaves. */
  lemma SetNewRefines(entries: seq<Entry>, updates: seq<Update>, u: Update)
    requires |entries| <= MAX_NODE_KEYS && Refines(entries, updates)
    requires forall k :: 0 <= k < |entries| ==> entries[k].node != u.node
    ensures var kept := if |entries| < MAX_NODE_KEYS then entries else entries[1..];
      Refines(kept + [Entry(u.node, u.key, true)], updates + [u])
  {
    hide LastKey, Insertions;
    var before := LastN(Insertions(updates), MAX_NODE_KEYS);
    assert u.node !in before;
    Snoc(updates, u, u.node);
    var after := LastN(Insertions(updates + [u]), MAX_NODE_KEYS);
    assert after == (if |entries| < MAX_NODE_KEYS then before else before[1..]) + [u.node];
    forall k | 0 <= k < |entries|
      ensures LastKey(updates + [u], entries[k].node) == LastKey(updates, entries[k].node)
    {
      Snoc(updates, u, entries[k].node);
    }
  }

  lemma SetRefines(entries: seq<Entry>, updates: seq<Update>, u: Update)
    requires |entries| <= MAX_NODE_KEYS && Refines(entries, updates)
    ensures Refines(Set(entries, u.node, u.key), updates + [u])
  {
    hide Refines;
    var i := Find(entries, u.node);
    if i < |entries| {
      SetKnownRefines(entries, updates, u, i);
    } else {
      SetNewRefines(entries, updates, u);
    }
  }

  /** Over every run of updates the store is the first-insertion FIFO of its last 64 nodes. */
  lemma {:induction false} RunRefines(updates: seq<Update>)
    ensures Refines(Run(updates), updates)
  {
    if updates != [] {
      var before, last := updates[..|updates| - 1], updates[|updates| - 1];
      RunRefines(before);
      SetRefines(Run(before), before, last);
      assert before + [last] == updates;
    }
  }

  /** A lookup after any run: the latest key, for exactly the nodes of the last 64 insertions. */
  lemma GetAfterRun(updates: seq<Update>, node: u32)
    ensures Get(Run(updates), node) ==
      if node in LastN(Insertions(updates), 64) then LastKey(updates, node) else None
  {
    RunRefines(updates);
    var entries := Run(updates);
    var recent := LastN(Insertions(updates), MAX_NODE_KEYS);
    var i := Find(entries, node);
    assert i < |entries| ==> recent[i] in recent;
    if node in recent {
      var j :| 0 <= j < |recent| && recent[j] == node;
      assert entries[j].node == node;
    }
  }

  // ---------------------------------------------------------------- the implementation

  lemma {:induction false} FindIs(entries: seq<Entry>, node: u32, i: nat)
    requires i <= |entries| && (forall k :: 0 <= k < i ==> entries[k].node != node)
    requires i < |entries| ==> entries[i].node == node
    ensures Find(entries, node) == i
  {
  }

  lemma SetKnown(entries: seq<Entry>, node: u32, key: Key, i: nat)
    requires i < |entries| <= MAX_NODE_KEYS && Distinct(entries) && entries[i].node == node
    requires forall k :: 0 <= k < i ==> entries[k].node != node
    ensures Set(entries, node, key) == entries[i := Entry(node, key, true)] && Distinct(Set(entries, node, key))
  {
    FindIs(entries, node, i);
  }

  lemma SetUnknown(entries: seq<Entry>, node: u32, key: Key)
    requires |entries| <= MAX_NODE_KEYS && Distinct(entries) && forall k :: 0 <= k < |entries| ==> entries[k].node != node
    ensures var kept := if |entries| < MAX_NODE_KEYS then entries else entries[1..];
      Set(entries, node, key) == kept + [Entry(node, key, true)]
    ensures Distinct(Set(entries, node, key))
  {
    FindIs(entries, node, |entries|);
  }

  class Store {
    const entries: array<Entry>
    var count: nat

    ghost predicate Valid()
      reads this, entries
    {
      entries.Length == MAX_NODE_KEYS && count <= MAX_NODE_KEYS && Distinct(entries[..count])
    }

    ghost function View(): (s: seq<Entry>)
      reads this, entries
      requires Valid()
    {
      entries[..count]
    }

    constructor ()
      ensures Valid() && View() == [] && fresh(entries)
    {
      var blank := Entry(0, Zeros(32), false);
      entries := new Entry[MAX_NODE_KEYS](_ => blank);
      count := 0;
    }

    method SetKey(node: u32, key: Key)
      requires Valid()
      modifies this, entries
      ensures Valid() && View() == Set(old(View()), node, key)
    {
      hide Set, Distinct;
      ghost var before := View();
      for i := 0 to count
        invariant View() == before && Valid()
        invariant forall k :: 0 <= k < i ==> before[k].node != node
      {
        if entries[i].node == node {
          SetKnown(before, node, key, i);
          entries[i] := Entry(node, key, true);
          assert entries[..count] == before[i := Entry(node, key, true)];
          return;
        }
      }
      SetUnknown(before, node, key);
      if count == MAX_NODE_KEYS {
        assert entries[..] == before;
        DropOldest();
      }
      Append(Entry(node, key, true));
    }

    method Append(e: Entry)
      requires count < entries.Length
      modifies this`count, entries
      ensures count == old(count) + 1 && entries[..count] == old(entries[..count]) + [e]
    {
      entries[count] := e;
      count := count + 1;
    }

    /** Shift every entry down by one; the first is lost. */
    method DropOldest()
      requires entries.Length == MAX_NODE_KEYS == count
      modifies this`count, entries
      ensures count == MAX_NODE_KEYS - 1 && entries[..count] == old(entries[..])[1..]
    {
      ghost var before := entries[..];
      for i := 1 to MAX_NODE_KEYS
        modifies entries
        invariant forall k :: 0 <= k < i - 1 ==> entries[k] == before[k + 1]
        invariant forall k :: i - 1 <= k < MAX_NODE_KEYS ==> entries[k] == before[k]
      {
        entries[i - 1] := entries[i];
      }
      count := MAX_NODE_KEYS - 1;
    }

    method GetKey(node: u32) returns (key: Option<Key>)
      requires Valid()
      ensures key == Get(View(), node)
    {
      for i := 0 to count
        invariant forall k :: 0 <= k < i ==> entries[k].node != node || !entries[k].hasKey
      {
        if entries[i].node == node && entries[i].hasKey {
          FindIs(View(), node, i);
          return Some(entries[i].key);
        }
      }
      return None;
    }
  }
}
