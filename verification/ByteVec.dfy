/** Bounded byte vectors (lunarcore/lunar/vec_helpers.c): data that does not fit is dropped without a word. */
module ByteVec {
  import opened Bytes

  /** Append, or leave the contents alone when there is no room for all of it. */
  function Extend(contents: seq<byte>, data: seq<byte>, capacity: nat): (r: seq<byte>)
    ensures |r| <= Max(|contents|, capacity)
  {
    if |contents| + |data| <= capacity then contents + data else contents
  }

  class Vec {
    const data: array<byte>
    var len: nat

    ghost predicate Valid()
      reads this
    {
      len <= data.Length
    }

    ghost function View(): (s: seq<byte>)
      reads this, data
      requires Valid()
    {
      data[..len]
    }

    constructor (capacity: nat)
      ensures Valid() && fresh(data) && data.Length == capacity && View() == []
    {
      data := new byte[capacity](_ => 0);
      len := 0;
    }

    method ExtendFromSlice(slice: seq<byte>) returns (stored: bool)
      requires Valid()
      modifies this, data
      ensures Valid() && View() == Extend(old(View()), slice, data.Length)
      ensures stored <==> |old(View())| + |slice| <= data.Length
    {
      if len + |slice| > data.Length {
        return false;
      }
      ghost var before := View();
      for i := 0 to |slice|
        modifies data
        invariant data[..len + i] == before + slice[..i]
      {
        data[len + i] := slice[i];
        assert data[..len + i + 1] == data[..len + i] + [slice[i]];
      }
      len := len + |slice|;
      return true;
    }

    method Push(b: byte) returns (stored: bool)
      requires Valid()
      modifies this, data
      ensures Valid() && View() == Extend(old(View()), [b], data.Length)
      ensures stored <==> |old(View())| < data.Length
    {
      if len >= data.Length {
        return false;
      }
      ghost var before := View();
      data[len] := b;
      len := len + 1;
      assert View() == before + [b];
      return true;
    }
  }
}
