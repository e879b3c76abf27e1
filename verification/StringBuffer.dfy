/** stringbuffer.h over internal/stack.h: bytes in memory that grows on request. An unsafe
    put relies on room that was requested before, and asserts that it is there. */
module StringBuffer {
  import opened Bytes

  const DEFAULT_CAPACITY: nat := 256

  /** The capacity once there is room for so many more bytes; nothing is allocated at first. */
  function Reserved(size: nat, capacity: nat, count: nat, initial: nat): nat
    requires size <= capacity
  {
    if count <= capacity - size then capacity
    else
      var grown := if capacity == 0 then initial else capacity + (capacity + 1) / 2;
      if grown < size + count then size + count else grown
  }

  lemma Reservation(size: nat, capacity: nat, count: nat, initial: nat)
    requires size <= capacity
    ensures var r := Reserved(size, capacity, count, initial); capacity <= r && size + count <= r
  {
  }

  /** Growth by half, or to what is asked for; a new buffer starts with its initial capacity. */
  lemma Growth(size: nat, capacity: nat, count: nat, initial: nat)
    requires size <= capacity
    ensures var r, least := Reserved(size, capacity, count, initial), size + count;
      && (least <= capacity ==> r == capacity)
      && (least > capacity == 0 ==> r == initial || (r == least > initial))
      && (least > capacity > 0 ==> 3 * capacity <= 2 * r && (r == least || 2 * r <= 3 * capacity + 1))
  {
  }

  class Buffer {
    const initial: nat
    var data: bytes
    var capacity: nat

    predicate Valid()
      reads this
    {
      |data| <= capacity
    }

    constructor (initial: nat)
      ensures Valid() && this.initial == initial && data == [] && capacity == 0
    {
      this.initial := initial;
      data, capacity := [], 0;
    }

    method Expand(count: nat)
      requires Valid() && count > capacity - |data|
      modifies this`capacity
      ensures Valid() && capacity == Reserved(|data|, old(capacity), count, initial)
    {
      var newCapacity := if capacity == 0 then initial else capacity + (capacity + 1) / 2;
      var newSize := |data| + count;
      if newCapacity < newSize { newCapacity := newSize; }
      capacity := newCapacity;
    }

    method Reserve(count: nat)
      requires Valid()
      modifies this`capacity
      ensures Valid() && capacity == Reserved(|data|, old(capacity), count, initial)
    {
      if count > capacity - |data| { Expand(count); }
    }

    /** PutUnsafe, with its assertion for an answer. */
    method PutUnsafe(c: byte) returns (inside: bool)
      requires Valid()
      modifies this`data
      ensures Valid() && inside == (|old(data)| < capacity)
      ensures data == if inside then old(data) + [c] else old(data)
    {
      inside := |data| < capacity;
      if inside { data := data + [c]; }
    }

    method Put(c: byte)
      requires Valid()
      modifies this
      ensures Valid() && data == old(data) + [c] && capacity == Reserved(|old(data)|, old(capacity), 1, initial)
    {
      Reserve(1);
      var inside := PutUnsafe(c);
    }

    /** PutUnsafe of one byte after the other, until one fails. */
    method PutAllUnsafe(text: bytes) returns (inside: bool)
      requires Valid()
      modifies this`data
      ensures Valid() && inside == (|old(data)| + |text| <= capacity)
      ensures inside ==> data == old(data) + text
    {
      for i := 0 to |text|
        invariant Valid() && data == old(data) + text[..i]
      {
        assert text[..i + 1] == text[..i] + [text[i]];
        inside := PutUnsafe(text[i]);
        if !inside { return false; }
      }
      assert text[..|text|] == text;
      return true;
    }

    /** PutReserve for a text, and the unsafe puts of its bytes. */
    method Write(text: bytes)
      requires Valid()
      modifies this
      ensures Valid() && data == old(data) + text
      ensures capacity == Reserved(|old(data)|, old(capacity), |text|, initial)
    {
      Reserve(|text|);
      var inside := PutAllUnsafe(text);
    }

    /** PutN: a push of n bytes, all set to c. */
    method PutN(c: byte, n: nat)
      requires Valid()
      modifies this
      ensures Valid() && data == old(data) + Repeat(c, n)
      ensures capacity == Reserved(|old(data)|, old(capacity), n, initial)
    {
      Write(Repeat(c, n));
    }
  }
}
