/** allocators.h: MemoryPoolAllocator on a 64-bit machine. Addresses are numbers and
    memory is a function of the address; a chunk's header comes before its bytes. The base
    allocator is any function that answers with an unused aligned area, or fails. */
module PoolAllocator {
  import opened Bytes

  const SIZE_LIMIT: nat := 0x1_0000_0000_0000_0000
  const HEADER: nat := 24
  const NULL: nat := 0

  /** size_t */
  type Size = n: nat | n < SIZE_LIMIT

  /** size_t addition */
  function Sum(a: Size, b: Size): Size { if a + b < SIZE_LIMIT then a + b else a + b - SIZE_LIMIT }

  lemma NoWrap(a: Size, b: Size)
    ensures a + b < SIZE_LIMIT ==> Sum(a, b) == a + b
  {
  }

  /** RAPIDJSON_ALIGN, which is 0 for the seven largest sizes */
  function Align(x: Size): (n: Size)
    ensures n % 8 == 0 && (x <= n || n == 0) && n < x + 8
    ensures x <= n ==> n <= SIZE_LIMIT - 8
    ensures x > n ==> x > SIZE_LIMIT - 8
  {
    Sum(x, 7) - Sum(x, 7) % 8
  }

  /** A chunk of the list, newest first. */
  datatype Chunk = Chunk(base: nat, capacity: Size, size: Size) {
    function Start(): nat { base + HEADER }
    function Top(): nat { base + HEADER + size }
    function End(): nat { base + HEADER + capacity }
  }

  /** A block a caller holds: its address and the size asked for. */
  datatype Block = Block(ptr: nat, size: Size) {
    function Len(): Size { Align(size) }
    function End(): nat { ptr + Len() }
  }

  ghost predicate Separate(p: nat, q: nat, p': nat, q': nat) { q <= p' || q' <= p }

  predicate Sized(c: Chunk) {
    c.base > 0 && c.End() < SIZE_LIMIT && c.size <= c.capacity && c.size % 8 == 0
  }

  ghost predicate WellFormed(cs: seq<Chunk>) {
    && (forall i :: 0 <= i < |cs| ==> Sized(cs[i]))
    && (forall i, j :: 0 <= i < j < |cs| ==> Separate(cs[i].base, cs[i].End(), cs[j].base, cs[j].End()))
  }

  ghost predicate Inside(c: Chunk, b: Block) { c.Start() <= b.ptr && b.End() <= c.Top() }

  ghost predicate Housed(cs: seq<Chunk>, b: Block) {
    0 < b.size <= b.Len() && exists i :: 0 <= i < |cs| && Inside(cs[i], b)
  }

  ghost predicate Disjoint(b: Block, b': Block) { Separate(b.ptr, b.End(), b'.ptr, b'.End()) }

  /** Live blocks have their whole length inside one chunk's used part, and no two meet. */
  ghost predicate Placed(cs: seq<Chunk>, live: seq<Block>) {
    && (forall i :: 0 <= i < |live| ==> Housed(cs, live[i]))
    && (forall i, j :: 0 <= i < |live| && 0 <= j < |live| && i != j ==> Disjoint(live[i], live[j]))
  }

  /** What the base allocator answers is a free aligned area. */
  ghost predicate FreeArea(cs: seq<Chunk>, base: nat, n: nat) {
    && base > 0 && base % 8 == 0 && base + n < SIZE_LIMIT
    && forall i :: 0 <= i < |cs| ==> Separate(base, base + n, cs[i].base, cs[i].End())
  }

  /** What a pool is made with; userBuffer is null when there is none. */
  datatype Env = Env(capacity: Size, base: (seq<Chunk>, Size) -> Option<nat>, userBuffer: nat)

  /** CrtAllocator answers null when asked for nothing. */
  ghost predicate Sound(base: (seq<Chunk>, Size) -> Option<nat>) {
    forall cs: seq<Chunk>, n: Size :: base(cs, n).Some? ==> n > 0 && FreeArea(cs, base(cs, n).value, n)
  }

  // ---- what the calls answer ----

  /** A pointer, or null, and the chunks then. */
  datatype Answer = Answer(ptr: nat, chunks: seq<Chunk>)

  /** The newest chunk has no room for n more bytes, by a comparison that may wrap. */
  predicate NeedsChunk(cs: seq<Chunk>, n: Size) { |cs| == 0 || Sum(cs[0].size, n) > cs[0].capacity }

  function NewCapacity(env: Env, n: Size): Size { if env.capacity > n then env.capacity else n }

  function Added(env: Env, cs: seq<Chunk>, capacity: Size): Option<seq<Chunk>> {
    match env.base(cs, Sum(HEADER, capacity))
    case None => None
    case Some(area) => Some([Chunk(area, capacity, 0)] + cs)
  }

  /** The newest chunk with n more bytes used. */
  function Used(cs: seq<Chunk>, n: Size): (cs': seq<Chunk>)
    requires |cs| > 0
    ensures |cs'| == |cs| && cs'[1..] == cs[1..] && cs'[0] == cs[0].(size := Sum(cs[0].size, n))
  {
    cs[0 := cs[0].(size := Sum(cs[0].size, n))]
  }

  function MallocOn(env: Env, cs: seq<Chunk>, size: Size): Answer {
    if size == 0 then Answer(NULL, cs) else
    var n := Align(size);
    match if NeedsChunk(cs, n) then Added(env, cs, NewCapacity(env, n)) else Some(cs)
    case None => Answer(NULL, cs)
    case Some(cs') => Answer(cs'[0].Top(), Used(cs', n))
  }

  /** Where a block lies: behind the blocks of the newest chunk while it has room for the
      size rounded up to a multiple of 8, else at the start of a new chunk, behind 24 bytes
      of header, whose capacity is the configured one or, if larger, that size. */
  lemma MallocPlaces(env: Env, cs: seq<Chunk>, size: Size)
    requires size > 0 && WellFormed(cs)
    requires var n := (size + 7) / 8 * 8;
      n + env.capacity < 0x1_0000_0000_0000_0000 - 24 && (|cs| > 0 ==> cs[0].size + n < 0x1_0000_0000_0000_0000)
    ensures var n := (size + 7) / 8 * 8;
      var r, full := MallocOn(env, cs, size), |cs| == 0 || cs[0].capacity - cs[0].size < n;
      var capacity := if env.capacity > n then env.capacity else n;
      if !full then
        r.ptr == cs[0].base + 24 + cs[0].size && r.chunks == [cs[0].(size := cs[0].size + n)] + cs[1..]
      else match env.base(cs, 24 + capacity)
        case None => r == Answer(0, cs)
        case Some(area) => r == Answer(area + 24, [Chunk(area, capacity, n)] + cs)
  {
    var n := (size + 7) / 8 * 8;
    NoWrap(size, 7);
    assert Align(size) == n;
    if |cs| > 0 { NoWrap(cs[0].size, n); }
  }

  /** The test for growing in place, whose sum may wrap. */
  predicate GrowsInPlace(cs: seq<Chunk>, b: Block, len: Size) {
    && |cs| > 0 && b.ptr + b.Len() == cs[0].Top()
    && b.Len() <= len && Sum(cs[0].size, len - b.Len()) <= cs[0].capacity
  }

  function ReallocOn(env: Env, cs: seq<Chunk>, b: Block, newSize: Size): Answer {
    if newSize == 0 then Answer(NULL, cs) else
    var len := Align(newSize);
    if b.Len() >= len then Answer(b.ptr, cs)
    else if GrowsInPlace(cs, b, len) then Answer(b.ptr, Used(cs, len - b.Len()))
    else MallocOn(env, cs, len)
  }

  /** Where a resized block lies: where it was if it does not grow, sizes rounded up to 8 bytes,
      or if it is the last of the newest chunk, which has room for the rest; else where Malloc
      puts a block of the new size. */
  lemma ReallocPlaces(env: Env, cs: seq<Chunk>, b: Block, newSize: Size)
    requires newSize > 0 && WellFormed(cs)
    requires b.size + 7 < 0x1_0000_0000_0000_0000 && newSize + 7 < 0x1_0000_0000_0000_0000
    requires |cs| > 0 ==> cs[0].size + newSize + 7 < 0x1_0000_0000_0000_0000
    ensures var was, n := (b.size + 7) / 8 * 8, (newSize + 7) / 8 * 8;
      var r := ReallocOn(env, cs, b, newSize);
      if n <= was then r == Answer(b.ptr, cs)
      else if |cs| > 0 && b.ptr + was == cs[0].base + 24 + cs[0].size && cs[0].capacity - cs[0].size >= n - was then
        r == Answer(b.ptr, [cs[0].(size := cs[0].size + (n - was))] + cs[1..])
      else r == MallocOn(env, cs, n)
  {
    var was, n := (b.size + 7) / 8 * 8, (newSize + 7) / 8 * 8;
    NoWrap(b.size, 7);
    NoWrap(newSize, 7);
    assert Align(b.size) == was && Align(newSize) == n;
    hide MallocOn, Align;
    if |cs| > 0 && was < n { NoWrap(cs[0].size, n - was); }
  }

  /** None of the additions of Malloc wraps. */
  predicate Exact(env: Env, cs: seq<Chunk>, size: Size) {
    var n := Align(size);
    && size <= n
    && (if NeedsChunk(cs, n) then HEADER + NewCapacity(env, n) < SIZE_LIMIT else cs[0].size + n < SIZE_LIMIT)
  }

  /** None of the additions of Realloc wraps. */
  predicate ExactRealloc(env: Env, cs: seq<Chunk>, b: Block, newSize: Size) {
    var n := Align(newSize);
    && newSize <= n
    && (b.Len() < n ==>
          if GrowsInPlace(cs, b, n) then cs[0].size + (n - b.Len()) < SIZE_LIMIT else Exact(env, cs, n))
  }

  // ---- which answers are good ----

  /** The bytes lie in an area behind its header. */
  predicate InArea(base: nat, len: nat, p: nat, size: nat) { base + HEADER <= p && p + size <= base + len }

  /** The bytes lie in a chunk, or in the area the base allocator answers with now. */
  ghost predicate Owned(env: Env, cs: seq<Chunk>, n: Size, p: nat, size: Size) {
    || (exists i :: 0 <= i < |cs| && InArea(cs[i].base, HEADER + cs[i].capacity, p, size))
    || (var len := Sum(HEADER, NewCapacity(env, n));
        NeedsChunk(cs, n) && env.base(cs, len).Some? && InArea(env.base(cs, len).value, len, p, size))
  }

  /** All of the bytes are the pool's, and none is in a live block other than the one given up. */
  ghost predicate Granted(env: Env, cs: seq<Chunk>, live: seq<Block>, given: int, size: Size, p: nat) {
    && Owned(env, cs, Align(size), p, size)
    && forall i :: 0 <= i < |live| && i != given ==> Separate(live[i].ptr, live[i].End(), p, p + size)
  }

  lemma HeldInside(cs: seq<Chunk>, live: seq<Block>, k: nat)
    requires Placed(cs, live) && k < |live|
    ensures 0 < live[k].size <= live[k].Len()
  {
    assert Housed(cs, live[k]);
  }

  /** Bytes above the top of the newest chunk belong to no block. */
  lemma TopIsFree(cs: seq<Chunk>, b: Block, n: Size)
    requires WellFormed(cs) && |cs| > 0 && Housed(cs, b) && cs[0].size + n <= cs[0].capacity
    ensures b.End() <= cs[0].Top() || cs[0].Top() + n <= b.ptr
    ensures Housed(Used(cs, n), b)
    ensures b.End() == cs[0].Top() ==> Inside(cs[0], b)
  {
    hide Align;
    var i :| 0 <= i < |cs| && Inside(cs[i], b);
    assert Sized(cs[0]);
    if i > 0 { assert Separate(cs[0].base, cs[0].End(), cs[i].base, cs[i].End()); }
    assert Inside(Used(cs, n)[i], b);
  }

  lemma UsedSized(c: Chunk, n: Size)
    requires Sized(c) && n % 8 == 0 && c.size + n <= c.capacity
    ensures Sum(c.size, n) == c.size + n && Sized(c.(size := c.size + n))
  {
  }

  lemma UsedWellFormed(cs: seq<Chunk>, n: Size)
    requires WellFormed(cs) && |cs| > 0 && n % 8 == 0 && cs[0].size + n <= cs[0].capacity
    ensures WellFormed(Used(cs, n)) && Used(cs, n)[0].size == cs[0].size + n
  {
    hide Sized, Separate, Sum;
    assert Sized(cs[0]);
    UsedSized(cs[0], n);
    var cs' := Used(cs, n);
    forall i | 0 <= i < |cs'| ensures Sized(cs'[i]) {
      if i > 0 { assert cs'[i] == cs'[1..][i - 1] == cs[i]; }
    }
    forall i, j | 0 <= i < j < |cs'| ensures Separate(cs'[i].base, cs'[i].End(), cs'[j].base, cs'[j].End()) {
      assert Separate(cs[i].base, cs[i].End(), cs[j].base, cs[j].End());
    }
  }

  lemma ChunkAdded(cs: seq<Chunk>, live: seq<Block>, base: nat, capacity: Size)
    requires WellFormed(cs) && Placed(cs, live) && FreeArea(cs, base, HEADER + capacity)
    ensures var cs' := [Chunk(base, capacity, 0)] + cs; WellFormed(cs') && Placed(cs', live)
  {
    hide Align, Disjoint;
    var cs' := [Chunk(base, capacity, 0)] + cs;
    forall k | 0 <= k < |live| ensures Housed(cs', live[k]) {
      var i :| 0 <= i < |cs| && Inside(cs[i], live[k]);
      assert cs'[i + 1] == cs[i];
    }
  }

  /** Once n more bytes are used, a block that ends with them is in the newest chunk. */
  lemma TopIsHoused(cs: seq<Chunk>, b: Block, n: Size)
    requires |cs| > 0 && Used(cs, n)[0].size == cs[0].size + n && 0 < b.size <= b.Len()
    requires cs[0].Start() <= b.ptr && b.End() == cs[0].Top() + n
    ensures Housed(Used(cs, n), b)
  {
    hide Align, Sum;
    assert Inside(Used(cs, n)[0], b);
  }

  /** The block cut off the top of the newest chunk meets no live block. */
  lemma Bumped(cs: seq<Chunk>, live: seq<Block>, b: Block)
    requires WellFormed(cs) && Placed(cs, live) && |cs| > 0
    requires 0 < b.size <= b.Len() && b.ptr == cs[0].Top() && cs[0].size + b.Len() <= cs[0].capacity
    ensures WellFormed(Used(cs, b.Len())) && Placed(Used(cs, b.Len()), live + [b])
    ensures forall i :: 0 <= i < |live| ==> Disjoint(live[i], b)
  {
    var cs' := Used(cs, b.Len());
    UsedWellFormed(cs, b.Len());
    TopIsHoused(cs, b, b.Len());
    hide WellFormed, Housed, Used, Align;
    forall i | 0 <= i < |live| ensures Disjoint(live[i], b) && Housed(cs', live[i]) { TopIsFree(cs, live[i], b.Len()); }
  }

  /** The last block of the newest chunk can take the room behind it. */
  lemma Grown(cs: seq<Chunk>, live: seq<Block>, k: nat, newSize: Size)
    requires WellFormed(cs) && Placed(cs, live) && k < |live| && |cs| > 0 && live[k].End() == cs[0].Top()
    requires live[k].Len() < Align(newSize) && newSize <= Align(newSize)
    requires cs[0].size + (Align(newSize) - live[k].Len()) <= cs[0].capacity
    ensures var cs' := Used(cs, Align(newSize) - live[k].Len());
      WellFormed(cs') && Placed(cs', live[k := Block(live[k].ptr, newSize)])
  {
    var b, b' := live[k], Block(live[k].ptr, newSize);
    var more := Align(newSize) - b.Len();
    UsedWellFormed(cs, more);
    TopIsFree(cs, b, more);
    var cs' := Used(cs, more);
    TopIsHoused(cs, b', more);
    hide WellFormed, Housed, Used, Align;
    forall i | 0 <= i < |live| && i != k
      ensures Disjoint(live[i], b') && Disjoint(b', live[i]) && Housed(cs', live[i])
    {
      TopIsFree(cs, live[i], more);
      assert Disjoint(live[i], b);
    }
  }

  lemma Shrunk(cs: seq<Chunk>, live: seq<Block>, k: nat, newSize: Size)
    requires Placed(cs, live) && k < |live| && 0 < newSize <= Align(newSize) <= live[k].Len()
    ensures Placed(cs, live[k := Block(live[k].ptr, newSize)])
  {
    var b' := Block(live[k].ptr, newSize);
    var i :| 0 <= i < |cs| && Inside(cs[i], live[k]);
    assert Inside(cs[i], b');
    hide Housed, Align;
    forall i | 0 <= i < |live| && i != k ensures Disjoint(live[i], b') && Disjoint(b', live[i]) {
      assert Disjoint(live[i], live[k]);
    }
  }

  /** A block of the same length takes the place of one that is given up. */
  lemma Replaced(cs: seq<Chunk>, live: seq<Block>, k: nat, b: Block, b': Block)
    requires Placed(cs, live + [b]) && k < |live| && b'.ptr == b.ptr && b'.Len() == b.Len() && 0 < b'.size <= b'.Len()
    ensures Placed(cs, live[k := b'])
  {
    var all, live' := live + [b], live[k := b'];
    assert Housed(cs, b') by {
      assert all[|live|] == b && Housed(cs, b);
      var i :| 0 <= i < |cs| && Inside(cs[i], b);
      assert Inside(cs[i], b');
    }
    hide Housed, Align;
    forall i | 0 <= i < |live| ensures Housed(cs, live'[i]) { assert all[i] == live[i]; }
    forall i, j | 0 <= i < |live| && 0 <= j < |live| && i != j ensures Disjoint(live'[i], live'[j]) {
      assert Disjoint(all[if i == k then |live| else i], all[if j == k then |live| else j]);
    }
  }

  /** An exact Malloc cuts off a new block and disturbs no live one. */
  lemma MallocKeeps(env: Env, cs: seq<Chunk>, live: seq<Block>, size: Size)
    requires Sound(env.base) && WellFormed(cs) && Placed(cs, live) && Exact(env, cs, size)
    ensures var r := MallocOn(env, cs, size);
      r.ptr != NULL ==> WellFormed(r.chunks) && Placed(r.chunks, live + [Block(r.ptr, size)])
  {
    var n, r := Align(size), MallocOn(env, cs, size);
    hide Align, Placed;
    if r.ptr != NULL {
      if NeedsChunk(cs, n) {
        var capacity := NewCapacity(env, n);
        var area := env.base(cs, Sum(HEADER, capacity)).value;
        hide WellFormed;
        ChunkAdded(cs, live, area, capacity);
        Bumped([Chunk(area, capacity, 0)] + cs, live, Block(r.ptr, size));
      } else {
        Bumped(cs, live, Block(r.ptr, size));
      }
    }
  }

  /** The bytes of a block belong to the chunk it is in. */
  lemma HousedIsOwned(env: Env, cs: seq<Chunk>, n: Size, b: Block)
    requires WellFormed(cs) && Housed(cs, b)
    ensures Owned(env, cs, n, b.ptr, b.size) && b.ptr > HEADER
  {
    var i :| 0 <= i < |cs| && Inside(cs[i], b);
    assert Sized(cs[i]);
    assert InArea(cs[i].base, HEADER + cs[i].capacity, b.ptr, b.size);
  }

  /** No byte beyond the end of the address space is owned. */
  lemma BeyondIsNotOwned(env: Env, cs: seq<Chunk>, n: Size, p: nat, size: Size)
    requires Sound(env.base) && WellFormed(cs) && p + size >= SIZE_LIMIT
    ensures !Owned(env, cs, n, p, size)
  {
    assert forall i :: 0 <= i < |cs| ==> Sized(cs[i]);
  }

  /** Where the header did not fit into the area, the block is not owned. */
  lemma ShortAreaIsNotOwned(env: Env, cs: seq<Chunk>, n: Size, size: Size)
    requires Sound(env.base) && WellFormed(cs) && NeedsChunk(cs, n) && size > 0
    requires HEADER + NewCapacity(env, n) >= SIZE_LIMIT
    requires env.base(cs, Sum(HEADER, NewCapacity(env, n))).Some?
    ensures !Owned(env, cs, n, env.base(cs, Sum(HEADER, NewCapacity(env, n))).value + HEADER, size)
  {
    var len := Sum(HEADER, NewCapacity(env, n));
    var area := env.base(cs, len).value;
    assert 0 < len < HEADER && FreeArea(cs, area, len);
    forall i | 0 <= i < |cs| ensures !InArea(cs[i].base, HEADER + cs[i].capacity, area + HEADER, size) {
      assert Separate(area, area + len, cs[i].base, cs[i].End());
    }
  }

  /** The answer of an exact Malloc is owned by the pool and meets no live block. */
  lemma ExactIsGranted(env: Env, cs: seq<Chunk>, live: seq<Block>, size: Size, p: nat)
    requires Sound(env.base) && WellFormed(cs) && Placed(cs, live) && Exact(env, cs, size)
    requires p == MallocOn(env, cs, size).ptr != NULL
    ensures Granted(env, cs, live, -1, size, p)
  {
    var n := Align(size);
    MallocKeeps(env, cs, live, size);
    hide Align;
    var b, all := Block(p, size), live + [Block(p, size)];
    forall i | 0 <= i < |live| ensures Separate(live[i].ptr, live[i].End(), p, p + size) {
      assert all[i] == live[i] && all[|live|] == b && Disjoint(all[i], all[|live|]);
    }
    if NeedsChunk(cs, n) {
      var len := Sum(HEADER, NewCapacity(env, n));
      assert InArea(env.base(cs, len).value, len, p, size);
    } else {
      assert Sized(cs[0]);
      assert InArea(cs[0].base, HEADER + cs[0].capacity, p, size);
    }
  }

  /** Not enough room, and the base allocator does not help. */
  predicate Fails(env: Env, cs: seq<Chunk>, n: Size) {
    NeedsChunk(cs, n) && env.base(cs, Sum(HEADER, NewCapacity(env, n))) == None
  }

  /** Malloc of any size answers null exactly for no bytes or when the base allocator
      fails. Another answer is a block of the whole size that is the pool's own and meets
      no live block, if and only if no addition wrapped. */
  lemma MallocIff(env: Env, cs: seq<Chunk>, live: seq<Block>, size: Size)
    requires Sound(env.base) && WellFormed(cs) && Placed(cs, live)
    ensures var n, p := Align(size), MallocOn(env, cs, size).ptr;
      && (p == NULL <==> size == 0 || Fails(env, cs, n))
      && (p != NULL ==> (Exact(env, cs, size) <==> Granted(env, cs, live, -1, size, p)))
  {
    var n, p := Align(size), MallocOn(env, cs, size).ptr;
    if p != NULL {
      if Exact(env, cs, size) {
        ExactIsGranted(env, cs, live, size, p);
      } else if NeedsChunk(cs, n) && HEADER + NewCapacity(env, n) >= SIZE_LIMIT {
        ShortAreaIsNotOwned(env, cs, n, size);
      } else {
        BeyondIsNotOwned(env, cs, n, p, size);
      }
    }
  }

  /** What the wrapping sums lead to, in a buffer of 1000 bytes at 4096: the largest size
      gets an address and no room, and a size just below it gives back room in use, so that
      two small blocks get one address. */
  lemma WrappedSizes(env: Env)
    ensures var cs := [Chunk(4096, 1000, 8)];
      && MallocOn(env, [Chunk(4096, 1000, 0)], 8) == Answer(4120, cs)
      && MallocOn(env, cs, SIZE_LIMIT - 1) == Answer(4128, cs)
      && MallocOn(env, MallocOn(env, cs, SIZE_LIMIT - 8).chunks, 8) == Answer(4120, cs)
  {
    assert Align(SIZE_LIMIT - 1) == 0 && Align(SIZE_LIMIT - 8) == SIZE_LIMIT - 8 && Align(8) == 8;
    var emptied := Used([Chunk(4096, 1000, 8)], SIZE_LIMIT - 8);
    assert emptied == [Chunk(4096, 1000, 0)];
  }

  lemma MoveKeeps(env: Env, cs: seq<Chunk>, live: seq<Block>, k: nat, newSize: Size)
    requires Sound(env.base) && WellFormed(cs) && Placed(cs, live) && k < |live|
    requires 0 < newSize <= Align(newSize) && Exact(env, cs, Align(newSize))
    ensures var r := MallocOn(env, cs, Align(newSize));
      r.ptr != NULL ==> WellFormed(r.chunks) && Placed(r.chunks, live[k := Block(r.ptr, newSize)])
  {
    hide WellFormed, Placed, Sound, Align, Sum, MallocOn, Exact;
    var n, r := Align(newSize), MallocOn(env, cs, Align(newSize));
    MallocKeeps(env, cs, live, n);
    if r.ptr != NULL { Replaced(r.chunks, live, k, Block(r.ptr, n), Block(r.ptr, newSize)); }
  }

  /** The block an exact Realloc answers takes the place of the old one. */
  lemma ReallocKeeps(env: Env, cs: seq<Chunk>, live: seq<Block>, k: nat, newSize: Size)
    requires Sound(env.base) && WellFormed(cs) && Placed(cs, live) && k < |live|
    requires newSize > 0 && ExactRealloc(env, cs, live[k], newSize)
    ensures var r := ReallocOn(env, cs, live[k], newSize);
      r.ptr != NULL ==> WellFormed(r.chunks) && Placed(r.chunks, live[k := Block(r.ptr, newSize)])
  {
    var b, n, r := live[k], Align(newSize), ReallocOn(env, cs, live[k], newSize);
    hide WellFormed, Placed, Sound, Align, Sum;
    if b.Len() >= n {
      Shrunk(cs, live, k, newSize);
    } else if GrowsInPlace(cs, b, n) {
      hide Exact;
      NoWrap(cs[0].size, n - b.Len());
      Grown(cs, live, k, newSize);
    } else if r.ptr != NULL {
      hide Exact;
      MoveKeeps(env, cs, live, k, newSize);
    }
  }

  /** A block that stayed is owned by the pool and meets no other live block. */
  lemma StayedIsGranted(env: Env, cs: seq<Chunk>, cs': seq<Chunk>, live: seq<Block>, k: nat, b: Block)
    requires k < |live| && WellFormed(cs') && Placed(cs', live[k := b])
    requires |cs'| == |cs| && forall i :: 0 <= i < |cs| ==>
      cs'[i].base == cs[i].base && cs'[i].capacity == cs[i].capacity
    ensures Granted(env, cs, live, k, b.size, b.ptr)
  {
    var live' := live[k := b];
    assert Housed(cs', live'[k]);
    var i :| 0 <= i < |cs'| && Inside(cs'[i], b);
    assert Sized(cs'[i]);
    assert InArea(cs[i].base, HEADER + cs[i].capacity, b.ptr, b.size);
    hide Align, Housed;
    forall i | 0 <= i < |live| && i != k ensures Separate(live[i].ptr, live[i].End(), b.ptr, b.ptr + b.size) {
      assert Disjoint(live'[i], live'[k]);
    }
  }

  /** Realloc does not move the block. */
  predicate Stays(cs: seq<Chunk>, b: Block, newSize: Size) {
    Align(newSize) <= b.Len() || GrowsInPlace(cs, b, Align(newSize))
  }

  lemma ReallocCases(env: Env, cs: seq<Chunk>, b: Block, newSize: Size)
    requires newSize > 0
    ensures Stays(cs, b, newSize) ==> ReallocOn(env, cs, b, newSize).ptr == b.ptr
    ensures !Stays(cs, b, newSize) ==> ReallocOn(env, cs, b, newSize) == MallocOn(env, cs, Align(newSize))
  {
  }

  lemma OwnedPart(env: Env, cs: seq<Chunk>, n: Size, p: nat, size: Size, less: Size)
    requires Owned(env, cs, n, p, size) && less <= size
    ensures Owned(env, cs, n, p, less)
  {
    hide Sum, NeedsChunk, NewCapacity;
    if exists i :: 0 <= i < |cs| && InArea(cs[i].base, HEADER + cs[i].capacity, p, size) {
      var i :| 0 <= i < |cs| && InArea(cs[i].base, HEADER + cs[i].capacity, p, size);
      assert InArea(cs[i].base, HEADER + cs[i].capacity, p, less);
    }
  }

  lemma ExactMoveIsGranted(env: Env, cs: seq<Chunk>, live: seq<Block>, k: nat, newSize: Size, p: nat)
    requires Sound(env.base) && WellFormed(cs) && Placed(cs, live) && k < |live|
    requires 0 < newSize <= Align(newSize) && Exact(env, cs, Align(newSize))
    requires p == MallocOn(env, cs, Align(newSize)).ptr != NULL
    ensures Granted(env, cs, live, k, newSize, p) && p != live[k].ptr
  {
    var n := Align(newSize);
    hide Align, Sum, Sound, Placed, WellFormed, Housed, Owned, MallocOn, Exact, NeedsChunk;
    HeldInside(cs, live, k);
    ExactIsGranted(env, cs, live, n, p);
    OwnedPart(env, cs, n, p, n, newSize);
    assert Separate(live[k].ptr, live[k].End(), p, p + n);
  }

  /** The answer of an exact Realloc is owned by the pool and meets no other live block. */
  lemma ExactReallocIsGranted(env: Env, cs: seq<Chunk>, live: seq<Block>, k: nat, newSize: Size, p: nat)
    requires Sound(env.base) && WellFormed(cs) && Placed(cs, live) && k < |live|
    requires ExactRealloc(env, cs, live[k], newSize) && p == ReallocOn(env, cs, live[k], newSize).ptr != NULL
    ensures Granted(env, cs, live, k, newSize, p)
    ensures p == live[k].ptr <==> Stays(cs, live[k], newSize)
  {
    ReallocCases(env, cs, live[k], newSize);
    if Stays(cs, live[k], newSize) {
      ReallocKeeps(env, cs, live, k, newSize);
      hide Align, Sum, Sound, Placed, WellFormed, Granted, ExactRealloc, Exact, MallocOn;
      StayedIsGranted(env, cs, ReallocOn(env, cs, live[k], newSize).chunks, live, k, Block(p, newSize));
    } else {
      hide ReallocOn, MallocOn;
      ExactMoveIsGranted(env, cs, live, k, newSize, p);
    }
  }

  /** An answer of Malloc that a wrapping sum led to is not the pool's to give. */
  lemma InexactIsNotOwned(env: Env, cs: seq<Chunk>, size: Size, asked: Size, p: nat)
    requires Sound(env.base) && WellFormed(cs) && !Exact(env, cs, size)
    requires p == MallocOn(env, cs, size).ptr != NULL && asked > 0 && Align(asked) == Align(size)
    requires asked <= Align(asked) || size == asked
    ensures !Owned(env, cs, Align(size), p, asked)
  {
    var n := Align(size);
    hide WellFormed, Owned, Align, Sum, Sound;
    if size <= n && NeedsChunk(cs, n) && HEADER + NewCapacity(env, n) >= SIZE_LIMIT {
      ShortAreaIsNotOwned(env, cs, n, asked);
    } else {
      BeyondIsNotOwned(env, cs, n, p, asked);
    }
  }

  /** Where a sum wraps, the block stays and ends beyond the address space, or it is
      inside Malloc that the sum wraps. */
  lemma InexactCases(env: Env, cs: seq<Chunk>, b: Block, newSize: Size)
    requires newSize > 0 && b.ptr > HEADER && !ExactRealloc(env, cs, b, newSize)
    ensures var n, r := Align(newSize), ReallocOn(env, cs, b, newSize);
      if newSize <= n && !Stays(cs, b, newSize) then r == MallocOn(env, cs, n) && !Exact(env, cs, n) && Align(n) == n
      else r.ptr == b.ptr && b.ptr + newSize >= SIZE_LIMIT
  {
    hide Sum, Exact, MallocOn;
  }

  /** The same for an answer of Realloc. */
  lemma InexactReallocIsNotOwned(env: Env, cs: seq<Chunk>, b: Block, newSize: Size, p: nat)
    requires Sound(env.base) && WellFormed(cs) && b.ptr > HEADER && !ExactRealloc(env, cs, b, newSize)
    requires p == ReallocOn(env, cs, b, newSize).ptr != NULL && newSize > 0
    ensures !Owned(env, cs, Align(newSize), p, newSize)
  {
    var n := Align(newSize);
    InexactCases(env, cs, b, newSize);
    hide WellFormed, Owned, Housed, Align, Sum, Sound, MallocOn, ReallocOn, Exact, ExactRealloc, Stays, NeedsChunk;
    if newSize <= n && !Stays(cs, b, newSize) {
      InexactIsNotOwned(env, cs, n, newSize, p);
    } else {
      BeyondIsNotOwned(env, cs, n, p, newSize);
    }
  }

  lemma NotStaying(cs: seq<Chunk>, b: Block, newSize: Size)
    ensures !Stays(cs, b, newSize) ==> Align(newSize) > 0
  {
  }

  lemma NothingResized(env: Env, cs: seq<Chunk>, b: Block)
    ensures ReallocOn(env, cs, b, 0).ptr == NULL
  {
  }

  lemma ReallocIsNull(env: Env, cs: seq<Chunk>, b: Block, newSize: Size)
    requires b.ptr != NULL
    ensures ReallocOn(env, cs, b, newSize).ptr == NULL <==>
            newSize == 0 || (!Stays(cs, b, newSize) && Fails(env, cs, Align(newSize)))
  {
    hide ReallocOn, Stays;
    NotStaying(cs, b, newSize);
    if newSize > 0 { ReallocCases(env, cs, b, newSize); } else { NothingResized(env, cs, b); }
  }

  /** Realloc of a live block to any size answers null exactly for no bytes or when a new
      chunk is needed and the base allocator fails. Another answer has room for the whole
      size and meets no other live block, if and only if no addition wrapped. */
  lemma ReallocIff(env: Env, cs: seq<Chunk>, live: seq<Block>, k: nat, newSize: Size)
    requires Sound(env.base) && WellFormed(cs) && Placed(cs, live) && k < |live|
    ensures var b, p := live[k], ReallocOn(env, cs, live[k], newSize).ptr;
      && (p == NULL <==> newSize == 0 || (!Stays(cs, b, newSize) && Fails(env, cs, Align(newSize))))
      && (p != NULL ==> (ExactRealloc(env, cs, b, newSize) <==> Granted(env, cs, live, k, newSize, p)))
  {
    var b, n, p := live[k], Align(newSize), ReallocOn(env, cs, live[k], newSize).ptr;
    assert Housed(cs, b);
    hide WellFormed, Sound, Owned, Housed, Placed, Align, Stays, Fails, ReallocOn, ExactRealloc;
    HousedIsOwned(env, cs, n, b);
    ReallocIsNull(env, cs, b, newSize);
    if p != NULL {
      if ExactRealloc(env, cs, b, newSize) {
        ExactReallocIsGranted(env, cs, live, k, newSize, p);
      } else {
        InexactReallocIsNotOwned(env, cs, b, newSize, p);
      }
    }
  }

  // ---- memory ----

  function ByteAt(m: nat -> byte, p: nat, i: nat): byte { m(p + i) }

  /** The n bytes at p are those that were at q. */
  ghost predicate Copied(m: nat -> byte, was: nat -> byte, p: nat, q: nat, n: nat) {
    forall i: nat :: i < n ==> ByteAt(m, p, i) == ByteAt(was, q, i)
  }

  /** Memory after n bytes at q are put at p. */
  function Moved(was: nat -> byte, p: nat, q: nat, n: nat): nat -> byte {
    (a: nat) => if p <= a < p + n then was(q + (a - p)) else was(a)
  }

  lemma MovedIs(was: nat -> byte, p: nat, q: nat, n: nat)
    ensures Copied(Moved(was, p, q, n), was, p, q, n)
    ensures forall a: nat :: !(p <= a < p + n) ==> Moved(was, p, q, n)(a) == was(a)
  {
    forall i: nat | i < n ensures ByteAt(Moved(was, p, q, n), p, i) == ByteAt(was, q, i) {
      assert q + ((p + i) - p) == q + i;
    }
  }

  /** No byte of a live block, other than the one given up, has changed. */
  ghost predicate Undisturbed(m: nat -> byte, was: nat -> byte, live: seq<Block>, given: int) {
    forall i, a: nat :: 0 <= i < |live| && i != given && live[i].ptr <= a < live[i].End() ==> m(a) == was(a)
  }

  // ---- the allocator object ----

  function TotalSize(cs: seq<Chunk>): nat { if |cs| == 0 then 0 else TotalSize(cs[..|cs| - 1]) + cs[|cs| - 1].size }

  function TotalCapacity(cs: seq<Chunk>): nat {
    if |cs| == 0 then 0 else TotalCapacity(cs[..|cs| - 1]) + cs[|cs| - 1].capacity
  }

  lemma {:induction false} SizeWithinCapacity(cs: seq<Chunk>)
    requires WellFormed(cs)
    ensures TotalSize(cs) <= TotalCapacity(cs)
  {
    if |cs| > 0 { SizeWithinCapacity(cs[..|cs| - 1]); }
  }

  /** The addresses from lo up to hi. */
  ghost function Span(lo: nat, hi: nat): (r: set<nat>)
    requires lo <= hi
    ensures |r| == hi - lo && forall a :: a in r <==> lo <= a < hi
    decreases hi - lo
  {
    if lo == hi then {} else Span(lo, hi - 1) + {hi - 1}
  }

  /** The addresses of all the chunks. */
  ghost function Addresses(cs: seq<Chunk>): set<nat> {
    if |cs| == 0 then {} else Addresses(cs[..|cs| - 1]) + Span(cs[|cs| - 1].base, cs[|cs| - 1].End())
  }

  lemma {:induction false} AddressesApart(cs: seq<Chunk>, lo: nat, hi: nat)
    requires lo <= hi && forall i :: 0 <= i < |cs| ==> Separate(cs[i].base, cs[i].End(), lo, hi)
    ensures Addresses(cs) !! Span(lo, hi)
  {
    if |cs| > 0 {
      var init := cs[..|cs| - 1];
      forall i | 0 <= i < |init| ensures Separate(init[i].base, init[i].End(), lo, hi) { assert init[i] == cs[i]; }
      AddressesApart(init, lo, hi);
      assert Separate(cs[|cs| - 1].base, cs[|cs| - 1].End(), lo, hi);
    }
  }

  lemma {:induction false} AddressesCount(cs: seq<Chunk>)
    requires WellFormed(cs)
    ensures TotalCapacity(cs) + HEADER * |cs| == |Addresses(cs)| && Addresses(cs) <= Span(1, SIZE_LIMIT)
  {
    if |cs| > 0 {
      var init, c := cs[..|cs| - 1], cs[|cs| - 1];
      assert Sized(c);
      AddressesCount(init);
      forall i | 0 <= i < |init| ensures Separate(init[i].base, init[i].End(), c.base, c.End()) {
        assert Separate(cs[i].base, cs[i].End(), cs[|cs| - 1].base, cs[|cs| - 1].End());
      }
      AddressesApart(init, c.base, c.End());
      hide Addresses, Span;
      assert |Addresses(init) + Span(c.base, c.End())| == |Addresses(init)| + |Span(c.base, c.End())|;
    }
  }

  lemma SubsetSize(a: set<nat>, b: set<nat>)
    requires a <= b
    ensures |a| <= |b|
  {
    assert b == a + (b - a);
  }

  /** Chunks that lie apart cannot have more bytes in all than there are addresses. */
  lemma CapacityFits(cs: seq<Chunk>)
    requires WellFormed(cs)
    ensures TotalCapacity(cs) < SIZE_LIMIT
  {
    AddressesCount(cs);
    hide Addresses, Span;
    SubsetSize(Addresses(cs), Span(1, SIZE_LIMIT));
  }

  lemma WellFormedPart(cs: seq<Chunk>, n: nat)
    requires WellFormed(cs) && n <= |cs|
    ensures WellFormed(cs[..n])
  {
  }

  lemma WellFormedTail(cs: seq<Chunk>)
    requires WellFormed(cs) && |cs| > 0
    ensures WellFormed(cs[1..])
  {
  }

  lemma Tails(cs: seq<Chunk>, k: nat)
    requires k < |cs|
    ensures cs[k..][1..] == cs[k + 1..] && cs[k..][|cs| - k - 1] == cs[|cs| - 1]
  {
  }

  lemma BasesDiffer(cs: seq<Chunk>)
    requires WellFormed(cs) && |cs| > 0
    ensures cs[0].base > 0 && (cs[0].base == cs[|cs| - 1].base ==> |cs| == 1)
    ensures WellFormed(cs[0 := cs[0].(size := 0)])
  {
    if |cs| > 1 { assert Separate(cs[0].base, cs[0].End(), cs[|cs| - 1].base, cs[|cs| - 1].End()); }
  }

  /** Only the user's buffer, emptied. */
  function Cleared(env: Env, cs: seq<Chunk>): seq<Chunk> {
    if env.userBuffer == NULL || |cs| == 0 then [] else [cs[|cs| - 1].(size := 0)]
  }

  /** The oldest chunk is the user's buffer, if there is one. */
  ghost predicate EndsWithBuffer(env: Env, cs: seq<Chunk>) {
    env.userBuffer != NULL ==> |cs| > 0 && cs[|cs| - 1].base == env.userBuffer
  }

  lemma MallocEnds(env: Env, cs: seq<Chunk>, size: Size)
    requires EndsWithBuffer(env, cs)
    ensures EndsWithBuffer(env, MallocOn(env, cs, size).chunks)
  {
  }

  lemma ReallocEnds(env: Env, cs: seq<Chunk>, b: Block, newSize: Size)
    requires EndsWithBuffer(env, cs)
    ensures EndsWithBuffer(env, ReallocOn(env, cs, b, newSize).chunks)
  {
    MallocEnds(env, cs, Align(newSize));
    hide MallocOn;
  }

  function Least(a: nat, b: nat): nat { if a < b then a else b }

  /** A copy into a block that an exact Realloc moved to touches no other block. */
  lemma CopyDisturbsNone(env: Env, cs: seq<Chunk>, live: seq<Block>, k: nat, newSize: Size, p: nat, was: nat -> byte)
    requires Sound(env.base) && WellFormed(cs) && Placed(cs, live) && k < |live|
    requires ExactRealloc(env, cs, live[k], newSize) && !Stays(cs, live[k], newSize)
    requires p == ReallocOn(env, cs, live[k], newSize).ptr != NULL
    ensures Undisturbed(Moved(was, p, live[k].ptr, live[k].Len()), was, live, k)
  {
    var n := Align(newSize);
    ReallocCases(env, cs, live[k], newSize);
    ExactIsGranted(env, cs, live, n, p);
    hide Align, WellFormed, Placed, Sound, ExactRealloc, Exact, MallocOn, ReallocOn, Owned;
    forall i, a: nat | 0 <= i < |live| && i != k && live[i].ptr <= a < live[i].End()
      ensures Moved(was, p, live[k].ptr, live[k].Len())(a) == was(a)
    {
      assert Separate(live[i].ptr, live[i].End(), p, p + n);
    }
  }

  /** Memory after a Realloc that answered p. */
  function MemoryAfter(cs: seq<Chunk>, b: Block, newSize: Size, p: nat, was: nat -> byte): nat -> byte {
    if p == NULL || Stays(cs, b, newSize) then was else Moved(was, p, b.ptr, b.Len())
  }

  lemma ReallocCopies(cs: seq<Chunk>, b: Block, newSize: Size, p: nat, was: nat -> byte)
    requires b.size <= b.Len() && p != NULL && (Stays(cs, b, newSize) ==> p == b.ptr)
    ensures Copied(MemoryAfter(cs, b, newSize, p, was), was, p, b.ptr, Least(b.size, newSize))
  {
    MovedIs(was, p, b.ptr, b.Len());
    hide Stays, Moved;
  }

  /** What is known of every Realloc of a live block, whatever memory holds. */
  lemma ReallocLaws(env: Env, cs: seq<Chunk>, live: seq<Block>, k: nat, newSize: Size, was: nat -> byte)
    requires Sound(env.base) && WellFormed(cs) && Placed(cs, live) && k < |live| && EndsWithBuffer(env, cs)
    ensures var b, r, exact := live[k], ReallocOn(env, cs, live[k], newSize), ExactRealloc(env, cs, live[k], newSize);
      var now := MemoryAfter(cs, b, newSize, r.ptr, was);
      && EndsWithBuffer(env, r.chunks) && Undisturbed(was, was, live, k)
      && (r.ptr == NULL ==> r.chunks == cs)
      && (r.ptr != NULL ==> newSize > 0 && Copied(now, was, r.ptr, b.ptr, Least(b.size, newSize)))
      && (r.ptr != NULL ==> (exact <==> Granted(env, cs, live, k, newSize, r.ptr)))
      && (r.ptr != NULL && exact ==>
            && WellFormed(r.chunks) && Placed(r.chunks, live[k := Block(r.ptr, newSize)])
            && Undisturbed(now, was, live, k) && (r.ptr == b.ptr <==> Stays(cs, b, newSize)))
  {
    var b, r := live[k], ReallocOn(env, cs, live[k], newSize);
    assert Housed(cs, b);
    ReallocIff(env, cs, live, k, newSize);
    ReallocEnds(env, cs, b, newSize);
    if newSize > 0 { ReallocCases(env, cs, b, newSize); }
    assert r.ptr == NULL ==> r.chunks == cs;
    hide Align, WellFormed, Placed, Sound, Exact, ExactRealloc, Granted, EndsWithBuffer, Copied, Stays, MallocOn;
    if r.ptr != NULL {
      ReallocCopies(cs, b, newSize, r.ptr, was);
      if ExactRealloc(env, cs, b, newSize) {
        ReallocKeeps(env, cs, live, k, newSize);
        ExactReallocIsGranted(env, cs, live, k, newSize, r.ptr);
        if !Stays(cs, b, newSize) { CopyDisturbsNone(env, cs, live, k, newSize, r.ptr, was); }
      }
    }
  }

  lemma NothingPlaced(cs: seq<Chunk>)
    ensures Placed(cs, [])
  {
  }

  lemma HasHead(cs: seq<Chunk>, live: seq<Block>, b: Block)
    requires Placed(cs, live) && b in live
    ensures |cs| > 0
  {
    var i :| 0 <= i < |live| && live[i] == b;
    assert Housed(cs, live[i]);
  }

  class Pool {
    var chunks: seq<Chunk>
    const env: Env
    /** All of memory. */
    var mem: nat -> byte
    ghost var live: seq<Block>

    ghost predicate Valid()
      reads this
    {
      WellFormed(chunks) && Placed(chunks, live) && Sound(env.base) && EndsWithBuffer(env, chunks)
    }

    /** Size; never more than the capacity, and the additions never wrap. */
    method Size() returns (n: nat)
      requires Valid()
      ensures n == TotalSize(chunks) <= TotalCapacity(chunks)
    {
      hide WellFormed, Placed, Sound;
      var size: Size := 0;
      var i := 0;
      while i < |chunks|
        invariant i <= |chunks| && size == TotalSize(chunks[..i])
      {
        assert chunks[..i + 1][..i] == chunks[..i];
        WellFormedPart(chunks, i + 1);
        SizeWithinCapacity(chunks[..i + 1]);
        CapacityFits(chunks[..i + 1]);
        size, i := Sum(size, chunks[i].size), i + 1;
      }
      assert chunks[..i] == chunks;
      SizeWithinCapacity(chunks);
      return size;
    }

    constructor (chunkCapacity: Size, base: (seq<Chunk>, Size) -> Option<nat>, mem: nat -> byte)
      requires Sound(base)
      ensures Valid() && live == [] && chunks == [] && env == Env(chunkCapacity, base, NULL)
    {
      this.env, this.mem := Env(chunkCapacity, base, NULL), mem;
      chunks, live := [], [];
    }

    /** The user's buffer, wherever it starts, is the first chunk. */
    constructor WithBuffer(buffer: nat, size: Size, chunkCapacity: Size, base: (seq<Chunk>, Size) -> Option<nat>,
                           mem: nat -> byte)
      requires Sound(base) && buffer > 0 && size > HEADER && buffer + size < SIZE_LIMIT
      ensures Valid() && live == [] && chunks == [Chunk(buffer, size - HEADER, 0)]
      ensures env == Env(chunkCapacity, base, buffer)
    {
      this.env, this.mem := Env(chunkCapacity, base, buffer), mem;
      chunks, live := [Chunk(buffer, size - HEADER, 0)], [];
    }

    /** AddChunk */
    method AddChunk(capacity: Size) returns (ok: bool)
      modifies this`chunks
      ensures ok == Added(env, old(chunks), capacity).Some?
      ensures chunks == if ok then Added(env, old(chunks), capacity).value else old(chunks)
    {
      var area := env.base(chunks, Sum(HEADER, capacity));
      if area.None? { return false; }
      chunks := [Chunk(area.value, capacity, 0)] + chunks;
      return true;
    }

    /** Malloc, of any size. Unless an addition wraps, an answer other than null is a new
        block that meets no live one; a null answer leaves everything as it was. */
    method Malloc(size: Size) returns (p: nat)
      requires Valid()
      modifies this`chunks, this`live
      ensures Answer(p, chunks) == MallocOn(env, old(chunks), size)
      ensures p == NULL ==> chunks == old(chunks) && live == old(live)
      ensures p != NULL ==> live == old(live) + [Block(p, size)]
      ensures p != NULL ==> (Exact(env, old(chunks), size) <==> Granted(env, old(chunks), old(live), -1, size, p))
      ensures p == NULL || Exact(env, old(chunks), size) ==> Valid()
    {
      MallocIff(env, chunks, live, size);
      if Exact(env, chunks, size) { MallocKeeps(env, chunks, live, size); }
      MallocEnds(env, chunks, size);
      hide Align, WellFormed, Placed, Sound, Sum, Exact, Granted, EndsWithBuffer;
      if size == 0 { return NULL; }
      var n := Align(size);
      if |chunks| == 0 || Sum(chunks[0].size, n) > chunks[0].capacity {
        var ok := AddChunk(if env.capacity > n then env.capacity else n);
        if !ok { return NULL; }
      }
      p := chunks[0].base + HEADER + chunks[0].size;
      live := live + [Block(p, size)];
      chunks := chunks[0 := chunks[0].(size := Sum(chunks[0].size, n))];
    }

    /** memcpy */
    method CopyBytes(p: nat, q: nat, n: nat)
      modifies this`mem
      ensures mem == Moved(old(mem), p, q, n)
    {
      mem := Moved(mem, p, q, n);
    }

    /** Realloc from the comparison of the aligned sizes on. */
    method Resize(originalPtr: nat, oldLen: Size, newLen: Size, ghost b: Block, ghost newSize: Size) returns (p: nat)
      requires Valid() && originalPtr != NULL && b.ptr == originalPtr && b.Len() == oldLen && b in live
      requires newSize > 0 && newLen == Align(newSize)
      modifies this`chunks, this`live, this`mem
      ensures Answer(p, chunks) == ReallocOn(env, old(chunks), b, newSize)
      ensures mem == MemoryAfter(old(chunks), b, newSize, p, old(mem))
      ensures p == NULL ==> live == old(live)
    {
      HasHead(chunks, live, b);
      hide Align, WellFormed, Placed, Sound, MallocOn, Exact, Granted, EndsWithBuffer, Sum, Moved;
      if oldLen >= newLen {
        return originalPtr;
      }
      if originalPtr == chunks[0].base + HEADER + chunks[0].size - oldLen {
        var increment := newLen - oldLen;
        if Sum(chunks[0].size, increment) <= chunks[0].capacity {
          chunks := chunks[0 := chunks[0].(size := Sum(chunks[0].size, increment))];
          return originalPtr;
        }
      }
      p := Malloc(newLen);
      if p != NULL {
        CopyBytes(p, originalPtr, oldLen);
      }
    }

    /** Realloc of the live block at place k, or of null, to any size. Unless an addition
        wraps, an answer other than null has the contents of the old block, which moves only
        when it has to; the other blocks are not touched. A null answer leaves everything as
        it was, the old block included. */
    method Realloc(originalPtr: nat, originalSize: Size, newSize: Size, ghost k: int) returns (p: nat)
      requires Valid()
      requires originalPtr != NULL ==> 0 <= k < |live| && live[k] == Block(originalPtr, originalSize)
      modifies this`chunks, this`live, this`mem
      ensures originalPtr != NULL ==>
        Answer(p, chunks) == ReallocOn(env, old(chunks), Block(originalPtr, originalSize), newSize)
      ensures originalPtr == NULL ==> Answer(p, chunks) == MallocOn(env, old(chunks), newSize) && mem == old(mem)
      ensures p == NULL ==> chunks == old(chunks) && live == old(live) && mem == old(mem)
      ensures p != NULL && originalPtr == NULL ==> live == old(live) + [Block(p, newSize)]
      ensures p != NULL && originalPtr != NULL ==> live == old(live)[k := Block(p, newSize)]
      ensures p != NULL && originalPtr != NULL ==> Copied(mem, old(mem), p, originalPtr, Least(originalSize, newSize))
      ensures originalPtr != NULL ==> var b := Block(originalPtr, originalSize);
        var exact := ExactRealloc(env, old(chunks), b, newSize);
        && (p == NULL || exact ==> Valid() && Undisturbed(mem, old(mem), old(live), k))
        && (p != NULL ==> (exact <==> Granted(env, old(chunks), old(live), k, newSize, p)))
        && (p != NULL && exact ==> (p == originalPtr <==> Stays(old(chunks), b, newSize)))
      ensures originalPtr == NULL ==> p == NULL || Exact(env, old(chunks), newSize) ==> Valid()
    {
      if originalPtr == NULL {
        p := Malloc(newSize);
        return;
      }
      ghost var b := Block(originalPtr, originalSize);
      ReallocLaws(env, chunks, live, k, newSize, mem);
      hide Align, WellFormed, Placed, Sound, ExactRealloc, Granted, Exact, EndsWithBuffer, Copied, Undisturbed, Stays;
      if newSize == 0 {
        return NULL;
      }
      p := Resize(originalPtr, Align(originalSize), Align(newSize), b, newSize);
      if p != NULL { live := old(live)[k := Block(p, newSize)]; }
    }

    /** Capacity; the additions never wrap. */
    method Capacity() returns (n: nat)
      requires Valid()
      ensures n == TotalCapacity(chunks)
    {
      hide WellFormed, Placed, Sound;
      var capacity: Size := 0;
      var i := 0;
      while i < |chunks|
        invariant i <= |chunks| && capacity == TotalCapacity(chunks[..i])
      {
        assert chunks[..i + 1][..i] == chunks[..i];
        WellFormedPart(chunks, i + 1);
        CapacityFits(chunks[..i + 1]);
        capacity, i := Sum(capacity, chunks[i].capacity), i + 1;
      }
      assert chunks[..i] == chunks;
      return capacity;
    }

    /** Clear: every chunk goes but the user's buffer, which is emptied. */
    method Clear()
      requires Valid()
      modifies this`chunks, this`live
      ensures Valid() && live == [] && chunks == Cleared(env, old(chunks))
    {
      hide Sound, WellFormed, Placed;
      live := [];
      ghost var k := 0;
      while |chunks| > 0 && chunks[0].base != env.userBuffer
        invariant WellFormed(chunks) && EndsWithBuffer(env, chunks)
        invariant live == []
        invariant k <= |old(chunks)| && chunks == old(chunks)[k..]
        decreases |chunks|
      {
        WellFormedTail(chunks);
        Tails(old(chunks), k);
        chunks := chunks[1..];
        k := k + 1;
      }
      if |chunks| > 0 { Tails(old(chunks), k); }
      if |chunks| > 0 && chunks[0].base == env.userBuffer {
        BasesDiffer(chunks);
        assert |chunks| == 1;
        chunks := chunks[0 := chunks[0].(size := 0)];
      }
      NothingPlaced(chunks);
    }
  }
}
