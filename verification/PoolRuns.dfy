/** Whole runs of calls on the pool allocator: what the blocks a caller holds are good for,
    and when they are aligned. */
module PoolRuns {
  import opened Bytes
  import opened PoolAllocator

  /** A call, or the caller's own write into the i-th block it holds. Realloc of a block
      that is not held is Realloc of null. */
  datatype Op = Malloc(size: Size) | Realloc(i: nat, newSize: Size) | Write(i: nat, at: nat, value: byte) | Clear

  /** The chunks, the blocks held, and what their holder has written into each. */
  datatype State = State(chunks: seq<Chunk>, held: seq<Block>, written: seq<map<nat, byte>>)

  /** The call answers null or without a wrapping addition. */
  predicate ExactOp(env: Env, cs: seq<Chunk>, held: seq<Block>, op: Op) {
    match op
    case Malloc(n) => MallocOn(env, cs, n).ptr == NULL || Exact(env, cs, n)
    case Realloc(i, n) =>
      if i < |held| then ReallocOn(env, cs, held[i], n).ptr == NULL || ExactRealloc(env, cs, held[i], n)
      else MallocOn(env, cs, n).ptr == NULL || Exact(env, cs, n)
    case Write(_, _, _) => true
    case Clear => true
  }

  function Below(m: map<nat, byte>, n: nat): map<nat, byte> { map k | k in m && k < n :: m[k] }

  function Put(m: map<nat, byte>, at: nat, value: byte): map<nat, byte> { m[at := value] }

  function Given(st: State, r: Answer, size: Size): State {
    if r.ptr == NULL then st else State(r.chunks, st.held + [Block(r.ptr, size)], st.written + [map[]])
  }

  function StepOn(env: Env, st: State, op: Op): State
    requires |st.written| == |st.held|
  {
    match op
    case Malloc(n) => Given(st, MallocOn(env, st.chunks, n), n)
    case Realloc(i, n) =>
      if i >= |st.held| then Given(st, MallocOn(env, st.chunks, n), n) else
      var r := ReallocOn(env, st.chunks, st.held[i], n);
      if r.ptr == NULL then st
      else State(r.chunks, st.held[i := Block(r.ptr, n)], st.written[i := Below(st.written[i], n)])
    case Write(i, at, value) =>
      if i < |st.held| && at < st.held[i].size then st.(written := st.written[i := Put(st.written[i], at, value)])
        else st
    case Clear => State(Cleared(env, st.chunks), [], [])
  }

  /** The state after a run in which no addition wrapped. */
  function RunOn(env: Env, st: State, ops: seq<Op>): (r: Option<State>)
    requires |st.written| == |st.held|
    ensures r.Some? ==> |r.value.written| == |r.value.held|
  {
    if |ops| == 0 then Some(st) else
    match RunOn(env, st, ops[..|ops| - 1])
    case None => None
    case Some(st') =>
      var op := ops[|ops| - 1];
      if ExactOp(env, st'.chunks, st'.held, op) then Some(StepOn(env, st', op)) else None
  }

  // ---- alignment ----

  ghost predicate AllAligned(held: seq<Block>) { forall i :: 0 <= i < |held| ==> held[i].ptr % 8 == 0 }

  /** Every chunk that can hold a block starts at an aligned address. */
  ghost predicate ChunksAligned(cs: seq<Chunk>) {
    forall i :: 0 <= i < |cs| ==> (cs[i].base % 8 == 0 || cs[i].capacity < 8) && cs[i].size % 8 == 0
  }

  lemma UsedAligned(cs: seq<Chunk>, n: Size)
    requires |cs| > 0 && ChunksAligned(cs) && n % 8 == 0
    ensures ChunksAligned(Used(cs, n))
  {
  }

  lemma NewAligned(cs: seq<Chunk>, base: nat, capacity: Size)
    requires ChunksAligned(cs) && base % 8 == 0
    ensures ChunksAligned([Chunk(base, capacity, 0)] + cs)
  {
  }

  lemma MallocAligned(env: Env, cs: seq<Chunk>, size: Size)
    requires Sound(env.base) && ChunksAligned(cs)
    ensures var r := MallocOn(env, cs, size);
      r.ptr != NULL ==> ChunksAligned(r.chunks) && (Exact(env, cs, size) ==> r.ptr % 8 == 0)
  {
    var n := Align(size);
    if NeedsChunk(cs, n) {
      var capacity := NewCapacity(env, n);
      var area := env.base(cs, Sum(HEADER, capacity));
      if area.Some? {
        assert FreeArea(cs, area.value, Sum(HEADER, capacity));
        hide Align, Sum, Sound, FreeArea;
        NewAligned(cs, area.value, capacity);
        UsedAligned([Chunk(area.value, capacity, 0)] + cs, n);
      }
    } else {
      UsedAligned(cs, n);
      assert size > 0 && Exact(env, cs, size) ==> cs[0].Top() % 8 == 0;
      hide Align, Sum, Exact, ChunksAligned, Sound;
    }
  }

  lemma ReallocAligned(env: Env, cs: seq<Chunk>, b: Block, newSize: Size)
    requires Sound(env.base) && ChunksAligned(cs) && b.ptr % 8 == 0
    ensures var r := ReallocOn(env, cs, b, newSize);
      r.ptr != NULL ==> ChunksAligned(r.chunks) && (ExactRealloc(env, cs, b, newSize) ==> r.ptr % 8 == 0)
  {
    var n := Align(newSize);
    if newSize > 0 {
      if b.Len() < n && GrowsInPlace(cs, b, n) { UsedAligned(cs, n - b.Len()); }
      MallocAligned(env, cs, n);
      hide MallocOn, Exact, ChunksAligned, Align, Sum;
      ReallocCases(env, cs, b, newSize);
    }
  }

  lemma StepAligned(env: Env, st: State, op: Op)
    requires Sound(env.base) && |st.written| == |st.held|
    requires ChunksAligned(st.chunks) && AllAligned(st.held) && ExactOp(env, st.chunks, st.held, op)
    ensures ChunksAligned(StepOn(env, st, op).chunks) && AllAligned(StepOn(env, st, op).held)
  {
    hide MallocOn, ReallocOn, Exact, ExactRealloc;
    match op
    case Malloc(n) => MallocAligned(env, st.chunks, n);
    case Realloc(i, n) =>
      if i < |st.held| { ReallocAligned(env, st.chunks, st.held[i], n); } else { MallocAligned(env, st.chunks, n); }
    case Write(_, _, _) =>
    case Clear =>
  }

  lemma {:induction false} RunAligned(env: Env, st: State, ops: seq<Op>)
    requires Sound(env.base) && |st.written| == |st.held| && ChunksAligned(st.chunks) && AllAligned(st.held)
    ensures var r := RunOn(env, st, ops); r.Some? ==> ChunksAligned(r.value.chunks) && AllAligned(r.value.held)
  {
    if |ops| > 0 {
      RunAligned(env, st, ops[..|ops| - 1]);
      var r := RunOn(env, st, ops[..|ops| - 1]);
      hide ChunksAligned, AllAligned, StepOn, ExactOp;
      if r.Some? && ExactOp(env, r.value.chunks, r.value.held, ops[|ops| - 1]) {
        StepAligned(env, r.value, ops[|ops| - 1]);
      }
    }
  }

  /** A pool that starts in the user's buffer. */
  function InBuffer(env: Env, size: Size): State
    requires size > HEADER
  {
    State([Chunk(env.userBuffer, size - HEADER, 0)], [], [])
  }

  /** Malloc(1) in the buffer. */
  lemma FirstBlock(env: Env, size: Size)
    requires HEADER + 8 <= size && env.userBuffer + size < SIZE_LIMIT
    ensures RunOn(env, InBuffer(env, size), [Malloc(1)]).Some?
    ensures RunOn(env, InBuffer(env, size), [Malloc(1)]).value.held == [Block(env.userBuffer + HEADER, 1)]
  {
    var ops := [Malloc(1)];
    assert ops[..|ops| - 1] == [];
    assert Align(1) == 8;
  }

  /** In every run all held blocks are aligned, if and only if the user's buffer is, or has
      no room for a block. */
  lemma AlignedIff(env: Env, size: Size)
    requires Sound(env.base) && env.userBuffer > 0 && size > HEADER && env.userBuffer + size < SIZE_LIMIT
    ensures (forall ops :: RunOn(env, InBuffer(env, size), ops).Some? ==>
                             AllAligned(RunOn(env, InBuffer(env, size), ops).value.held))
       <==> env.userBuffer % 8 == 0 || size < HEADER + 8
  {
    var st := InBuffer(env, size);
    if env.userBuffer % 8 == 0 || size < HEADER + 8 {
      forall ops | RunOn(env, st, ops).Some? ensures AllAligned(RunOn(env, st, ops).value.held) {
        RunAligned(env, st, ops);
      }
    } else {
      FirstBlock(env, size);
      assert RunOn(env, st, [Malloc(1)]).value.held[0].ptr % 8 != 0;
    }
  }

  /** Without a user's buffer they always are. */
  lemma AlignedWithoutBuffer(env: Env, ops: seq<Op>)
    requires Sound(env.base)
    ensures var r := RunOn(env, State([], [], []), ops); r.Some? ==> AllAligned(r.value.held)
  {
    RunAligned(env, State([], [], []), ops);
  }

  // ---- contents ----

  /** Each block holds what was last written into it. */
  ghost predicate Reads(m: nat -> byte, held: seq<Block>, written: seq<map<nat, byte>>) {
    && |written| == |held|
    && forall i, k :: 0 <= i < |held| && k in written[i] ==>
         k < held[i].size && ByteAt(m, held[i].ptr, k) == written[i][k]
  }

  function Poked(was: nat -> byte, p: nat, value: byte): nat -> byte { (a: nat) => if a == p then value else was(a) }

  lemma PokeReads(m: nat -> byte, cs: seq<Chunk>, held: seq<Block>, written: seq<map<nat, byte>>, i: nat, at: nat,
                  v: byte)
    requires Placed(cs, held) && Reads(m, held, written) && i < |held| && at < held[i].size
    ensures Reads(Poked(m, held[i].ptr + at, v), held, written[i := Put(written[i], at, v)])
  {
    var m', w := Poked(m, held[i].ptr + at, v), written[i := Put(written[i], at, v)];
    HeldInside(cs, held, i);
    forall j, k | 0 <= j < |held| && k in w[j] ensures k < held[j].size && ByteAt(m', held[j].ptr, k) == w[j][k] {
      if j != i {
        HeldInside(cs, held, j);
        assert Disjoint(held[i], held[j]);
        assert k in written[j];
      }
    }
  }

  lemma ReallocReads(was: nat -> byte, m: nat -> byte, cs: seq<Chunk>, held: seq<Block>, written: seq<map<nat, byte>>,
                     i: nat, p: nat, n: Size)
    requires Placed(cs, held) && Reads(was, held, written) && i < |held|
    requires Copied(m, was, p, held[i].ptr, Least(held[i].size, n)) && Undisturbed(m, was, held, i)
    ensures Reads(m, held[i := Block(p, n)], written[i := Below(written[i], n)])
  {
    var held', w := held[i := Block(p, n)], written[i := Below(written[i], n)];
    forall j, k | 0 <= j < |held| && k in w[j] ensures k < held'[j].size && ByteAt(m, held'[j].ptr, k) == w[j][k] {
      assert k in written[j] && k < held[j].size;
      HeldInside(cs, held, j);
      if j != i { assert m(held[j].ptr + k) == was(held[j].ptr + k); }
    }
  }

  lemma HeldNotNull(cs: seq<Chunk>, held: seq<Block>, i: nat)
    requires WellFormed(cs) && Placed(cs, held) && i < |held|
    ensures held[i].ptr != NULL
  {
    assert Housed(cs, held[i]);
  }

  /** One call on the pool, or one write. */
  method Perform(pool: Pool, held: seq<Block>, ghost written: seq<map<nat, byte>>, op: Op)
    returns (done: bool, held': seq<Block>, ghost written': seq<map<nat, byte>>)
    requires pool.Valid() && pool.live == held && Reads(pool.mem, held, written)
    modifies pool
    ensures done == ExactOp(pool.env, old(pool.chunks), held, op)
    ensures done ==> pool.Valid() && pool.live == held' && Reads(pool.mem, held', written')
    ensures done ==> State(pool.chunks, held', written') == StepOn(pool.env, State(old(pool.chunks), held, written), op)
  {
    done := ExactOp(pool.env, pool.chunks, held, op);
    held', written' := held, written;
    if !done { return; }
    hide Exact, ExactRealloc, MallocOn, ReallocOn, Cleared, Placed, WellFormed, Copied, Undisturbed, Granted, Poked,
      Below;
    match op {
      case Malloc(n) =>
        var p := pool.Malloc(n);
        if p != NULL { held', written' := held + [Block(p, n)], written + [map[]]; }
      case Realloc(i, n) =>
        if i < |held| {
          ghost var was, cs := pool.mem, pool.chunks;
          HeldNotNull(cs, held, i);
          var p := pool.Realloc(held[i].ptr, held[i].size, n, i);
          if p != NULL {
            ReallocReads(was, pool.mem, cs, held, written, i, p, n);
            held', written' := held[i := Block(p, n)], written[i := Below(written[i], n)];
          }
        } else {
          var p := pool.Realloc(NULL, 0, n, -1);
          if p != NULL { held', written' := held + [Block(p, n)], written + [map[]]; }
        }
      case Write(i, at, value) =>
        if i < |held| && at < held[i].size {
          PokeReads(pool.mem, pool.chunks, held, written, i, at, value);
          pool.mem := Poked(pool.mem, held[i].ptr + at, value);
          written' := written[i := Put(written[i], at, value)];
        }
      case Clear =>
        pool.Clear();
        held', written' := [], [];
    }
  }

  lemma {:induction false} RunStops(env: Env, st: State, ops: seq<Op>, i: nat)
    requires |st.written| == |st.held| && i <= |ops| && RunOn(env, st, ops[..i]) == None
    ensures RunOn(env, st, ops) == None
    decreases |ops|
  {
    if i < |ops| {
      assert ops[..|ops| - 1][..i] == ops[..i];
      RunStops(env, st, ops[..|ops| - 1], i);
    } else {
      assert ops[..i] == ops;
    }
  }

  /** Over every run of calls and writes in which no addition wraps, the blocks held are
      separate arrays: no two meet, each is inside one chunk, and each reads as what was
      last written into it, whatever was allocated, moved or written elsewhere. */
  method Run(pool: Pool, ops: seq<Op>) returns (done: bool, held: seq<Block>, ghost written: seq<map<nat, byte>>)
    requires pool.Valid() && pool.live == []
    modifies pool
    ensures done <==> RunOn(pool.env, State(old(pool.chunks), [], []), ops).Some?
    ensures done ==> RunOn(pool.env, State(old(pool.chunks), [], []), ops) == Some(State(pool.chunks, held, written))
    ensures done ==> WellFormed(pool.chunks) && Placed(pool.chunks, held) && Reads(pool.mem, held, written)
  {
    held, written := [], [];
    ghost var start := State(pool.chunks, [], []);
    hide Pool.Valid, StepOn, ExactOp, Reads, Placed, WellFormed;
    for i := 0 to |ops|
      invariant pool.Valid() && pool.live == held && |held| == |written| && Reads(pool.mem, held, written)
      invariant RunOn(pool.env, start, ops[..i]) == Some(State(pool.chunks, held, written))
    {
      assert ops[..i + 1][..i] == ops[..i];
      done, held, written := Perform(pool, held, written, ops[i]);
      if !done {
        RunStops(pool.env, start, ops, i + 1);
        return;
      }
    }
    assert ops[..|ops|] == ops;
    done := true;
  }
}
