/** RingBuffer.cpp: the server's byte queue. The unread bytes are one contiguous run that
    slides through an allocation and is moved back to its start near the end. */
module RingBuffer {
  import opened Bytes

  const UINT32: nat := 0x1_0000_0000

  /** bufferSize * 10 + bufferSize in 32 bits */
  function MaxSize(bufferSize: nat): nat { (bufferSize * 10 + bufferSize) % UINT32 }

  /** Eleven times the configured size, exactly while that fits 32 bits. */
  lemma ElevenfoldIff(bufferSize: nat)
    requires bufferSize < UINT32
    ensures MaxSize(bufferSize) == 11 * bufferSize <==> 11 * bufferSize < UINT32
    ensures 11 * bufferSize < UINT32 ==> bufferSize <= MaxSize(bufferSize)
  {
  }

  datatype Op = Push(data: bytes) | Pop(size: nat) | Clear

  /** The bytes a queue holds after these calls, each refused or taken as a whole. */
  function Held(ops: seq<Op>, capacity: nat): (q: bytes)
    ensures |q| <= capacity
  {
    if |ops| == 0 then []
    else
      var q := Held(ops[..|ops| - 1], capacity);
      match ops[|ops| - 1]
      case Push(data) => if |q| + |data| <= capacity then q + data else q
      case Pop(size) => if size <= |q| then q[size..] else q
      case Clear => []
  }

  lemma HeldNext(ops: seq<Op>, op: Op, capacity: nat)
    ensures var q := Held(ops, capacity);
      Held(ops + [op], capacity) ==
        if op.Push? then (if |q| + |op.data| <= capacity then q + op.data else q)
        else if op.Pop? then (if op.size <= |q| then q[op.size..] else q)
        else []
  {
    assert (ops + [op])[..|ops|] == ops;
  }

  /** Bytes go in behind those held and come out in front, all of a call or none. */
  lemma QueueSteps(ops: seq<Op>, data: bytes, n: nat, capacity: nat)
    ensures var q := Held(ops, capacity);
      && (|q| + |data| <= capacity <==> Held(ops + [Push(data)], capacity) == q + data)
      && (|q| + |data| > capacity ==> Held(ops + [Push(data)], capacity) == q)
      && (n <= |q| ==> q == q[..n] + Held(ops + [Pop(n)], capacity))
      && (n > |q| ==> Held(ops + [Pop(n)], capacity) == q)
      && Held(ops + [Clear], capacity) == []
  {
    hide Held;
    HeldNext(ops, Push(data), capacity);
    HeldNext(ops, Pop(n), capacity);
    HeldNext(ops, Clear, capacity);
  }

  // ----- the marks -----

  /** Offsets into the allocation, and the number of unread bytes. */
  datatype Marks = Marks(front: nat, rear: nat, size: nat)

  const START: Marks := Marks(0, 0, 0)

  /** The end mark: the allocation's size less the configured size, in 32 bits. */
  function EndMark(bufferSize: nat): nat
    requires bufferSize < UINT32
  {
    (MaxSize(bufferSize) + UINT32 - bufferSize) % UINT32
  }

  function Rearranged(m: Marks): Marks { Marks(0, m.size, m.size) }

  function Pushed(bufferSize: nat, m: Marks, n: nat): Marks
    requires bufferSize < UINT32
  {
    if n == 0 || m.size + n > MaxSize(bufferSize) then m
    else
      var a := if m.rear + n > EndMark(bufferSize) then Rearranged(m) else m;
      Marks(a.front, a.rear + n, a.size + n)
  }

  function Popped(bufferSize: nat, m: Marks, n: nat): Marks
    requires bufferSize < UINT32
  {
    if n == 0 || n > m.size then m
    else
      var a := if m.front + n > EndMark(bufferSize) then Rearranged(m) else m;
      Marks(a.front + n, a.rear, a.size - n)
  }

  function MarksAfter(bufferSize: nat, ops: seq<Op>): Marks
    requires bufferSize < UINT32
  {
    if |ops| == 0 then START
    else
      var m := MarksAfter(bufferSize, ops[..|ops| - 1]);
      match ops[|ops| - 1]
      case Push(data) => Pushed(bufferSize, m, |data|)
      case Pop(size) => Popped(bufferSize, m, size)
      case Clear => START
  }

  /** The rear mark has not left the allocation. */
  predicate Inside(bufferSize: nat, m: Marks) { m.rear <= MaxSize(bufferSize) }

  lemma {:induction false} MarksStay(bufferSize: nat, ops: seq<Op>)
    requires bufferSize < UINT32 && bufferSize <= MaxSize(bufferSize)
    ensures var m := MarksAfter(bufferSize, ops); m.rear == m.front + m.size && Inside(bufferSize, m)
  {
    if |ops| > 0 { MarksStay(bufferSize, ops[..|ops| - 1]); }
  }

  function Zeros(n: nat): (z: bytes)
    ensures |z| == n
  {
    seq(n, _ => NUL)
  }

  /** Filling the allocation, emptying it, and pushing one byte more. */
  function Leaving(bufferSize: nat): seq<Op> {
    [Push(Zeros(MaxSize(bufferSize))), Pop(MaxSize(bufferSize)), Push([NUL])]
  }

  lemma MarksLeave(bufferSize: nat)
    requires bufferSize < UINT32 && bufferSize > MaxSize(bufferSize)
    ensures MarksAfter(bufferSize, Leaving(bufferSize)) == Marks(MaxSize(bufferSize), MaxSize(bufferSize) + 1, 1)
  {
    var c, ops := MaxSize(bufferSize), Leaving(bufferSize);
    assert c > 0;
    assert EndMark(bufferSize) == c + UINT32 - bufferSize;
    assert ops[..2][..1] == ops[..1] && ops[..1][..0] == [];
    assert MarksAfter(bufferSize, ops[..1]) == Marks(0, c, c);
    assert MarksAfter(bufferSize, ops[..2]) == Marks(c, c, 0);
  }

  /** On every run the rear mark stays inside the allocation if and only if the configured
      size is not larger than the allocation computed from it. */
  lemma StaysInsideIff(bufferSize: nat)
    requires bufferSize < UINT32
    ensures (forall ops: seq<Op> :: Inside(bufferSize, MarksAfter(bufferSize, ops))) <==>
      bufferSize <= MaxSize(bufferSize)
  {
    if bufferSize <= MaxSize(bufferSize) {
      forall ops: seq<Op> ensures Inside(bufferSize, MarksAfter(bufferSize, ops)) { MarksStay(bufferSize, ops); }
    } else {
      MarksLeave(bufferSize);
      assert !Inside(bufferSize, MarksAfter(bufferSize, Leaving(bufferSize)));
    }
  }

  /** A configured size whose allocation has 7 bytes: 7 bytes in, 7 out, and the next one
      goes behind the allocation. */
  lemma WrappedSize()
    ensures MaxSize(390451573) == 7
    ensures MarksAfter(390451573, [Push(Zeros(7)), Pop(7), Push([NUL])]) == Marks(7, 8, 1)
  {
    MarksLeave(390451573);
  }

  lemma SplitRun(b: bytes, i: nat, j: nat, k: nat)
    requires i <= j <= k <= |b|
    ensures b[i..k] == b[i..j] + b[j..k]
  {
  }

  lemma DropRun(b: bytes, i: nat, j: nat, k: nat)
    requires i <= j <= k <= |b|
    ensures b[i..k][j - i..] == b[j..k]
  {
  }

  class RingBuffer {
    var buffer: array<byte>
    const bufferSize: nat
    const maxBufferSize: nat
    var dataSize: nat
    /** The marks are offsets into the buffer. */
    var frontMark: nat
    var rearMark: nat
    var endMark: nat
    /** Every byte accepted since the last Clear, and how many of them were popped. */
    ghost var pushed: bytes
    ghost var popped: nat

    function Now(): Marks
      reads this
    {
      Marks(frontMark, rearMark, dataSize)
    }

    /** The DataSize() bytes from FrontData() on. */
    ghost function Front(): bytes
      reads this, buffer
      requires frontMark + dataSize <= buffer.Length
    {
      buffer[frontMark..frontMark + dataSize]
    }

    /** While the rear mark is inside, the front holds what was pushed and not popped. */
    ghost predicate Valid()
      reads this, buffer
    {
      && bufferSize < UINT32 && buffer.Length == maxBufferSize == MaxSize(bufferSize)
      && endMark == EndMark(bufferSize)
      && (Inside(bufferSize, Now()) ==>
            rearMark == frontMark + dataSize && popped <= |pushed| && Front() == pushed[popped..])
    }

    constructor (bufferSize: nat)
      requires bufferSize < UINT32
      ensures Valid() && Now() == START && pushed == [] && popped == 0 && this.bufferSize == bufferSize && fresh(buffer)
    {
      this.bufferSize, maxBufferSize := bufferSize, MaxSize(bufferSize);
      frontMark, rearMark, dataSize, pushed, popped := 0, 0, 0, [], 0;
      buffer := new byte[MaxSize(bufferSize)](_ => NUL);
      endMark := EndMark(bufferSize);
    }

    method Clear()
      requires Valid()
      modifies this
      ensures Valid() && Now() == START && pushed == [] && popped == 0 && fresh(buffer)
    {
      buffer := new byte[maxBufferSize](_ => NUL);
      frontMark, rearMark := 0, 0;
      endMark := frontMark + (maxBufferSize + UINT32 - bufferSize) % UINT32;
      dataSize := 0;
      pushed, popped := [], 0;
    }

    method RemainBufferSize() returns (n: nat)
      requires Valid() && Inside(bufferSize, Now())
      ensures n == MaxSize(bufferSize) - (|pushed| - popped)
    {
      assert |Front()| == dataSize;
      n := maxBufferSize - dataSize;
    }

    /** The unread bytes move to the start of the allocation unchanged; the two runs may
        overlap. */
    method Rearrange()
      requires Valid() && Inside(bufferSize, Now())
      modifies this`frontMark, this`rearMark, buffer
      ensures Valid() && buffer == old(buffer) && Now() == Rearranged(old(Now())) && Inside(bufferSize, Now())
      ensures Front() == old(Front())
    {
      ghost var was := Front();
      if dataSize > 0 {
        forall i | 0 <= i < dataSize { buffer[i] := buffer[frontMark + i]; }
        assert buffer[..dataSize] == was;
      }
      frontMark := 0;
      rearMark := dataSize;
    }

    method Copy(at: nat, data: bytes)
      requires at + |data| <= buffer.Length
      modifies buffer
      ensures buffer[..at] == old(buffer[..at]) && buffer[at..at + |data|] == data
    {
      forall i | 0 <= i < |data| { buffer[at + i] := data[i]; }
    }

    /** The copy behind the rear mark. */
    method Append(data: bytes)
      requires Valid() && Inside(bufferSize, Now())
      modifies this`rearMark, this`dataSize, this`pushed, buffer
      ensures Valid() && Now() == Marks(frontMark, old(rearMark) + |data|, old(dataSize) + |data|)
      ensures pushed == old(pushed) + data
      ensures Inside(bufferSize, Now()) ==> Front() == old(Front()) + data
    {
      hide MaxSize;
      ghost var was := Front();
      assert Inside(bufferSize, Now()) ==> was == buffer[..rearMark][frontMark..];
      if rearMark + |data| <= maxBufferSize {
        Copy(rearMark, data);
        assert buffer[frontMark..rearMark] == buffer[..rearMark][frontMark..] == was;
        SplitRun(buffer[..], frontMark, rearMark, rearMark + |data|);
        assert (pushed + data)[popped..] == pushed[popped..] + data;
      }
      rearMark := rearMark + |data|;
      dataSize := dataSize + |data|;
      pushed := pushed + data;
    }

    /** Refused exactly when the content would outgrow the allocation. Bytes that would go
        behind the allocation are not written here, but the marks move as they do there. */
    method Push(data: bytes) returns (ok: bool)
      requires Valid() && Inside(bufferSize, Now())
      modifies this`frontMark, this`rearMark, this`dataSize, this`pushed, buffer
      ensures Valid() && buffer == old(buffer) && Now() == Pushed(bufferSize, old(Now()), |data|)
      ensures ok == (|data| == 0 || |old(Front())| + |data| <= MaxSize(bufferSize))
      ensures pushed == if ok then old(pushed) + data else old(pushed)
      ensures Inside(bufferSize, Now()) ==> Front() == if ok then old(Front()) + data else old(Front())
    {
      hide MaxSize;
      assert |Front()| == dataSize;
      if |data| == 0 {
        assert Front() + data == Front() && pushed + data == pushed;
        return true;
      }
      var room := RemainBufferSize();
      if |data| > room { return false; }
      if rearMark + |data| > endMark { Rearrange(); }
      Append(data);
      return true;
    }

    method Drop(size: nat)
      requires Valid() && Inside(bufferSize, Now()) && size <= dataSize
      modifies this`frontMark, this`dataSize, this`popped
      ensures Valid() && Now() == Marks(old(frontMark) + size, rearMark, old(dataSize) - size)
      ensures popped == old(popped) + size && Front() == old(Front())[size..]
    {
      hide MaxSize;
      DropRun(buffer[..], frontMark, frontMark + size, frontMark + dataSize);
      assert pushed[popped..][size..] == pushed[popped + size..];
      frontMark := frontMark + size;
      dataSize := dataSize - size;
      popped := popped + size;
    }

    /** Refused exactly when there are fewer bytes to drop. */
    method Pop(size: nat) returns (ok: bool)
      requires Valid() && Inside(bufferSize, Now())
      modifies this`frontMark, this`rearMark, this`dataSize, this`popped, buffer
      ensures Valid() && buffer == old(buffer) && Now() == Popped(bufferSize, old(Now()), size)
      ensures Inside(bufferSize, Now())
      ensures ok == (size <= |old(Front())|)
      ensures popped == if ok then old(popped) + size else old(popped)
      ensures Front() == if ok then old(Front())[size..] else old(Front())
    {
      hide MaxSize;
      assert |Front()| == dataSize;
      if size == 0 { return true; }
      if size > dataSize { return false; }
      if frontMark + size > endMark { Rearrange(); }
      Drop(size);
      return true;
    }
  }

  /** Every run of calls, up to the first that leaves the allocation: while none does, the
      front of the buffer is the bounded queue. */
  method Run(bufferSize: nat, ops: seq<Op>) returns (rb: RingBuffer, done: nat)
    requires bufferSize < UINT32
    ensures rb.Valid() && done <= |ops| && rb.bufferSize == bufferSize
    ensures rb.Now() == MarksAfter(bufferSize, ops[..done])
    ensures Inside(bufferSize, rb.Now()) ==> done == |ops| && rb.Front() == Held(ops, MaxSize(bufferSize))
    ensures bufferSize <= MaxSize(bufferSize) ==> Inside(bufferSize, rb.Now())
  {
    hide MaxSize, Pushed, Popped;
    rb := new RingBuffer(bufferSize);
    done := 0;
    while done < |ops| && rb.rearMark <= rb.maxBufferSize
      invariant done <= |ops| && rb.Valid() && rb.bufferSize == bufferSize && fresh(rb) && fresh(rb.buffer)
      invariant rb.Now() == MarksAfter(bufferSize, ops[..done])
      invariant Inside(bufferSize, rb.Now()) ==> rb.Front() == Held(ops[..done], MaxSize(bufferSize))
    {
      assert ops[..done + 1][..done] == ops[..done];
      match ops[done] {
        case Push(data) => var _ := rb.Push(data);
        case Pop(size) => var _ := rb.Pop(size);
        case Clear => rb.Clear();
      }
      done := done + 1;
    }
    if bufferSize <= MaxSize(bufferSize) { MarksStay(bufferSize, ops[..done]); }
    assert done == |ops| ==> ops[..done] == ops;
  }
}
