/** redisReader: the stateful reader, with its task stack, its buffer cursor and the
    reply objects it allocates and links. An object is an index into the store of
    allocated objects; Built and Tree say which finished reply hangs off an object. */
module RespReader {
  import opened Bytes
  import opened Decimal
  import opened RespGrammar
  import opened RespMachine
  import opened RespWindow
  import Sds

  const STACK_SIZE: nat := 9
  const DISCARD_AT: nat := 1024

  /** redisReply: a scalar, or an aggregate whose slots start out empty. */
  datatype Node = Scalar(reply: Reply) | Elements(agg: AggKind, element: seq<Option<nat>>)

  /** redisReadTask; parent is the index of the parent task. */
  datatype Task = Task(ty: Option<ItemType>, elements: int, idx: int32, obj: Option<nat>, parent: Option<nat>)

  ghost predicate Built(s: seq<Node>, id: nat)
    decreases |s| - id
  {
    id < |s| &&
    (s[id].Elements? ==>
      forall i :: 0 <= i < |s[id].element| ==>
        var c := s[id].element[i]; c.Some? && id < c.value && Built(s, c.value))
  }

  function Tree(s: seq<Node>, id: nat): Reply
    requires Built(s, id)
    decreases |s| - id
  {
    match s[id]
    case Scalar(r) => r
    case Elements(agg, e) => Aggregate(agg, seq(|e|, i requires 0 <= i < |e| => Tree(s, e[i].value)))
  }

  /** Allocating, and writing into an object that is not finished, leaves finished
      replies as they are. */
  lemma {:induction false} BuiltKept(s: seq<Node>, s': seq<Node>, q: nat, id: nat)
    requires Built(s, id) && |s| <= |s'| && !Built(s, q)
    requires forall k :: 0 <= k < |s| && k != q ==> s'[k] == s[k]
    ensures Built(s', id) && Tree(s', id) == Tree(s, id)
    decreases |s| - id
  {
    if s[id].Elements? {
      var e := s[id].element;
      forall i | 0 <= i < |e| ensures Built(s', e[i].value) && Tree(s', e[i].value) == Tree(s, e[i].value) {
        BuiltKept(s, s', q, e[i].value);
      }
      assert Tree(s, id).elements == Tree(s', id).elements;
    }
  }

  /** Object id is the open aggregate f: the slots already read hold the finished
      children, the next slot holds tip, and the later slots are still empty. */
  ghost predicate SlotsOk(s: seq<Node>, id: nat, f: Frame, tip: Option<nat>) {
    && id < |s| && s[id].Elements? && s[id].agg == f.agg
    && var e := s[id].element;
    && |e| == f.total && |f.done| < f.total
    && (forall i :: 0 <= i < |f.done| ==>
          e[i].Some? && id < e[i].value && Built(s, e[i].value) && Tree(s, e[i].value) == f.done[i])
    && e[|f.done|] == tip && (tip.Some? ==> id < tip.value < |s|)
    && forall i :: |f.done| < i < f.total ==> e[i] == None
  }

  /** Open aggregate k; tip is what the innermost one holds in its current slot. */
  ghost predicate FrameAt(s: seq<Node>, task: seq<Task>, frames: seq<Frame>, k: nat, tip: Option<nat>)
    requires k < |frames| && k + 1 < |task|
  {
    && task[k].ty == Some(Counted(frames[k].agg)) && task[k].elements == frames[k].total
    && task[k].obj.Some?
    && SlotsOk(s, task[k].obj.value, frames[k], if k + 1 < |frames| then task[k + 1].obj else tip)
    && task[k + 1].idx == |frames[k].done| && task[k + 1].parent == Some(k)
  }

  /** The open aggregates form a chain of objects, each in the current slot of the
      one below, and every task's parent is the task below it. */
  ghost predicate Linked(s: seq<Node>, task: seq<Task>, frames: seq<Frame>, tip: Option<nat>) {
    && |frames| < |task| && task[0].parent == None
    && forall k :: 0 <= k < |frames| ==> FrameAt(s, task, frames, k, tip)
  }

  function LineFuture(dbl: bytes -> bool, stack: seq<Frame>, it: Item): Outcome {
    match it
    case Refused(f) => Outcome([], Dead(f))
    case Leaf(r, rest) => AfterFound(dbl, stack, Got(r, rest))
    case _ => Outcome([], Dead(NilInPush)) // a line is never incomplete nor opens an aggregate
  }

  lemma LineCases(dbl: bytes -> bool, m: Machine, x: bytes, i: nat)
    requires m.ty.Some? && !m.ty.value.Bulk? && !m.ty.value.Counted? && Found(x) == Some(i)
    ensures RunFound(dbl, m, x)
      == LineFuture(dbl, m.stack, LineItem(dbl, m.ty.value, x[..i], x[0], x[i + 2..], InPush(m.stack)))
  {
    RunItemFound(dbl, m, x);
    hide RunFound, AfterFound, ReadLL;
  }

  function BulkFuture(dbl: bytes -> bool, stack: seq<Frame>, verb: bool, after: bytes, len: nat): Outcome
    requires |after| >= len + 2
  {
    if !verb then AfterFound(dbl, stack, Got(Text(String, after[..len]), after[len + 2..]))
    else if len < 4 || after[3] != Bytes.COLON then Outcome([], Dead(BadVerbatim))
    else AfterFound(dbl, stack, Got(Verb(after[..3], after[4..len]), after[len + 2..]))
  }

  /** What is still to be reported, by the length in a bulk header. */
  lemma BulkCases(dbl: bytes -> bool, m: Machine, x: bytes, verb: bool, i: nat)
    requires m.ty == Some(Bulk(verb)) && Found(x) == Some(i)
    ensures var n := ReadLL(x[..i]);
      var future := RunFound(dbl, m, x);
      var after := x[i + 2..];
      && (n.None? ==> future == Outcome([], Dead(BadBulkLength)))
      && (n.Some? && n.value < -1 ==> future == Outcome([], Dead(BulkLengthOutOfRange)))
      && (n == Some(-1) && InPush(m.stack) ==> future == Outcome([], Dead(NilInPush)))
      && (n == Some(-1) && !InPush(m.stack) ==> future == AfterFound(dbl, m.stack, Got(Nil, after)))
      && (n.Some? && n.value >= 0 && |after| < n.value + 2 ==> StepFound(dbl, m, x).Blocked?)
      && (n.Some? && n.value >= 0 && |after| >= n.value + 2 ==>
        future == BulkFuture(dbl, m.stack, verb, after, n.value))
  {
    RunItemFound(dbl, m, x);
    hide RunFound, AfterFound, ReadLL;
  }

  /** What is still to be reported, by the count in an aggregate's header. */
  lemma CountedCases(dbl: bytes -> bool, m: Machine, x: bytes, agg: AggKind, i: nat)
    requires m.ty == Some(Counted(agg)) && Found(x) == Some(i)
    ensures var n := ReadLL(x[..i]);
      var future := RunFound(dbl, m, x);
      var slots := if agg.Map? then 2 else 1;
      && (n.None? ==> future == Outcome([], Dead(BadMultiBulkLength)))
      && (n.Some? && (n.value < -1 || n.value > MAX_ELEMENTS) ==>
        future == Outcome([], Dead(MultiBulkLengthOutOfRange)))
      && (n == Some(-1) && InPush(m.stack) ==> future == Outcome([], Dead(NilInPush)))
      && (n == Some(-1) && !InPush(m.stack) ==> future == AfterFound(dbl, m.stack, Got(Nil, x[i + 2..])))
      && (n == Some(0) ==> future == AfterFound(dbl, m.stack, Got(Aggregate(agg, []), x[i + 2..])))
      && (n.Some? && 0 < n.value <= MAX_ELEMENTS ==>
            future == RunFound(dbl, Machine(m.stack + [Frame(agg, slots * n.value, [])], None), x[i + 2..]))
  {
    RunItemFound(dbl, m, x);
    hide RunFound, AfterFound, ReadLL;
  }

  lemma StuckOnNothing(dbl: bytes -> bool, m: Machine, x: bytes)
    requires x == []
    ensures RunFound(dbl, m, x) == Outcome([], Waiting(m, x))
  {
  }

  lemma Overlooked(dbl: bytes -> bool, m: Machine, x: bytes)
    requires m.ty.Some? && Found(x) == None
    ensures StepFound(dbl, m, x).Blocked?
  {
  }

  lemma BlockedRun(dbl: bytes -> bool, m: Machine, x: bytes)
    requires StepFound(dbl, m, x).Blocked?
    ensures RunFound(dbl, m, x) == Outcome([], Waiting(m, x))
  {
  }

  function Prepend(rs: seq<Reply>, o: Outcome): Outcome { Outcome(rs + o.replies, o.end) }

  lemma PrependThen(rs: seq<Reply>, r: Reply, o: Outcome)
    ensures Prepend(rs, Then(r, o)) == Prepend(rs + [r], o)
  {
    assert rs + ([r] + o.replies) == rs + [r] + o.replies;
  }

  /** More tasks above the active ones change nothing. */
  lemma GrownLinked(s: seq<Node>, task: seq<Task>, task': seq<Task>, frames: seq<Frame>)
    requires Linked(s, task, frames, None) && |task| <= |task'| && task'[..|task|] == task
    ensures Linked(s, task', frames, None)
  {
    forall k | 0 <= k < |frames| ensures FrameAt(s, task', frames, k, None) {
      assert FrameAt(s, task, frames, k, None);
      assert task'[k] == task[k] && task'[k + 1] == task[k + 1];
    }
  }

  lemma TypedLinked(s: seq<Node>, task: seq<Task>, frames: seq<Frame>, ty: ItemType)
    requires Linked(s, task, frames, None)
    ensures Linked(s, task[|frames| := task[|frames|].(ty := Some(ty))], frames, None)
  {
    var task' := task[|frames| := task[|frames|].(ty := Some(ty))];
    forall k | 0 <= k < |frames| ensures FrameAt(s, task', frames, k, None) {
      assert FrameAt(s, task, frames, k, None);
    }
  }

  lemma OpenLinked(s: seq<Node>, task: seq<Task>, task': seq<Task>, frames: seq<Frame>, id: nat, f: Frame)
    requires Linked(s, task, frames, Some(id)) && |frames| + 1 < |task| == |task'|
    requires f.done == [] && f.total > 0
    requires id < |s| && s[id] == Elements(f.agg, seq(f.total, _ => None))
    requires task[|frames|].ty == Some(Counted(f.agg))
    requires task' == task[|frames| := task[|frames|].(elements := f.total, obj := Some(id))]
                          [|frames| + 1 := Task(None, -1, 0, None, Some(|frames|))]
    ensures Linked(s, task', frames + [f], None)
  {
    var frames' := frames + [f];
    forall k | 0 <= k < |frames'| ensures FrameAt(s, task', frames', k, None) {
      if k < |frames| { assert FrameAt(s, task, frames, k, Some(id)); }
    }
  }

  /** Open objects are allocated from the outside in. */
  lemma {:induction false} Nested(s: seq<Node>, task: seq<Task>, frames: seq<Frame>, tip: Option<nat>, k: nat)
    requires Linked(s, task, frames, tip) && k + 1 < |frames|
    ensures task[k].obj.Some? && task[|frames| - 1].obj.Some?
    ensures task[k].obj.value < task[|frames| - 1].obj.value
    decreases |frames| - k
  {
    assert FrameAt(s, task, frames, k, tip);
    assert FrameAt(s, task, frames, k + 1, tip);
    if k + 2 < |frames| { Nested(s, task, frames, tip, k + 1); }
  }

  /** What an allocation that is stored into the innermost open slot keeps. */
  lemma LinkKept(s: seq<Node>, s': seq<Node>, task: seq<Task>, frames: seq<Frame>)
    requires Linked(s, task, frames, None) && |s'| == |s| + 1
    requires |frames| == 0 ==> s'[..|s|] == s
    requires |frames| > 0 ==>
      && FrameAt(s, task, frames, |frames| - 1, None)
      && var q := task[|frames| - 1].obj.value;
      var f := frames[|frames| - 1];
      && (forall k :: 0 <= k < |s| && k != q ==> s'[k] == s[k])
      && s'[q] == Elements(f.agg, s[q].element[|f.done| := Some(|s|)])
    ensures Linked(s', task, frames, Some(|s|))
  {
    var n := |frames|;
    forall k | 0 <= k < n
      ensures FrameAt(s', task, frames, k, Some(|s|))
    {
      assert FrameAt(s, task, frames, n - 1, None);
      var q := task[n - 1].obj.value;
      assert FrameAt(s, task, frames, k, None);
      var id := task[k].obj.value;
      if k + 1 < n { Nested(s, task, frames, None, k); }
      var e := s[id].element;
      forall i | 0 <= i < |frames[k].done|
        ensures Built(s', e[i].value) && Tree(s', e[i].value) == frames[k].done[i]
      {
        BuiltKept(s, s', q, e[i].value);
      }
    }
  }

  /** The innermost aggregate is finished: it is the tip of the rest of the chain. */
  lemma PopLinked(s: seq<Node>, task: seq<Task>, frames: seq<Frame>, tip: nat)
    requires Linked(s, task, frames, Some(tip)) && |frames| > 0
    ensures Linked(s, task, frames[..|frames| - 1], task[|frames| - 1].obj)
  {
    var n := |frames|;
    var rest, slot := frames[..n - 1], task[n - 1].obj;
    forall k | 0 <= k < n - 1
      ensures FrameAt(s, task, rest, k, slot)
    {
      assert FrameAt(s, task, frames, k, Some(tip));
    }
  }

  /** The innermost aggregate has slots left: its task moves on by one. */
  lemma AdvanceLinked(s: seq<Node>, task: seq<Task>, frames: seq<Frame>, tip: nat, next: Frame)
    requires Linked(s, task, frames, Some(tip)) && |frames| > 0 && Built(s, tip) && task[|frames|].idx < INT_MAX
    requires var f := frames[|frames| - 1];
      |f.done| + 1 < f.total && next == Frame(f.agg, f.total, f.done + [Tree(s, tip)])
    ensures var n := |frames|; var cur := task[n];
      Linked(s, task[n := cur.(ty := None, elements := -1, idx := cur.idx + 1)], frames[n - 1 := next], None)
  {
    var n := |frames|;
    var cur := task[n];
    var task' := task[n := cur.(ty := None, elements := -1, idx := cur.idx + 1)];
    var frames' := frames[n - 1 := next];
    forall k | 0 <= k < n
      ensures FrameAt(s, task', frames', k, None)
    {
      assert FrameAt(s, task, frames, k, Some(tip));
    }
  }

  /** Filling the last slot finishes the aggregate. */
  lemma Closes(s: seq<Node>, id: nat, f: Frame, tip: nat)
    requires SlotsOk(s, id, f, Some(tip)) && Built(s, tip) && |f.done| + 1 == f.total
    ensures Built(s, id) && Tree(s, id) == Aggregate(f.agg, f.done + [Tree(s, tip)])
  {
    var e := s[id].element;
    assert Tree(s, id).elements == f.done + [Tree(s, tip)];
  }

  class Reader {
    /** Whether the C library converts this text to a double that is not NaN. */
    const dbl: bytes -> bool
    var err: Option<Fault>
    var buf: bytes
    var pos: nat
    var task: seq<Task>
    var ridx: int
    var reply: Option<nat>
    var store: seq<Node>
    ghost var frames: seq<Frame>

    ghost predicate Shape()
      reads this
    {
      && pos <= |buf| && STACK_SIZE <= |task| && -1 <= ridx < |task|
      && (err.Some? ==> buf == [] && ridx == -1 && reply == None)
      && |frames| == if ridx < 0 then 0 else ridx
    }

    ghost predicate Valid()
      reads this
    {
      && Shape()
      && Linked(store, task, frames, None)
      && (ridx < 0 && reply.Some? ==> Built(store, reply.value))
      && (ridx == 0 ==> reply == None)
      && (ridx > 0 ==> reply == task[0].obj)
    }

    /** The bytes fed and not yet consumed. */
    ghost function Rest(): bytes
      reads this
      requires Shape()
    {
      buf[pos..]
    }

    /** The position in the protocol. */
    ghost function State(): Machine
      reads this
      requires Shape()
    {
      Machine(frames, if ridx < 0 then None else task[ridx].ty)
    }

    /** How the reader came to rest. */
    ghost function End(): End
      reads this
      requires Shape()
    {
      if err.Some? then Dead(err.value) else Waiting(State(), Rest())
    }

    /** Everything this reader will still report from the bytes it holds. */
    ghost function Future(): Outcome
      reads this
      requires Valid()
    {
      if err.Some? then Outcome([], Dead(err.value))
      else if ridx < 0 && reply.Some? then Then(Tree(store, reply.value), RunFound(dbl, FRESH, Rest()))
      else RunFound(dbl, State(), Rest())
    }

    /** How an item was processed: what is still to be reported is unchanged; either
        bytes were consumed, or there is a fault, or the item is not complete yet. */
    ghost predicate Processed(ok: bool, future: Outcome, unread: nat)
      reads this
    {
      && Valid() && Future() == future
      && (ok ==> err == None && |Rest()| < unread && (ridx == -1 ==> reply.Some?))
      && (!ok && err == None ==> ridx >= 0 && StepFound(dbl, State(), Rest()).Blocked?)
    }

    constructor (dbl: bytes -> bool)
      ensures Valid() && err == None && ridx == -1 && reply == None
      ensures this.dbl == dbl && State() == FRESH && Rest() == []
      ensures Future() == Outcome([], Waiting(FRESH, []))
    {
      this.dbl := dbl;
      err, buf, pos := None, [], 0;
      task := seq(STACK_SIZE, _ => Task(None, 0, 0, None, None));
      ridx, reply, store, frames := -1, None, [], [];
    }

    /** __redisReaderSetError: sticky, and drops the buffer and the stack. */
    method SetError(f: Fault)
      requires |task| >= STACK_SIZE
      modifies this
      ensures err == Some(f) && forall n: nat :: Processed(false, Outcome([], Dead(f)), n)
    {
      reply := None;
      buf, pos := [], 0;
      ridx := -1;
      frames := [];
      task := task[0 := task[0].(parent := None)];
      err := Some(f);
    }

    /** redisReaderFeed */
    method Feed(data: bytes) returns (ok: bool)
      requires Valid()
      modifies this`buf
      ensures Valid() && ok == err.None?
      ensures ok ==> Rest() == old(Rest()) + data && State() == old(State())
      ensures !ok ==> Future() == old(Future())
    {
      if err.Some? { return false; }
      if |data| >= 1 { buf := buf + data; }
      return true;
    }

    static lemma NewlineUnique(s: bytes, p: nat)
      requires p <= |s| && forall j :: 0 <= j < p ==> !NewlineAt(s, j)
      ensures NewlineAt(s, p) ==> Newline(s) == Some(p)
      ensures p >= |s| - 1 ==> Newline(s) == None
    {
    }

    /** seekNewline over the unread bytes, with its ints */
    method SeekNewline(s: bytes) returns (r: Option<nat>)
      ensures r == Found(s)
    {
      WindowFits(s);
      hide Newline, Window;
      var p, last: int32 := 0, Window(s);
      ghost var seen := if last > 0 then s[..last + 1] else [];
      while p < last
        invariant 0 <= p && (p <= last || (p == 0 && last <= 0))
        invariant forall j :: 0 <= j < p ==> !NewlineAt(seen, j)
        decreases last - p
      {
        while p < last && s[p] != CR
          invariant 0 <= p <= last
          invariant forall j :: 0 <= j < p ==> !NewlineAt(seen, j)
        {
          p := p + 1;
        }
        if p == last { NewlineUnique(seen, p); return None; }
        if s[p + 1] == LF {
          NewlineUnique(seen, p);
          return Some(p);
        }
        p := p + 1;
      }
      if last > 0 { NewlineUnique(seen, p); }
      return None;
    }

    /** The create...Object functions: allocate, and store into the parent's slot. */
    method Create(node: Node) returns (id: nat)
      requires Valid() && ridx >= 0
      requires node.Elements? ==> forall i :: 0 <= i < |node.element| ==> node.element[i] == None
      modifies this`store
      ensures id == |old(store)| && |store| == id + 1 && store[id] == node
      ensures Linked(store, task, frames, Some(id))
    {
      ghost var before := store;
      if ridx > 0 { assert FrameAt(before, task, frames, ridx - 1, None); }
      store := store + [node];
      id := |store| - 1;
      if task[ridx].parent.Some? {
        var p := task[task[ridx].parent.value].obj.value;
        store := store[p := Elements(store[p].agg, store[p].element[task[ridx].idx := Some(id)])];
      }
      LinkKept(before, store, task, frames);
    }

    /** moveToNextTask: closes every aggregate that object id completes, and points
        the task that is left at its next slot, if that has a number. */
    method MoveToNextTask(ghost id: nat) returns (ok: bool)
      requires Shape() && ridx >= 0 && err == None
      requires Linked(store, task, frames, Some(id)) && Built(store, id)
      modifies this`task, this`ridx, this`frames
      ensures |task| == old(|task|) && (ok ==> Shape() && Linked(store, task, frames, None))
      ensures ok == !Complete(old(frames), Tree(store, id)).Overflow?
      ensures match Complete(old(frames), Tree(store, id))
        case Root(r) =>
          && ridx == -1
          && (old(ridx) == 0 ==> r == Tree(store, id))
          && (old(ridx) > 0 ==>
              var root := old(task[0].obj); root.Some? && Built(store, root.value) && r == Tree(store, root.value))
        case Within(stack) => ridx >= 1 && frames == stack && task[ridx].ty == None && task[0].obj == old(task[0].obj)
        case Overflow => true
    {
      ghost var tip := id;
      ghost var goal := Complete(frames, Tree(store, id));
      while ridx >= 0
        invariant Shape() && ridx >= 0 && err == None && task == old(task)
        invariant Linked(store, task, frames, Some(tip)) && Built(store, tip)
        invariant Complete(frames, Tree(store, tip)) == goal
        invariant old(ridx) == 0 ==> tip == id
        invariant ridx == 0 && old(ridx) > 0 ==> Some(tip) == old(task[0].obj)
        decreases ridx
      {
        if ridx == 0 {
          ridx := ridx - 1;
          return true;
        }
        ghost var top := ridx - 1;
        assert FrameAt(store, task, frames, top, Some(tip));
        assert FrameAt(store, task, frames, 0, Some(tip));
        var cur := task[ridx];
        var prv := task[ridx - 1];
        assert prv.ty.Some? && prv.ty.value.Counted?;
        if cur.idx == prv.elements - 1 {
          Closes(store, prv.obj.value, frames[top], tip);
          PopLinked(store, task, frames, tip);
          ridx := ridx - 1;
          tip := prv.obj.value;
          frames := frames[..top];
        } else {
          assert cur.idx < prv.elements;
          if cur.idx == INT_MAX { return false; }
          ghost var next := Frame(frames[top].agg, frames[top].total, frames[top].done + [Tree(store, tip)]);
          AdvanceLinked(store, task, frames, tip, next);
          assert frames[top := next] == frames[..top] + [next];
          // the next item can be anything
          task := task[ridx := cur.(ty := None, elements := -1, idx := cur.idx + 1)];
          frames := frames[top := next];
          return true;
        }
      }
    }

    /** The assertions in createNilObject, createBoolObject and createDoubleObject:
        the parent must not be a push. */
    method ParentIsPush() returns (r: bool)
      requires Valid() && ridx >= 0
      ensures r == InPush(frames)
    {
      if ridx > 0 { assert FrameAt(store, task, frames, ridx - 1, None); }
      match task[ridx].parent
      case None => return false;
      case Some(p) => return store[task[p].obj.value].agg.Push?;
    }

    /** The tail every item shares: create the object, move the cursor, remember the
        object when it is the root, go on to the next task. */
    method Deliver(node: Node, next: nat) returns (ok: bool)
      requires Valid() && ridx >= 0 && err == None && pos < next <= |buf|
      requires node.Elements? ==> node.element == []
      modifies this
      ensures var r := if node.Scalar? then node.reply else Aggregate(node.agg, []);
        Processed(ok, AfterFound(dbl, old(frames), Got(r, old(buf[next..]))), old(|Rest()|))
    {
      hide RunFound;
      var id := Create(node);
      assert Built(store, id);
      assert node.Elements? ==> Tree(store, id).elements == [];
      if ridx > 0 { assert FrameAt(store, task, frames, 0, Some(id)); }
      pos := next;
      if ridx == 0 { reply := Some(id); }
      ok := MoveToNextTask(id);
      if !ok { SetError(IndexOverflow); }
    }

    /** The line has been read; the type says what to make of it. */
    method FinishLine(ty: ItemType, line: bytes, first: byte, next: nat) returns (ok: bool)
      requires Valid() && err == None && ridx >= 0 && pos < next <= |buf|
      requires !ty.Bulk? && !ty.Counted?
      modifies this
      ensures Processed(ok, LineFuture(dbl, old(frames),
          LineItem(dbl, ty, line, first, old(buf[next..]), InPush(old(frames)))), old(|Rest()|))
    {
      hide RunFound, ReadLL, AfterFound, Linked, Built, Tree, Processed;
      var inPush := ParentIsPush();
      match ty {
      case LineInteger =>
        var v := String2ll(line);
        if v == None { SetError(BadInteger); return false; }
        ok := Deliver(Scalar(Integer(v.value)), next);
      case LineDouble =>
        if |line| >= DOUBLE_BUFFER { SetError(DoubleTooLong); return false; }
        if !dbl(line) { SetError(BadDouble); return false; }
        if inPush { SetError(NilInPush); return false; }
        ok := Deliver(Scalar(Double(line)), next);
      case LineNil =>
        if inPush { SetError(NilInPush); return false; }
        ok := Deliver(Scalar(Nil), next);
      case LineBool =>
        if inPush { SetError(NilInPush); return false; }
        ok := Deliver(Scalar(Bool(first == 116 || first == 84)), next);
      case LineText(kind) =>
        ok := Deliver(Scalar(Text(kind, line)), next);
      }
    }

    /** processLineItem */
    method ProcessLineItem() returns (ok: bool)
      requires Valid() && err == None && ridx >= 0
      requires task[ridx].ty.Some? && !task[ridx].ty.value.Bulk? && !task[ridx].ty.value.Counted?
      modifies this
      ensures Processed(ok, old(Future()), old(|Rest()|))
    {
      hide RunFound, StepFound, ReadItem, LineItem, ReadLL, Found, Complete, AfterFound, Linked, Built, Tree;
      ghost var m, x := State(), Rest();
      var newline := SeekNewline(buf[pos..]);
      if newline == None { Overlooked(dbl, m, x); return false; }
      var line, first := buf[pos..pos + newline.value], buf[pos];
      var next := pos + newline.value + 2;
      var ty := task[ridx].ty.value;
      assert buf[next..] == x[newline.value + 2..] && line == x[..newline.value] && first == x[0];
      LineCases(dbl, m, x, newline.value);
      ok := FinishLine(ty, line, first, next);
    }

    /** The bulk's bytes are all in the buffer. */
    method FinishBulk(verb: bool, body: nat, len: nat) returns (ok: bool)
      requires Valid() && err == None && ridx >= 0 && pos < body && body + len + 2 <= |buf|
      modifies this
      ensures Processed(ok, BulkFuture(dbl, old(frames), verb, old(buf[body..]), len), old(|Rest()|))
    {
      hide RunFound, AfterFound, Linked, Built, Tree, Processed;
      ghost var after := buf[body..];
      var end, next := body + len, body + len + 2;
      assert buf[body..end] == after[..len] && buf[next..] == after[len + 2..];
      if verb {
        if len < 4 || buf[body + 3] != Bytes.COLON { SetError(BadVerbatim); return false; }
        assert buf[body..body + 3] == after[..3] && buf[body + 4..end] == after[4..len];
        ok := Deliver(Scalar(Verb(buf[body..body + 3], buf[body + 4..end])), next);
      } else {
        ok := Deliver(Scalar(Text(String, buf[body..end])), next);
      }
    }

    /** processBulkItem */
    method ProcessBulkItem() returns (ok: bool)
      requires Valid() && err == None && ridx >= 0
      requires task[ridx].ty.Some? && task[ridx].ty.value.Bulk?
      modifies this
      ensures Processed(ok, old(Future()), old(|Rest()|))
    {
      hide RunFound, StepFound, ReadItem, LineItem, ReadLL, Found, Complete, AfterFound, Linked, Built, Tree;
      ghost var m, x := State(), Rest();
      var newline := SeekNewline(buf[pos..]);
      if newline == None { Overlooked(dbl, m, x); return false; }
      var header, body := buf[pos..pos + newline.value], pos + newline.value + 2;
      var verb := task[ridx].ty.value.verb;
      ghost var after := x[newline.value + 2..];
      assert buf[body..] == after && header == x[..newline.value];
      BulkCases(dbl, m, x, verb, newline.value);
      var len := String2ll(header);
      if len == None { SetError(BadBulkLength); return false; }
      if len.value < -1 { SetError(BulkLengthOutOfRange); return false; }
      if len.value == -1 {
        var inPush := ParentIsPush();
        if inPush { SetError(NilInPush); return false; }
        ok := Deliver(Scalar(Nil), body);
        return;
      }
      // only continue when the buffer holds the entire item
      var next := body + len.value + 2;
      if next > |buf| { return false; }
      ok := FinishBulk(verb, body, len.value);
    }

    /** redisReaderGrow: nine more tasks */
    method Grow()
      requires Valid() && err == None
      modifies this`task
      ensures Valid() && |task| == old(|task|) + STACK_SIZE && task[..old(|task|)] == old(task)
      ensures State() == old(State()) && Future() == old(Future())
    {
      task := task + seq(STACK_SIZE, _ => Task(None, 0, 0, None, None));
      GrownLinked(store, old(task), task, frames);
    }

    /** The push of processAggregateItem: a task for the elements of a new aggregate. */
    method OpenAggregate(agg: AggKind, elements: nat, next: nat)
      requires Valid() && err == None && 0 <= ridx < |task| - 1 && pos < next <= |buf|
      requires task[ridx].ty == Some(Counted(agg)) && elements > 0
      modifies this`store, this`pos, this`reply, this`task, this`ridx, this`frames
      ensures buf == old(buf) && err == None
      ensures Processed(true, RunFound(dbl, Machine(old(frames) + [Frame(agg, elements, [])], None), buf[next..]),
          old(|Rest()|))
    {
      hide RunFound;
      var id := Create(Elements(agg, seq(elements, _ => None)));
      ghost var linked := task;
      var root := ridx == 0;
      if !root { assert FrameAt(store, task, frames, 0, Some(id)); }
      pos := next;
      task := task[ridx := task[ridx].(elements := elements, obj := Some(id))];
      task := task[ridx + 1 := Task(None, -1, 0, None, Some(ridx))];
      ridx := ridx + 1;
      OpenLinked(store, linked, task, frames, id, Frame(agg, elements, []));
      frames := frames + [Frame(agg, elements, [])];
      if root { reply := Some(id); }
    }

    method ReadCount() returns (ok: bool)
      requires Valid() && err == None && 0 <= ridx < |task| - 1
      requires task[ridx].ty.Some? && task[ridx].ty.value.Counted?
      modifies this
      ensures Processed(ok, old(Future()), old(|Rest()|))
    {
      hide RunFound, StepFound, ReadItem, LineItem, ReadLL, Found, Complete, AfterFound, Linked, Built, Tree;
      ghost var m, x := State(), Rest();
      var newline := SeekNewline(buf[pos..]);
      if newline == None { Overlooked(dbl, m, x); return false; }
      var header, next := buf[pos..pos + newline.value], pos + newline.value + 2;
      var agg := task[ridx].ty.value.agg;
      ghost var after := x[newline.value + 2..];
      assert buf[next..] == after && header == x[..newline.value];
      CountedCases(dbl, m, x, agg, newline.value);
      var n := String2ll(header);
      if n == None { SetError(BadMultiBulkLength); return false; }
      if n.value < -1 || n.value > MAX_ELEMENTS { SetError(MultiBulkLengthOutOfRange); return false; }
      if n.value == -1 {
        var inPush := ParentIsPush();
        if inPush { SetError(NilInPush); return false; }
        ok := Deliver(Scalar(Nil), next);
        return;
      }
      var elements := if agg.Map? then n.value * 2 else n.value;
      if elements == 0 {
        ok := Deliver(Elements(agg, []), next);
        return;
      }
      OpenAggregate(agg, elements, next);
      return true;
    }

    /** processAggregateItem */
    method ProcessAggregateItem() returns (ok: bool)
      requires Valid() && err == None && ridx >= 0
      requires task[ridx].ty.Some? && task[ridx].ty.value.Counted?
      modifies this
      ensures Processed(ok, old(Future()), old(|Rest()|))
    {
      if ridx == |task| - 1 { Grow(); }
      ok := ReadCount();
    }

    /** The type byte of the item in hand. */
    method TakeType() returns (ok: bool)
      requires Valid() && err == None && ridx >= 0 && task[ridx].ty == None
      modifies this
      ensures ok ==> Valid() && Future() == old(Future()) && err == None && ridx >= 0 && task[ridx].ty.Some?
      ensures ok ==> |Rest()| < old(|Rest()|)
      ensures !ok ==> Processed(false, old(Future()), old(|Rest()|))
    {
      if |buf| - pos < 1 { return false; }
      var ty := TypeOf(buf[pos]);
      ghost var x := Rest();
      assert x[0] == buf[pos] && x[1..] == buf[pos + 1..];
      if ty == None {
        SetError(UnknownTypeByte(buf[pos]));
        return false;
      }
      pos := pos + 1;
      TypedLinked(store, task, frames, ty.value);
      task := task[ridx := task[ridx].(ty := ty)];
      return true;
    }

    /** processItem: the type byte if it is still needed, then the item itself. */
    method ProcessItem() returns (ok: bool)
      requires Valid() && err == None && ridx >= 0
      modifies this
      ensures Processed(ok, old(Future()), old(|Rest()|))
    {
      hide RunFound, Linked, Built, Tree, ReadItem, Complete;
      if task[ridx].ty == None {
        ok := TakeType();
        if !ok { return; }
      }
      match task[ridx].ty.value
      case Bulk(_) => ok := ProcessBulkItem();
      case Counted(_) => ok := ProcessAggregateItem();
      case _ => ok := ProcessLineItem();
    }

    /** The root task of a new reply. */
    method Begin()
      requires Valid() && err == None && ridx == -1 && reply == None
      modifies this`task, this`ridx
      ensures Valid() && ridx == 0 && Future() == old(Future())
    {
      task := task[0 := Task(None, -1, -1, None, None)];
      ridx := 0;
    }

    /** Drops the consumed bytes once they are at least 1k. */
    method Discard()
      requires Valid() && err == None
      modifies this`buf, this`pos
      ensures Valid() && Future() == old(Future()) && State() == old(State()) && Rest() == old(Rest())
      ensures if old(pos) >= 1024 then pos == 0 else pos == old(pos) && buf == old(buf)
    {
      ghost var x := Rest();
      if pos >= DISCARD_AT {
        buf := Sds.SubRange(buf, pos, -1);
        pos := 0;
      }
      assert Rest() == x;
    }

    /** Hands over the finished reply, if there is one. */
    method Emit() returns (r: Option<Reply>)
      requires Valid() && err == None && (ridx == -1 ==> reply.Some?)
      modifies this`reply
      ensures Valid() && (ridx == -1 ==> reply == None) && Rest() == old(Rest()) && State() == old(State())
      ensures r.Some? <==> ridx == -1
      ensures old(Future()) == if r.Some? then Then(r.value, Future()) else Future()
    {
      hide RunFound, Linked;
      r := None;
      if ridx == -1 {
        r := Some(Tree(store, reply.value));
        reply := None;
      }
    }

    /** redisReaderGetReply: the next reply, None when more input is needed. */
    method GetReply() returns (ok: bool, r: Option<Reply>)
      requires Valid() && (ridx == -1 ==> reply == None)
      modifies this
      ensures Valid() && (ridx == -1 ==> reply == None)
      ensures ok == err.None?
      ensures r.Some? ==> ok && old(Future()) == Then(r.value, Future()) && |Rest()| < old(|Rest()|)
      ensures r.None? ==> Future() == old(Future())
      ensures r.None? && ok ==> Future() == Outcome([], Waiting(State(), Rest()))
    {
      if err.Some? { return false, None; }
      if |buf| == 0 {
        StuckOnNothing(dbl, State(), Rest());
        return true, None;
      }
      if ridx == -1 { Begin(); }
      hide Linked, Built, Tree, RunFound, Complete, ReadItem;
      ok := true;
      while ridx >= 0 && ok
        invariant Valid() && Future() == old(Future())
        invariant ok ==> err == None && (ridx == -1 ==> reply.Some?)
        invariant ok ==> |Rest()| < old(|Rest()|) || (|Rest()| == old(|Rest()|) && ridx >= 0)
        invariant !ok && err == None ==> ridx >= 0 && StepFound(dbl, State(), Rest()).Blocked?
        decreases ok, |Rest()|
      {
        ok := ProcessItem();
      }
      if err.Some? { return false, None; }
      Discard();
      r := Emit();
      if r.None? { BlockedRun(dbl, State(), Rest()); }
      return true, r;
    }

    /** The loop callers run: take every reply the bytes in hand give. */
    method Drain() returns (replies: seq<Reply>)
      requires Valid() && (ridx == -1 ==> reply == None)
      modifies this
      ensures Valid() && (ridx == -1 ==> reply == None)
      ensures err == None ==> old(Future()) == Outcome(replies, Waiting(State(), Rest()))
      ensures err.Some? ==> old(Future()) == Outcome(replies, Dead(err.value))
    {
      hide RunFound;
      replies := [];
      var ok, r := GetReply();
      while r.Some?
        invariant Valid() && (ridx == -1 ==> reply == None) && ok == err.None?
        invariant old(Future()) == Prepend(replies + (if r.Some? then [r.value] else []), Future())
        invariant r.None? && ok ==> Future() == Outcome([], Waiting(State(), Rest()))
        decreases r.Some?, |Rest()|
      {
        replies := replies + [r.value];
        ok, r := GetReply();
        if r.Some? { PrependThen(replies, r.value, Future()); }
      }
      assert replies + [] == replies;
    }

    /** Feeding a stream piece by piece and draining after each piece gives what the machine
        finds; that are the replies and the final error or waiting state of the stream alone,
        if and only if the reader has not stopped before a line end that it does not see. It
        never does where no piece moves a line end out of the window. */
    method ReadPieces(pieces: seq<bytes>) returns (replies: seq<Reply>)
      requires Valid() && err == None && ridx == -1 && reply == None && Rest() == []
      modifies this
      ensures Valid()
      ensures Outcome(replies, End()) == PiecesFound(dbl, pieces)
      ensures Outcome(replies, End()) == Run(dbl, FRESH, Flatten(pieces)) <==>
        err.Some? || StepOn(dbl, State(), Rest()).Blocked?
      ensures PiecesSeen(dbl, pieces) ==> Outcome(replies, End()) == Run(dbl, FRESH, Flatten(pieces))
    {
      hide RunFound, Linked, Built, Tree, Run, StepOn, PiecesSeen, NeverBehind;
      replies := [];
      assert pieces[..0] == [];
      for i := 0 to |pieces|
        invariant Valid() && (ridx == -1 ==> reply == None)
        invariant Outcome(replies, End()) == PiecesFound(dbl, pieces[..i])
      {
        assert pieces[..i + 1][..i] == pieces[..i];
        var ok := Feed(pieces[i]);
        if ok {
          var more := Drain();
          replies := replies + more;
        }
      }
      assert pieces[..|pieces|] == pieces;
      PiecesFoundIff(dbl, pieces);
      NeverBehindIff(dbl, pieces);
      if PiecesSeen(dbl, pieces) { CaughtUp(dbl, pieces); }
    }
  }
}
