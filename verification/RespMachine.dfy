/** The resumable reader as a pure machine: a stack of open aggregates and the type
    of the item in hand. It moves one indivisible step at a time and never needs
    to see a byte twice, so how the input is cut does not matter; and on a fresh
    stack it computes what the recursive grammar computes. */
module RespMachine {
  import opened Bytes
  import opened RespGrammar

  /** An aggregate whose first |done| of total elements have been read. */
  datatype Frame = Frame(agg: AggKind, total: nat, done: seq<Reply>)

  datatype Machine = Machine(stack: seq<Frame>, ty: Option<ItemType>)

  const FRESH: Machine := Machine([], None)

  datatype Step = Blocked | Stopped(fault: Fault) | Moved(m: Machine, rest: bytes) | Emitted(reply: Reply, rest: bytes)

  function Push(s: Step, y: bytes): Step {
    match s
    case Moved(m, rest) => Moved(m, rest + y)
    case Emitted(r, rest) => Emitted(r, rest + y)
    case _ => s
  }

  function InPush(stack: seq<Frame>): bool { |stack| > 0 && stack[|stack| - 1].agg.Push? }

  /** Overflow: the place of the next element has no number in C's int. */
  datatype Completed = Root(reply: Reply) | Within(stack: seq<Frame>) | Overflow

  /** Hands a finished item to the innermost open aggregate, closing every
      aggregate that this fills. */
  function Complete(stack: seq<Frame>, r: Reply): Completed {
    if |stack| == 0 then Root(r)
    else
      var top := stack[|stack| - 1];
      var below := stack[..|stack| - 1];
      if |top.done| + 1 >= top.total then Complete(below, Aggregate(top.agg, top.done + [r]))
      else if |top.done| >= INT_MAX then Overflow
      else Within(below + [Frame(top.agg, top.total, top.done + [r])])
  }

  function AfterItem(m: Machine, it: Item): Step {
    match it
    case Incomplete => Blocked
    case Refused(f) => Stopped(f)
    case Leaf(r, rest) => (
      match Complete(m.stack, r)
      case Root(reply) => Emitted(reply, rest)
      case Within(stack) => Moved(Machine(stack, None), rest)
      case Overflow => Stopped(IndexOverflow))
    case Opened(agg, n, rest) => Moved(Machine(m.stack + [Frame(agg, n, [])], None), rest)
  }

  function StepOn(dbl: bytes -> bool, m: Machine, x: bytes): Step {
    match m.ty
    case Some(ty) => AfterItem(m, ReadItem(dbl, ty, x, InPush(m.stack)))
    case None =>
      if |x| == 0 then Blocked
      else match TypeOf(x[0])
        case None => Stopped(UnknownTypeByte(x[0]))
        case Some(ty) => Moved(Machine(m.stack, Some(ty)), x[1..])
  }

  lemma StepConsumes(dbl: bytes -> bool, m: Machine, x: bytes)
    ensures var s := StepOn(dbl, m, x); s.Moved? || s.Emitted? ==> |s.rest| < |x|
  {
    if m.ty.Some? { ItemConsumes(dbl, m.ty.value, x, InPush(m.stack)); }
  }

  datatype End = Waiting(m: Machine, rest: bytes) | Dead(fault: Fault)
  /** The replies produced, in order, and how the machine came to rest. */
  datatype Outcome = Outcome(replies: seq<Reply>, end: End)

  function Then(r: Reply, o: Outcome): Outcome { Outcome([r] + o.replies, o.end) }

  /** Steps until the input in hand is not enough, or a fault. */
  function Run(dbl: bytes -> bool, m: Machine, x: bytes): Outcome
    decreases |x|
  {
    StepConsumes(dbl, m, x);
    match StepOn(dbl, m, x)
    case Blocked => Outcome([], Waiting(m, x))
    case Stopped(f) => Outcome([], Dead(f))
    case Moved(m', rest) => Run(dbl, m', rest)
    case Emitted(r, rest) => Then(r, Run(dbl, FRESH, rest))
  }

  // ----- independence of how the input is cut -----

  lemma NewlineStable(x: bytes, y: bytes)
    requires Newline(x).Some?
    ensures Newline(x + y) == Newline(x)
  {
    var i := Newline(x).value;
    assert NewlineAt(x + y, i);
    forall j | 0 <= j < i ensures !NewlineAt(x + y, j) { assert !NewlineAt(x, j); }
  }

  function PushItem(it: Item, y: bytes): Item {
    match it
    case Leaf(r, rest) => Leaf(r, rest + y)
    case Opened(agg, n, rest) => Opened(agg, n, rest + y)
    case _ => it
  }

  /** Cutting an item out of the front is the same when more bytes follow. */
  lemma FrontKept(rest: bytes, y: bytes, len: nat)
    requires |rest| >= len + 2
    ensures var more := rest + y;
      && more[..len] == rest[..len] && more[len + 2..] == rest[len + 2..] + y
      && (len >= 4 ==> more[3] == rest[3] && more[..3] == rest[..3] && more[4..len] == rest[4..len])
  {
    var more := rest + y;
    assert more[..|rest|] == rest;
    if len >= 4 { assert more[4..len] == more[..|rest|][4..len]; }
  }

  lemma BulkStable(verb: bool, line: bytes, rest: bytes, y: bytes, inPush: bool)
    requires BulkItem(verb, line, rest, inPush) != Incomplete
    ensures BulkItem(verb, line, rest + y, inPush) == PushItem(BulkItem(verb, line, rest, inPush), y)
  {
    hide Decimal.ReadLL;
    var n := Decimal.ReadLL(line);
    if n.Some? && n.value >= 0 { FrontKept(rest, y, n.value); }
  }

  lemma ItemStable(dbl: bytes -> bool, ty: ItemType, x: bytes, y: bytes, inPush: bool)
    requires ReadItem(dbl, ty, x, inPush) != Incomplete
    ensures ReadItem(dbl, ty, x + y, inPush) == PushItem(ReadItem(dbl, ty, x, inPush), y)
  {
    hide BulkItem, Newline;
    NewlineStable(x, y);
    var i := Newline(x).value;
    assert (x + y)[..i] == x[..i] && (x + y)[i + 2..] == x[i + 2..] + y && (x + y)[0] == x[0];
    if ty.Bulk? { BulkStable(ty.verb, x[..i], x[i + 2..], y, inPush); }
  }

  /** A step that can be taken is taken the same way when more input is waiting. */
  lemma StepStable(dbl: bytes -> bool, m: Machine, x: bytes, y: bytes)
    requires StepOn(dbl, m, x) != Blocked
    ensures StepOn(dbl, m, x + y) == Push(StepOn(dbl, m, x), y)
  {
    hide ReadItem;
    if m.ty.Some? {
      ItemStable(dbl, m.ty.value, x, y, InPush(m.stack));
    } else {
      assert (x + y)[1..] == x[1..] + y;
    }
  }

  /** What a run that ended in o does when y arrives. */
  function Continue(dbl: bytes -> bool, o: Outcome, y: bytes): Outcome {
    match o.end
    case Dead(_) => o
    case Waiting(m, rest) =>
      var later := Run(dbl, m, rest + y);
      Outcome(o.replies + later.replies, later.end)
  }

  lemma ContinueThen(dbl: bytes -> bool, r: Reply, o: Outcome, y: bytes)
    ensures Continue(dbl, Then(r, o), y) == Then(r, Continue(dbl, o, y))
  {
    hide Run;
    if o.end.Waiting? {
      var later := Run(dbl, o.end.m, o.end.rest + y);
      assert [r] + o.replies + later.replies == [r] + (o.replies + later.replies);
    }
  }

  /** Running on x and resuming with y is running on x followed by y. */
  lemma {:induction false} RunSplit(dbl: bytes -> bool, m: Machine, x: bytes, y: bytes)
    ensures Run(dbl, m, x + y) == Continue(dbl, Run(dbl, m, x), y)
    decreases |x|
  {
    hide StepOn;
    StepConsumes(dbl, m, x);
    var s := StepOn(dbl, m, x);
    if s.Blocked? {
      assert [] + Run(dbl, m, x + y).replies == Run(dbl, m, x + y).replies;
    } else {
      StepStable(dbl, m, x, y);
      if s.Moved? {
        assert Run(dbl, m, x + y) == Run(dbl, s.m, s.rest + y);
        RunSplit(dbl, s.m, s.rest, y);
      } else if s.Emitted? {
        assert Run(dbl, m, x + y) == Then(s.reply, Run(dbl, FRESH, s.rest + y));
        RunSplit(dbl, FRESH, s.rest, y);
        ContinueThen(dbl, s.reply, Run(dbl, FRESH, s.rest), y);
      }
    }
  }

  /** Feeds the pieces one by one, draining after each. */
  function RunPieces(dbl: bytes -> bool, o: Outcome, pieces: seq<bytes>): Outcome
    decreases |pieces|
  {
    if |pieces| == 0 then o else RunPieces(dbl, Continue(dbl, o, pieces[0]), pieces[1..])
  }

  lemma {:induction false} ContinueTwice(dbl: bytes -> bool, o: Outcome, y: bytes, z: bytes)
    ensures Continue(dbl, Continue(dbl, o, y), z) == Continue(dbl, o, y + z)
  {
    hide StepOn, Run;
    if o.end.Waiting? {
      RunSplit(dbl, o.end.m, o.end.rest + y, z);
      assert o.end.rest + y + z == o.end.rest + (y + z);
      var first := Run(dbl, o.end.m, o.end.rest + y);
      if first.end.Waiting? {
        var second := Run(dbl, first.end.m, first.end.rest + z);
        assert o.replies + (first.replies + second.replies) == o.replies + first.replies + second.replies;
      }
    }
  }

  /** At rest: more of the same input in hand would change nothing. */
  predicate Rested(dbl: bytes -> bool, o: Outcome) {
    o.end.Waiting? ==> StepOn(dbl, o.end.m, o.end.rest).Blocked?
  }

  lemma {:induction false} RunRests(dbl: bytes -> bool, m: Machine, x: bytes)
    ensures Rested(dbl, Run(dbl, m, x))
    decreases |x|
  {
    hide StepOn;
    StepConsumes(dbl, m, x);
    match StepOn(dbl, m, x)
    case Moved(m', rest) => RunRests(dbl, m', rest);
    case Emitted(r, rest) => RunRests(dbl, FRESH, rest);
    case _ =>
  }

  /** Cutting independence: any list of pieces, of any sizes, gives the replies and
      the end that their concatenation gives. */
  lemma {:induction false} ChunkIndependence(dbl: bytes -> bool, o: Outcome, pieces: seq<bytes>)
    requires Rested(dbl, o)
    ensures RunPieces(dbl, o, pieces) == Continue(dbl, o, Flatten(pieces))
    decreases |pieces|
  {
    hide StepOn;
    if |pieces| == 0 {
      if o.end.Waiting? {
        assert o.end.rest + [] == o.end.rest;
        assert o.replies + [] == o.replies;
      }
    } else {
      if o.end.Waiting? { RunRests(dbl, o.end.m, o.end.rest + pieces[0]); }
      ChunkIndependence(dbl, Continue(dbl, o, pieces[0]), pieces[1..]);
      ContinueTwice(dbl, o, pieces[0], Flatten(pieces[1..]));
    }
  }

  // ----- the machine computes the grammar -----

  /** Where a run goes once the grammar has read one item in front of it. */
  function AfterReply(dbl: bytes -> bool, stack: seq<Frame>, p: Parsed): Outcome
    requires p.Got?
  {
    match Complete(stack, p.reply)
    case Root(r) => Then(r, Run(dbl, FRESH, p.rest))
    case Within(s) => Run(dbl, Machine(s, None), p.rest)
    case Overflow => Outcome([], Dead(IndexOverflow))
  }

  predicate SameRun(dbl: bytes -> bool, stack: seq<Frame>, p: Parsed, o: Outcome) {
    match p
    case More => o.replies == [] && o.end.Waiting?
    case Bad(f) => o == Outcome([], Dead(f))
    case Got(_, _) => o == AfterReply(dbl, stack, p)
  }

  /** With any aggregates open, the machine treats the next item the way the
      recursive grammar does: it waits, fails with the same fault, or passes the
      reply the grammar reads to the innermost open aggregate. */
  lemma {:induction false} MachineReadsReply(dbl: bytes -> bool, stack: seq<Frame>, x: bytes)
    ensures SameRun(dbl, stack, ParseReply(dbl, x, InPush(stack)), Run(dbl, Machine(stack, None), x))
    decreases |x|, 0
  {
    hide ReadItem, ParseMany, Complete;
    if |x| > 0 && TypeOf(x[0]).Some? {
      var ty := TypeOf(x[0]).value;
      var m := Machine(stack, Some(ty));
      assert Run(dbl, Machine(stack, None), x) == Run(dbl, m, x[1..]);
      ItemConsumes(dbl, ty, x[1..], InPush(stack));
      match ReadItem(dbl, ty, x[1..], InPush(stack))
      case Opened(agg, n, rest) =>
        var inner := stack + [Frame(agg, n, [])];
        assert inner[..|inner| - 1] == stack;
        assert InPush(inner) == agg.Push?;
        assert Run(dbl, m, x[1..]) == Run(dbl, Machine(inner, None), rest);
        MachineReadsMany(dbl, stack, agg, n, [], rest);
        var p := ParseMany(dbl, n, rest, agg.Push?, 0);
        if p.GotMany? { assert [] + p.replies == p.replies; }
      case _ =>
    }
  }

  predicate SameRunMany(dbl: bytes -> bool, stack: seq<Frame>, agg: AggKind, done: seq<Reply>, p: ParsedMany,
                        o: Outcome) {
    match p
    case MoreMany => o.replies == [] && o.end.Waiting?
    case BadMany(f) => o == Outcome([], Dead(f))
    case GotMany(rs, rest) => o == AfterReply(dbl, stack, Got(Aggregate(agg, done + rs), rest))
  }

  lemma {:induction false} MachineReadsMany(dbl: bytes -> bool, stack: seq<Frame>, agg: AggKind, n: nat,
                                            done: seq<Reply>, x: bytes)
    requires n > 0
    ensures SameRunMany(dbl, stack, agg, done, ParseMany(dbl, n, x, agg.Push?, |done|),
      Run(dbl, Machine(stack + [Frame(agg, |done| + n, done)], None), x))
    decreases |x|, 1
  {
    hide ReadItem, ParseReply, Run;
    var top := Frame(agg, |done| + n, done);
    var inner := stack + [top];
    assert inner[..|inner| - 1] == stack;
    MachineReadsReply(dbl, inner, x);
    var p := ParseReply(dbl, x, agg.Push?);
    if p.Got? {
      if n == 1 {
        assert ParseMany(dbl, 0, p.rest, agg.Push?, |done| + 1) == GotMany([], p.rest);
        assert done + ([p.reply] + []) == done + [p.reply];
        assert Complete(inner, p.reply) == Complete(stack, Aggregate(agg, done + [p.reply]));
      } else if |done| >= INT_MAX {
        assert Complete(inner, p.reply) == Overflow;
      } else {
        assert Complete(inner, p.reply) == Within(stack + [Frame(agg, |done| + n, done + [p.reply])]);
        MachineReadsMany(dbl, stack, agg, n - 1, done + [p.reply], p.rest);
        var q := ParseMany(dbl, n - 1, p.rest, agg.Push?, |done| + 1);
        if q.GotMany? { assert done + [p.reply] + q.replies == done + ([p.reply] + q.replies); }
      }
    }
  }

  /** Refinement of the recursive grammar by the explicit stack. */
  lemma MachineRefinesGrammar(dbl: bytes -> bool, x: bytes)
    ensures var o := Run(dbl, FRESH, x);
      match ParseReply(dbl, x, false)
      case More => o.replies == [] && o.end.Waiting?
      case Bad(f) => o == Outcome([], Dead(f))
      case Got(r, rest) => o == Then(r, Run(dbl, FRESH, rest))
  {
    hide Run, ParseReply;
    MachineReadsReply(dbl, [], x);
  }

  /** Printed replies, one after another, come back one by one and nothing is left. */
  lemma {:induction false} ReadsBackAll(dbl: bytes -> bool, rs: seq<Reply>)
    requires PrintableMany(dbl, rs) && PushSafeMany(rs, false) && IndexedMany(rs)
    ensures Run(dbl, FRESH, EncodeManyOnto(rs, [])) == Outcome(rs, Waiting(FRESH, []))
  {
    hide ParseReply, EncodeOnto;
    if |rs| > 0 {
      RoundTrip(dbl, rs[0], EncodeManyOnto(rs[1..], []), false);
      MachineRefinesGrammar(dbl, EncodeManyOnto(rs, []));
      ReadsBackAll(dbl, rs[1..]);
      assert rs == [rs[0]] + rs[1..];
    }
  }
}
