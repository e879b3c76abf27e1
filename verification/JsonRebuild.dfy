/** Rebuilding a value tree from the events Accept sends: the number flags, the stack of
    document.h's GenericDocument and the differently laid out stack of StaticJSON's
    JSONHandler. */
module JsonRebuild {
  import opened Bytes
  import opened JsonValue

  const TWO31: int := 0x8000_0000
  const TWO32: int := 0x1_0000_0000
  const TWO63: int := 0x8000_0000_0000_0000
  const TWO64: int := 0x1_0000_0000_0000_0000

  // ---- numbers ----

  /** The type bits of a number value's flags. */
  datatype Flags = Flags(isInt: bool, isUint: bool, isInt64: bool, isUint64: bool, isDouble: bool)

  /** data_.n as a 64-bit pattern, with the flags. */
  datatype Num = Num(pattern: int, flags: Flags)

  /** The handler call a number makes. */
  datatype Call = Int(i: int) | Uint(u: int) | Int64(i64: int) | Uint64(u64: int) | Double(d: int)

  predicate InRange(c: Call) {
    match c
    case Int(i) => -TWO31 <= i < TWO31
    case Uint(u) => 0 <= u < TWO32
    case Int64(i) => -TWO63 <= i < TWO63
    case Uint64(u) => 0 <= u < TWO64
    case Double(d) => 0 <= d < TWO64
  }

  /** A two's complement value as a 64-bit pattern. */
  function Pattern(i: int): int { if i < 0 then i + TWO64 else i }

  /** The four integer constructors and the one for doubles. */
  function Construct(c: Call): Num
    requires InRange(c)
  {
    match c
    case Int(i) => Num(Pattern(i), Flags(true, i >= 0, true, i >= 0, false))
    case Uint(u) => Num(u, Flags(u / TWO31 % 2 == 0, true, true, true, false))
    case Int64(i) =>
      Num(Pattern(i),
          if i >= 0 then Flags(i / TWO31 == 0, i / TWO32 == 0, true, true, false)
          else Flags(i >= -TWO31, false, true, false, false))
    case Uint64(u) => Num(u, Flags(u / TWO31 == 0, u / TWO32 == 0, u / TWO63 == 0, true, false))
    case Double(d) => Num(d, Flags(false, false, false, false, true))
  }

  /** data_.n.i.i and data_.n.i64: the low half and the whole pattern, signed. */
  function Low(p: int): int { if p % TWO32 < TWO31 then p % TWO32 else p % TWO32 - TWO32 }

  function Signed(p: int): int { if p < TWO63 then p else p - TWO64 }

  /** Accept's choice of the call. */
  function Dispatch(n: Num): Call {
    if n.flags.isDouble then Double(n.pattern)
    else if n.flags.isInt then Int(Low(n.pattern))
    else if n.flags.isUint then Uint(n.pattern % TWO32)
    else if n.flags.isInt64 then Int64(Signed(n.pattern))
    else Uint64(n.pattern)
  }

  /** The integer a call carries; a double carries none. */
  function Integer(c: Call): int
    requires !c.Double?
  {
    match c
    case Int(i) => i
    case Uint(u) => u
    case Int64(i) => i
    case Uint64(u) => u
  }

  /** The flags say which integer types hold the value, whichever constructor was used. */
  lemma FlagsAreCanonical(c: Call)
    requires InRange(c) && !c.Double?
    ensures var v := Integer(c);
      Construct(c) == Num(Pattern(v),
          Flags(-0x8000_0000 <= v < 0x8000_0000, 0 <= v < 0x1_0000_0000, v < 0x8000_0000_0000_0000, v >= 0, false))
  {
  }

  /** Two calls make the same number exactly when they carry the same integer. */
  lemma SameNumberIff(c: Call, c': Call)
    requires InRange(c) && InRange(c') && !c.Double? && !c'.Double?
    ensures Construct(c) == Construct(c') <==> Integer(c) == Integer(c')
  {
    FlagsAreCanonical(c);
    FlagsAreCanonical(c');
  }

  ghost predicate Constructed(n: Num) { exists c :: InRange(c) && Construct(c) == n }

  lemma LowHalf(v: int)
    requires -TWO31 <= v < TWO31
    ensures Low(Pattern(v)) == v
  {
  }

  /** A number sent through a handler comes out with the same pattern and flags. */
  lemma NumberRebuilt(n: Num)
    requires Constructed(n)
    ensures InRange(Dispatch(n)) && Construct(Dispatch(n)) == n
  {
    var c :| InRange(c) && Construct(c) == n;
    if !c.Double? {
      FlagsAreCanonical(c);
      var v := Integer(c);
      if -TWO31 <= v < TWO31 { LowHalf(v); }
      FlagsAreCanonical(Dispatch(n));
    }
  }

  // ---- values and what Accept sends ----

  /** String data and its copy flag. */
  datatype Text = Text(data: bytes, copied: bool)

  type Tree = Value<Num, Text>
  type Pair = Member<Num, Text>
  type Sent = Event<Call, Text>

  function Send(e: Event<Num, Text>): Sent {
    match e
    case OnNull => OnNull
    case OnBool(b) => OnBool(b)
    case OnNumber(n) => OnNumber(Dispatch(n))
    case OnString(s) => OnString(s)
    case OnStartObject => OnStartObject
    case OnKey(s) => OnKey(s)
    case OnEndObject(n) => OnEndObject(n)
    case OnStartArray => OnStartArray
    case OnEndArray(n) => OnEndArray(n)
  }

  function SendAll(es: seq<Event<Num, Text>>): (r: seq<Sent>)
    ensures |r| == |es| && forall i :: 0 <= i < |es| ==> r[i] == Send(es[i])
  {
    if |es| == 0 then [] else [Send(es[0])] + SendAll(es[1..])
  }

  ghost predicate Proper(v: Tree)
    decreases v
  {
    match v
    case Number(n) => Constructed(n)
    case Array(es) => AllProper(es)
    case Object(ms) => MembersProper(ms)
    case _ => true
  }

  ghost predicate AllProper(es: seq<Tree>)
    decreases es
  {
    |es| == 0 || (Proper(es[0]) && AllProper(es[1..]))
  }

  ghost predicate MembersProper(ms: seq<Pair>)
    decreases ms
  {
    if |ms| == 0 then true
    else
      assert ms[0].value < ms[0];
      Proper(ms[0].value) && MembersProper(ms[1..])
  }

  // ---- GenericDocument ----

  /** The names and values of count members lie next to each other on the stack. */
  function Paired(vs: seq<Tree>): Option<seq<Pair>> {
    if |vs| == 0 then Some([])
    else if |vs| == 1 || !vs[0].String? then None
    else
      var more := Paired(vs[2..]);
      if more.None? then None else Some([Member(vs[0].s, vs[1])] + more.value)
  }

  /** One event on the stack; none when it does not fit the stack. */
  function Stacked(stack: seq<Tree>, e: Sent): Option<seq<Tree>> {
    match e
    case OnNull => Some(stack + [Null])
    case OnBool(b) => Some(stack + [Bool(b)])
    case OnNumber(c) => if InRange(c) then Some(stack + [Number(Construct(c))]) else None
    case OnString(s) => Some(stack + [String(s)])
    case OnKey(s) => Some(stack + [String(s)])
    case OnStartObject => Some(stack + [Object([])])
    case OnStartArray => Some(stack + [Array([])])
    case OnEndObject(count) =>
      if |stack| < 2 * count + 1 then None
      else
        var at := |stack| - 2 * count;
        var ms := Paired(stack[at..]);
        if ms.None? then None else Some(stack[..at - 1] + [Object(ms.value)])
    case OnEndArray(count) =>
      if |stack| < count + 1 then None
      else var at := |stack| - count; Some(stack[..at - 1] + [Array(stack[at..])])
  }

  function StackedAll(stack: seq<Tree>, es: seq<Sent>): Option<seq<Tree>>
    decreases es
  {
    if |es| == 0 then Some(stack)
    else
      var next := Stacked(stack, es[0]);
      if next.None? then None else StackedAll(next.value, es[1..])
  }

  lemma OneStacked(stack: seq<Tree>, e: Event<Num, Text>, es: seq<Event<Num, Text>>)
    requires Stacked(stack, Send(e)).Some?
    ensures StackedAll(stack, SendAll([e] + es)) == StackedAll(Stacked(stack, Send(e)).value, SendAll(es))
  {
    assert ([e] + es)[1..] == es;
    var s := SendAll([e] + es);
    assert s[0] == Send(e) && s[1..] == SendAll(es);
  }

  /** The events of a value push exactly that value. */
  lemma {:induction false} DocumentRebuilds(stack: seq<Tree>, v: Tree, rest: seq<Event<Num, Text>>)
    requires Proper(v)
    ensures StackedAll(stack, SendAll(Events(v) + rest)) == StackedAll(stack + [v], SendAll(rest))
    decreases v, 1
  {
    match v
    case Array(es) => DocumentArray(stack, es, rest);
    case Object(ms) => DocumentObject(stack, ms, rest);
    case Number(n) =>
      NumberRebuilt(n);
      OneStacked(stack, OnNumber(n), rest);
    case _ => OneStacked(stack, Events(v)[0], rest);
  }

  lemma NothingStacked(stack: seq<Tree>)
    ensures StackedAll(stack, []) == Some(stack) && SendAll([]) == []
  {
  }

  lemma WholeStack(v: Tree)
    requires Proper(v)
    ensures StackedAll([], SendAll(Events(v))) == Some([v])
  {
    hide StackedAll, SendAll, Proper, Events;
    DocumentRebuilds([], v, []);
    assert Events(v) + [] == Events(v) && [] + [v] == [v];
    NothingStacked([v]);
  }

  lemma StackedNext(stack: seq<Tree>, es: seq<Sent>, i: nat)
    requires i < |es| && StackedAll(stack, es[i..]).Some?
    ensures Stacked(stack, es[i]).Some?
    ensures StackedAll(Stacked(stack, es[i]).value, es[i + 1..]) == StackedAll(stack, es[i..])
  {
    hide Stacked;
    assert es[i..][0] == es[i] && es[i..][1..] == es[i + 1..];
  }

  class GenericDocument {
    var stack: seq<Tree>

    constructor ()
      ensures stack == []
    {
      stack := [];
    }

    /** Pop of a number of values. */
    method Pop(n: nat) returns (vs: seq<Tree>)
      requires n <= |stack|
      modifies this
      ensures stack == old(stack)[..|old(stack)| - n] && vs == old(stack)[|old(stack)| - n..]
    {
      vs := stack[|stack| - n..];
      stack := stack[..|stack| - n];
    }

    /** The handler methods Null through EndArray. */
    method Handle(e: Sent)
      requires Stacked(stack, e).Some?
      modifies this
      ensures Some(stack) == Stacked(old(stack), e)
    {
      match e {
        case OnNull => stack := stack + [Null];
        case OnBool(b) => stack := stack + [Bool(b)];
        case OnNumber(c) => stack := stack + [Number(Construct(c))];
        case OnString(s) => stack := stack + [String(s)];
        case OnKey(s) => stack := stack + [String(s)];
        case OnStartObject => stack := stack + [Object([])];
        case OnStartArray => stack := stack + [Array([])];
        case OnEndObject(count) =>
          var vs := Pop(2 * count);
          stack := stack[|stack| - 1 := Object(Paired(vs).value)];
          assert stack == old(stack)[..|old(stack)| - 2 * count - 1] + [Object(Paired(vs).value)];
        case OnEndArray(count) =>
          var vs := Pop(count);
          stack := stack[|stack| - 1 := Array(vs)];
          assert stack == old(stack)[..|old(stack)| - count - 1] + [Array(vs)];
      }
    }

    /** Populate with the events of a value: exactly one root object is left, which
        becomes the document. */
    method Populate(v: Tree) returns (root: Tree)
      requires Proper(v) && stack == []
      modifies this
      ensures root == v && stack == []
    {
      hide StackedAll, Stacked, SendAll, Proper, Events;
      var es := SendAll(Events(v));
      WholeStack(v);
      assert es[0..] == es;
      var i := 0;
      while i < |es|
        invariant i <= |es| && StackedAll(stack, es[i..]) == Some([v])
      {
        StackedNext(stack, es, i);
        Handle(es[i]);
        i := i + 1;
      }
      assert es[i..] == [];
      NothingStacked(stack);
      var vs := Pop(1);
      root := vs[0];
    }
  }

  /** The names and values of members, as they lie on the stack. */
  function Flattened(ms: seq<Pair>): (r: seq<Tree>)
    ensures |r| == 2 * |ms|
  {
    if |ms| == 0 then [] else [String(ms[0].name), ms[0].value] + Flattened(ms[1..])
  }

  lemma {:induction false} PairedFlattened(ms: seq<Pair>)
    ensures Paired(Flattened(ms)) == Some(ms)
  {
    if |ms| > 0 {
      PairedFlattened(ms[1..]);
      assert Flattened(ms)[2..] == Flattened(ms[1..]);
      assert [ms[0]] + ms[1..] == ms;
    }
  }

  lemma {:induction false} DocumentArray(stack: seq<Tree>, es: seq<Tree>, rest: seq<Event<Num, Text>>)
    requires AllProper(es)
    ensures var v := Array(es); StackedAll(stack, SendAll(Events(v) + rest)) == StackedAll(stack + [v], SendAll(rest))
    decreases es, 2
  {
    hide StackedAll, SendAll, ElementEvents;
    var tail: seq<Event<Num, Text>> := [OnEndArray(|es|)];
    var open := stack + [Array([])];
    assert Events(Array(es)) + rest == [OnStartArray] + (ElementEvents(es) + (tail + rest));
    OneStacked(stack, OnStartArray, ElementEvents(es) + (tail + rest));
    DocumentElements(open, es, tail + rest);
    var full := open + es;
    assert full[..|full| - |es| - 1] == stack && full[|full| - |es|..] == es;
    OneStacked(full, OnEndArray(|es|), rest);
  }

  lemma {:induction false} DocumentElements(stack: seq<Tree>, es: seq<Tree>, rest: seq<Event<Num, Text>>)
    requires AllProper(es)
    ensures StackedAll(stack, SendAll(ElementEvents(es) + rest)) == StackedAll(stack + es, SendAll(rest))
    decreases es, 1
  {
    hide StackedAll, SendAll;
    if |es| == 0 {
      assert ElementEvents(es) + rest == rest && stack + es == stack;
    } else {
      assert ElementEvents(es) + rest == Events(es[0]) + (ElementEvents(es[1..]) + rest);
      DocumentRebuilds(stack, es[0], ElementEvents(es[1..]) + rest);
      DocumentElements(stack + [es[0]], es[1..], rest);
      assert (stack + [es[0]]) + es[1..] == stack + es;
    }
  }

  lemma {:induction false} DocumentObject(stack: seq<Tree>, ms: seq<Pair>, rest: seq<Event<Num, Text>>)
    requires MembersProper(ms)
    ensures var v := Object(ms); StackedAll(stack, SendAll(Events(v) + rest)) == StackedAll(stack + [v], SendAll(rest))
    decreases ms, 2
  {
    hide StackedAll, SendAll, MemberEvents, Paired;
    var tail: seq<Event<Num, Text>> := [OnEndObject(|ms|)];
    var open := stack + [Object([])];
    assert Events(Object(ms)) + rest == [OnStartObject] + (MemberEvents(ms) + (tail + rest));
    OneStacked(stack, OnStartObject, MemberEvents(ms) + (tail + rest));
    DocumentMembers(open, ms, tail + rest);
    var full := open + Flattened(ms);
    PairedFlattened(ms);
    assert full[..|full| - 2 * |ms| - 1] == stack && full[|full| - 2 * |ms|..] == Flattened(ms);
    OneStacked(full, OnEndObject(|ms|), rest);
  }

  lemma {:induction false} DocumentMembers(stack: seq<Tree>, ms: seq<Pair>, rest: seq<Event<Num, Text>>)
    requires MembersProper(ms)
    ensures StackedAll(stack, SendAll(MemberEvents(ms) + rest)) == StackedAll(stack + Flattened(ms), SendAll(rest))
    decreases ms, 1
  {
    hide StackedAll, SendAll;
    if |ms| == 0 {
      assert MemberEvents(ms) + rest == rest && stack + Flattened(ms) == stack;
    } else {
      var more := MemberEvents(ms[1..]) + rest;
      assert ms[0].value < ms[0];
      var key := stack + [String(ms[0].name)];
      assert MemberEvents(ms) + rest == [OnKey(ms[0].name)] + (Events(ms[0].value) + more);
      OneStacked(stack, OnKey(ms[0].name), Events(ms[0].value) + more);
      DocumentRebuilds(key, ms[0].value, more);
      DocumentMembers(key + [ms[0].value], ms[1..], rest);
      assert (key + [ms[0].value]) + Flattened(ms[1..]) == stack + Flattened(ms);
    }
  }

  // ---- JSONHandler ----

  /** m_stack, the value it fills, and whether that is complete. */
  datatype Dom = Dom(stack: seq<Tree>, root: Tree, parsed: bool) {
    function Top(): Tree { if |stack| == 0 then root else stack[|stack| - 1] }

    function WithTop(v: Tree): Dom {
      if |stack| == 0 then this.(root := v) else this.(stack := stack[..|stack| - 1] + [v])
    }

    function Push(v: Tree): Dom { this.(stack := stack + [v]) }

    function Pop(): Dom { if |stack| == 0 then this else this.(stack := stack[..|stack| - 1]) }
  }

  /** postprocess; none for a corrupted DOM */
  function Postprocess(d: Dom): Option<Dom> {
    if |d.stack| == 0 then Some(d.(parsed := true))
    else
      var top1, d1 := d.Top(), d.Pop();
      match d1.Top()
      case Array(es) => Some(d1.WithTop(Array(es + [top1])).Push(Null))
      case String(key) =>
        var d2 := d1.Pop();
        if d2.Top().Object? then Some(d2.WithTop(Object(d2.Top().members + [Member(key, top1)]))) else None
      case _ => None
  }

  function Handled(d: Dom, e: Sent): Option<Dom> {
    match e
    case OnNull => Postprocess(d.WithTop(Null))
    case OnBool(b) => Postprocess(d.WithTop(Bool(b)))
    case OnNumber(c) => if InRange(c) then Postprocess(d.WithTop(Number(Construct(c)))) else None
    case OnString(s) => Postprocess(d.WithTop(String(s)))
    case OnKey(s) => if d.Top().Object? then Some(d.Push(String(s)).Push(Null)) else None
    case OnStartObject => Some(d.WithTop(Object([])))
    case OnStartArray => Some(d.WithTop(Array([])).Push(Null))
    case OnEndObject(_) => if d.Top().Object? then Postprocess(d) else None
    case OnEndArray(_) => if d.Pop().Top().Array? then Postprocess(d.Pop()) else None
  }

  function HandledAll(d: Option<Dom>, es: seq<Sent>): Option<Dom>
    decreases es
  {
    if d.None? || |es| == 0 then d else HandledAll(Handled(d.value, es[0]), es[1..])
  }

  lemma OneHandled(d: Dom, e: Event<Num, Text>, es: seq<Event<Num, Text>>)
    ensures HandledAll(Some(d), SendAll([e] + es)) == HandledAll(Handled(d, Send(e)), SendAll(es))
  {
    assert ([e] + es)[1..] == es;
    var s := SendAll([e] + es);
    assert s[0] == Send(e) && s[1..] == SendAll(es);
  }

  /** Events of a value act as one assignment to the top followed by postprocess. */
  lemma {:induction false} HandlerRebuilds(d: Dom, v: Tree, rest: seq<Event<Num, Text>>)
    requires Proper(v)
    ensures HandledAll(Some(d), SendAll(Events(v) + rest)) == HandledAll(Postprocess(d.WithTop(v)), SendAll(rest))
    decreases v, 1
  {
    hide HandledAll, SendAll, Postprocess;
    match v
    case Array(es) => HandlerArray(d, es, rest);
    case Object(ms) => HandlerObject(d, ms, rest);
    case Number(n) =>
      NumberRebuilt(n);
      OneHandled(d, OnNumber(n), rest);
    case _ => OneHandled(d, Events(v)[0], rest);
  }

  predicate SentInRange(es: seq<Event<Num, Text>>) {
    forall i :: 0 <= i < |es| ==> Send(es[i]).OnNumber? ==> InRange(Send(es[i]).n)
  }

  lemma {:induction false} InRangeAll(v: Tree)
    requires Proper(v)
    ensures SentInRange(Events(v))
    decreases v, 1
  {
    match v
    case Number(n) => NumberRebuilt(n);
    case Array(es) => ElementsInRange(es);
    case Object(ms) => MembersInRange(ms);
    case _ =>
  }

  lemma NothingHandled(d: Option<Dom>)
    ensures HandledAll(d, []) == d && SendAll([]) == []
  {
  }

  /** What a fresh handler makes of a value's events. */
  lemma WholeRun(d: Dom, v: Tree)
    requires Proper(v) && d.stack == []
    ensures HandledAll(Some(d), SendAll(Events(v))) == Some(Dom([], v, true))
    ensures forall e :: e in SendAll(Events(v)) && e.OnNumber? ==> InRange(e.n)
  {
    hide HandledAll, SendAll, Proper, Events;
    HandlerRebuilds(d, v, []);
    assert Events(v) + [] == Events(v);
    InRangeAll(v);
    NothingHandled(Postprocess(d.WithTop(v)));
  }

  lemma HandledNext(d: Dom, es: seq<Sent>, i: nat)
    requires i < |es| && HandledAll(Some(d), es[i..]).Some?
    ensures HandledAll(Handled(d, es[i]), es[i + 1..]) == HandledAll(Some(d), es[i..]) && Handled(d, es[i]).Some?
  {
    hide Handled;
    assert es[i..][0] == es[i] && es[i..][1..] == es[i + 1..];
  }

  class JSONHandler {
    var stack: seq<Tree>
    var value: Tree
    var parsed: bool

    function Now(): Dom
      reads this
    {
      Dom(stack, value, parsed)
    }

    /** The value handed over may hold anything before. */
    constructor (v: Tree)
      ensures Now() == Dom([], v, false)
    {
      stack, value, parsed := [], v, false;
    }

    method StackPush()
      modifies this`stack
      ensures stack == old(stack) + [Null]
    {
      stack := stack + [Null];
    }

    method StackPop()
      modifies this`stack
      ensures Now() == old(Now()).Pop()
    {
      if |stack| > 0 { stack := stack[..|stack| - 1]; }
    }

    /** Assignment through stack_top */
    method SetTop(v: Tree)
      modifies this`stack, this`value
      ensures Now() == old(Now()).WithTop(v)
    {
      if |stack| == 0 { value := v; } else { stack := stack[..|stack| - 1] + [v]; }
    }

    method StackTop() returns (v: Tree)
      ensures v == Now().Top()
    {
      if |stack| == 0 { return value; }
      return stack[|stack| - 1];
    }

    method RunPostprocess() returns (ok: bool)
      modifies this
      ensures ok == Postprocess(old(Now())).Some?
      ensures ok ==> Some(Now()) == Postprocess(old(Now()))
    {
      if |stack| == 0 {
        parsed := true;
        return true;
      }
      var top1 := StackTop();
      StackPop();
      var top := StackTop();
      if top.Array? {
        SetTop(Array(top.elements + [top1]));
        StackPush();
        return true;
      } else if top.String? {
        StackPop();
        var owner := StackTop();
        if !owner.Object? { return false; }
        SetTop(Object(owner.members + [Member(top.s, top1)]));
        return true;
      }
      return false;
    }

    /** The handler methods; false reports a corrupted DOM. */
    method Handle(e: Sent) returns (ok: bool)
      requires e.OnNumber? ==> InRange(e.n)
      modifies this
      ensures ok == Handled(old(Now()), e).Some?
      ensures ok ==> Some(Now()) == Handled(old(Now()), e)
    {
      hide Postprocess;
      match e {
        case OnNull => SetTop(Null); ok := RunPostprocess();
        case OnBool(b) => SetTop(Bool(b)); ok := RunPostprocess();
        case OnNumber(c) => SetTop(Number(Construct(c))); ok := RunPostprocess();
        case OnString(s) => SetTop(String(s)); ok := RunPostprocess();
        case OnKey(s) =>
          var top := StackTop();
          if !top.Object? { return false; }
          StackPush();
          SetTop(String(s));
          StackPush();
          return true;
        case OnStartObject => SetTop(Object([])); return true;
        case OnStartArray =>
          SetTop(Array([]));
          StackPush();
          return true;
        case OnEndObject(_) =>
          var top := StackTop();
          if !top.Object? { return false; }
          ok := RunPostprocess();
        case OnEndArray(_) =>
          StackPop();
          var top := StackTop();
          if !top.Array? { return false; }
          ok := RunPostprocess();
      }
    }

    /** A value's events, sent to a fresh handler, leave the value, complete, and nothing
        on the stack. */
    method ReadFrom(v: Tree) returns (ok: bool)
      requires Proper(v) && stack == []
      modifies this
      ensures ok && Now() == Dom([], v, true)
    {
      hide HandledAll, Handled, SendAll, Proper, Events;
      var es := SendAll(Events(v));
      WholeRun(Now(), v);
      assert es[0..] == es;
      var i := 0;
      while i < |es|
        invariant i <= |es| && HandledAll(Some(Now()), es[i..]) == Some(Dom([], v, true))
      {
        HandledNext(Now(), es, i);
        var fine := Handle(es[i]);
        if !fine { return false; }
        i := i + 1;
      }
      assert es[i..] == [];
      NothingHandled(Some(Now()));
      return true;
    }
  }

  lemma {:induction false} HandlerArray(d: Dom, es: seq<Tree>, rest: seq<Event<Num, Text>>)
    requires AllProper(es)
    ensures var v := Array(es);
      HandledAll(Some(d), SendAll(Events(v) + rest)) == HandledAll(Postprocess(d.WithTop(v)), SendAll(rest))
    decreases es, 2
  {
    hide HandledAll, SendAll, Postprocess, ElementEvents;
    var tail: seq<Event<Num, Text>> := [OnEndArray(|es|)];
    assert Events(Array(es)) + rest == [OnStartArray] + (ElementEvents(es) + (tail + rest));
    OneHandled(d, OnStartArray, ElementEvents(es) + (tail + rest));
    HandlerElements(d, [], es, tail + rest);
    assert [] + es == es;
    var full := d.WithTop(Array(es));
    assert full.Push(Null).Pop() == full;
    OneHandled(full.Push(Null), OnEndArray(|es|), rest);
  }

  lemma ElementAdded(d: Dom, before: seq<Tree>, v: Tree)
    ensures Postprocess(d.WithTop(Array(before)).Push(Null).WithTop(v))
      == Some(d.WithTop(Array(before + [v])).Push(Null))
  {
    var c := d.WithTop(Array(before));
    assert c.Push(Null).WithTop(v) == c.Push(v);
    assert c.Push(v).Pop() == c && c.Top() == Array(before);
    assert c.WithTop(Array(before + [v])) == d.WithTop(Array(before + [v]));
  }

  lemma {:induction false} HandlerElements(d: Dom, before: seq<Tree>, es: seq<Tree>, rest: seq<Event<Num, Text>>)
    requires AllProper(es)
    ensures HandledAll(Some(d.WithTop(Array(before)).Push(Null)), SendAll(ElementEvents(es) + rest))
         == HandledAll(Some(d.WithTop(Array(before + es)).Push(Null)), SendAll(rest))
    decreases es, 1
  {
    hide HandledAll, SendAll, Postprocess;
    if |es| == 0 {
      assert ElementEvents(es) + rest == rest && before + es == before;
    } else {
      assert ElementEvents(es) + rest == Events(es[0]) + (ElementEvents(es[1..]) + rest);
      HandlerRebuilds(d.WithTop(Array(before)).Push(Null), es[0], ElementEvents(es[1..]) + rest);
      ElementAdded(d, before, es[0]);
      HandlerElements(d, before + [es[0]], es[1..], rest);
      assert (before + [es[0]]) + es[1..] == before + es;
    }
  }

  lemma {:induction false} HandlerObject(d: Dom, ms: seq<Pair>, rest: seq<Event<Num, Text>>)
    requires MembersProper(ms)
    ensures var v := Object(ms);
      HandledAll(Some(d), SendAll(Events(v) + rest)) == HandledAll(Postprocess(d.WithTop(v)), SendAll(rest))
    decreases ms, 2
  {
    hide HandledAll, SendAll, Postprocess, MemberEvents;
    var tail: seq<Event<Num, Text>> := [OnEndObject(|ms|)];
    assert Events(Object(ms)) + rest == [OnStartObject] + (MemberEvents(ms) + (tail + rest));
    OneHandled(d, OnStartObject, MemberEvents(ms) + (tail + rest));
    HandlerMembers(d, [], ms, tail + rest);
    assert [] + ms == ms;
    OneHandled(d.WithTop(Object(ms)), OnEndObject(|ms|), rest);
  }

  lemma MemberAdded(d: Dom, before: seq<Pair>, m: Pair)
    ensures Postprocess(d.WithTop(Object(before)).Push(String(m.name)).Push(Null).WithTop(m.value))
         == Some(d.WithTop(Object(before + [m])))
  {
    var c := d.WithTop(Object(before));
    var k := c.Push(String(m.name));
    assert k.Push(Null).WithTop(m.value) == k.Push(m.value);
    assert k.Push(m.value).Pop() == k && k.Pop() == c && c.Top() == Object(before);
    assert c.WithTop(Object(before + [m])) == d.WithTop(Object(before + [m]));
  }

  lemma {:induction false} HandlerMembers(d: Dom, before: seq<Pair>, ms: seq<Pair>, rest: seq<Event<Num, Text>>)
    requires MembersProper(ms)
    ensures HandledAll(Some(d.WithTop(Object(before))), SendAll(MemberEvents(ms) + rest))
         == HandledAll(Some(d.WithTop(Object(before + ms))), SendAll(rest))
    decreases ms, 1
  {
    hide HandledAll, SendAll, Postprocess;
    if |ms| == 0 {
      assert MemberEvents(ms) + rest == rest && before + ms == before;
    } else {
      assert ms[0].value < ms[0];
      var more := MemberEvents(ms[1..]) + rest;
      var open := d.WithTop(Object(before));
      assert MemberEvents(ms) + rest == [OnKey(ms[0].name)] + (Events(ms[0].value) + more);
      OneHandled(open, OnKey(ms[0].name), Events(ms[0].value) + more);
      HandlerRebuilds(open.Push(String(ms[0].name)).Push(Null), ms[0].value, more);
      MemberAdded(d, before, ms[0]);
      HandlerMembers(d, before + [ms[0]], ms[1..], rest);
      assert (before + [ms[0]]) + ms[1..] == before + ms;
    }
  }

  lemma {:induction false} ElementsInRange(es: seq<Tree>)
    requires AllProper(es)
    ensures SentInRange(ElementEvents(es))
    decreases es, 0
  {
    if |es| > 0 {
      InRangeAll(es[0]);
      ElementsInRange(es[1..]);
    }
  }

  lemma {:induction false} MembersInRange(ms: seq<Pair>)
    requires MembersProper(ms)
    ensures SentInRange(MemberEvents(ms))
    decreases ms, 0
  {
    if |ms| > 0 {
      assert ms[0].value < ms[0];
      InRangeAll(ms[0].value);
      MembersInRange(ms[1..]);
    }
  }
}
