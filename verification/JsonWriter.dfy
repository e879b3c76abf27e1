/** writer.h and prettywriter.h: both writers over UTF-8 with the default flags. A number
    arrives as the text its printer makes. */
module JsonWriter {
  import opened Bytes
  import opened JsonValue
  import opened StringBuffer

  const OPEN_BRACE: byte := 123
  const CLOSE_BRACE: byte := 125
  const OPEN_BRACKET: byte := 91
  const CLOSE_BRACKET: byte := 93
  const NULL_TEXT: bytes := [110, 117, 108, 108]
  const TRUE_TEXT: bytes := [116, 114, 117, 101]
  const FALSE_TEXT: bytes := [102, 97, 108, 115, 101]

  type V = Value<bytes, bytes>
  type E = Event<bytes, bytes>

  predicate IsSpace(c: byte) { c == SPACE || c == 9 || c == LF || c == CR }

  // ---- string literals ----

  /** The writers' escape table; 0 for a byte written as it is. */
  function EscapeCode(c: byte): byte {
    if c == 8 then 98 else if c == 9 then 116 else if c == LF then 110 else if c == 12 then 102 else if c == CR then 114
    else if c < 32 then 117
    else if c == QUOTE || c == BACKSLASH then c
    else 0
  }

  function Escape(c: byte): bytes {
    var e := EscapeCode(c);
    if e == 0 then [c]
    else if e == 117 then [BACKSLASH, e, ZERO, ZERO, HexDigit(c / 16), HexDigit(c % 16)]
    else [BACKSLASH, e]
  }

  function EscapeAll(s: bytes): bytes { if |s| == 0 then [] else Escape(s[0]) + EscapeAll(s[1..]) }

  function Literal(s: bytes): bytes { [QUOTE] + (EscapeAll(s) + [QUOTE]) }

  // ---- the level stack ----

  datatype Level = Level(valueCount: nat, inArray: bool)

  datatype Style = Compact | Pretty(indentChar: byte, indentCharCount: nat, singleLineArray: bool)

  function Indent(depth: nat, style: Style): bytes
    requires style.Pretty?
  {
    Repeat(style.indentChar, depth * style.indentCharCount)
  }

  /** The separator before a value or name. */
  function Mark(level: Level): bytes {
    if level.valueCount == 0 then [] else if level.inArray || level.valueCount % 2 == 0 then [COMMA] else [COLON]
  }

  /** The whitespace behind the separator. */
  function Blank(depth: nat, level: Level, style: Style): bytes {
    match style
    case Compact => []
    case Pretty(_, _, single) =>
      if level.inArray && single then (if level.valueCount == 0 then [] else [SPACE])
      else if level.inArray || level.valueCount % 2 == 0 then [LF] + Indent(depth, style)
      else [SPACE]
  }

  /** What Prefix, or PrettyPrefix, puts before a value or name. */
  function Lead(levels: seq<Level>, style: Style): bytes {
    if |levels| == 0 then []
    else var level := levels[|levels| - 1]; Mark(level) + Blank(|levels|, level, style)
  }

  /** What EndObject or EndArray puts before the closing bracket, after popping top. */
  function Close(depth: nat, top: Level, style: Style): bytes {
    if style.Compact? || top.valueCount == 0 || (top.inArray && style.singleLineArray) then []
    else [LF] + Indent(depth, style)
  }

  function Counted(levels: seq<Level>): seq<Level> {
    if |levels| == 0 then []
    else levels[|levels| - 1 := levels[|levels| - 1].(valueCount := levels[|levels| - 1].valueCount + 1)]
  }

  datatype State = State(out: bytes, levels: seq<Level>, hasRoot: bool)

  /** A value or name may come next: the asserts of Prefix. */
  predicate MayPrefix(s: State, isString: bool) {
    if |s.levels| == 0 then !s.hasRoot
    else var level := s.levels[|s.levels| - 1]; !level.inArray && level.valueCount % 2 == 0 ==> isString
  }

  predicate MayEnd(s: State, inArray: bool) {
    |s.levels| > 0 && var top := s.levels[|s.levels| - 1];
      top.inArray == inArray && (!inArray ==> top.valueCount % 2 == 0)
  }

  predicate Legal(s: State, e: E) {
    match e
    case OnEndObject(_) => MayEnd(s, false)
    case OnEndArray(_) => MayEnd(s, true)
    case OnString(_) => MayPrefix(s, true)
    case OnKey(_) => MayPrefix(s, true)
    case _ => MayPrefix(s, false)
  }

  function Wrote(s: State, text: bytes, style: Style): State {
    State(s.out + (Lead(s.levels, style) + text), Counted(s.levels), s.hasRoot || |s.levels| == 0)
  }

  function Opened(s: State, inArray: bool, style: Style): State {
    var w := Wrote(s, if inArray then [OPEN_BRACKET] else [OPEN_BRACE], style);
    w.(levels := w.levels + [Level(0, inArray)])
  }

  function Closed(s: State, inArray: bool, style: Style): State
    requires |s.levels| > 0
  {
    var n := |s.levels| - 1;
    State(s.out + (Close(n, s.levels[n], style) + (if inArray then [CLOSE_BRACKET] else [CLOSE_BRACE])),
      s.levels[..n], s.hasRoot)
  }

  /** One event on a writer. */
  function Emit(s: State, e: E, style: Style): State
    requires Legal(s, e)
  {
    match e
    case OnNull => Wrote(s, NULL_TEXT, style)
    case OnBool(b) => Wrote(s, if b then TRUE_TEXT else FALSE_TEXT, style)
    case OnNumber(text) => Wrote(s, text, style)
    case OnString(str) => Wrote(s, Literal(str), style)
    case OnKey(str) => Wrote(s, Literal(str), style)
    case OnStartObject => Opened(s, false, style)
    case OnStartArray => Opened(s, true, style)
    case OnEndObject(_) => Closed(s, false, style)
    case OnEndArray(_) => Closed(s, true, style)
  }

  /** The writer after all these events, unless an assert fails on the way. */
  function EmitAll(s: State, es: seq<E>, style: Style): Option<State>
    decreases es
  {
    if |es| == 0 then Some(s)
    else if !Legal(s, es[0]) then None
    else EmitAll(Emit(s, es[0], style), es[1..], style)
  }

  const FRESH: State := State([], [], false)

  // ---- whitespace outside strings ----

  datatype Place = Outside | Inside | Escaped

  function Next(p: Place, c: byte): Place {
    match p
    case Outside => if c == QUOTE then Inside else Outside
    case Inside => if c == QUOTE then Outside else if c == BACKSLASH then Escaped else Inside
    case Escaped => Inside
  }

  function Walk(p: Place, t: bytes): Place
    decreases t
  {
    if |t| == 0 then p else Walk(Next(p, t[0]), t[1..])
  }

  function Keep(p: Place, c: byte): bytes { if p.Outside? && IsSpace(c) then [] else [c] }

  /** The text without the whitespace that is outside string literals. */
  function Strip(p: Place, t: bytes): bytes
    decreases t
  {
    if |t| == 0 then [] else Keep(p, t[0]) + Strip(Next(p, t[0]), t[1..])
  }

  lemma {:induction false} StripAppend(p: Place, a: bytes, b: bytes)
    ensures Strip(p, a + b) == Strip(p, a) + Strip(Walk(p, a), b) && Walk(p, a + b) == Walk(Walk(p, a), b)
    decreases a
  {
    hide Next, Keep;
    if |a| == 0 {
      assert a + b == b;
    } else {
      var n := Next(p, a[0]);
      assert (a + b)[0] == a[0] && (a + b)[1..] == a[1..] + b;
      StripAppend(n, a[1..], b);
      Regroup(Keep(p, a[0]), Strip(n, a[1..]), Strip(Walk(n, a[1..]), b));
    }
  }

  /** Text with no whitespace to strip that leaves no string literal open. */
  predicate Solid(t: bytes) { Strip(Outside, t) == t && Walk(Outside, t) == Outside }

  /** What a number printer may produce. */
  predicate Token(t: bytes) { forall i :: 0 <= i < |t| ==> !IsSpace(t[i]) && t[i] != QUOTE }

  lemma {:induction false} TokenIsSolid(t: bytes)
    requires Token(t)
    ensures Solid(t)
  {
    if |t| > 0 { TokenIsSolid(t[1..]); }
  }

  lemma {:induction false} PlainInside(t: bytes)
    requires forall i :: 0 <= i < |t| ==> t[i] != QUOTE && t[i] != BACKSLASH
    ensures Strip(Inside, t) == t && Walk(Inside, t) == Inside
  {
    if |t| > 0 { PlainInside(t[1..]); }
  }

  lemma PairInside(e: byte)
    ensures Strip(Inside, [BACKSLASH, e]) == [BACKSLASH, e] && Walk(Inside, [BACKSLASH, e]) == Inside
  {
    assert [BACKSLASH, e][1..] == [e] && [e][1..] == [];
    assert Walk(Inside, []) == Inside;
    assert Strip(Escaped, [e]) == [e] && Walk(Escaped, [e]) == Inside;
  }

  lemma EscapeIsInside(c: byte)
    ensures Strip(Inside, Escape(c)) == Escape(c) && Walk(Inside, Escape(c)) == Inside
  {
    hide Strip, Walk;
    var e := EscapeCode(c);
    if e == 0 {
      PlainInside([c]);
    } else {
      PairInside(e);
      if e == 117 {
        var digits := [ZERO, ZERO, HexDigit(c / 16), HexDigit(c % 16)];
        PlainInside(digits);
        StripAppend(Inside, [BACKSLASH, e], digits);
        assert Escape(c) == [BACKSLASH, e] + digits;
      }
    }
  }

  lemma {:induction false} EscapedIsInside(s: bytes)
    ensures Strip(Inside, EscapeAll(s)) == EscapeAll(s) && Walk(Inside, EscapeAll(s)) == Inside
  {
    if |s| > 0 {
      EscapedIsInside(s[1..]);
      StripAppend(Inside, Escape(s[0]), EscapeAll(s[1..]));
      EscapeIsInside(s[0]);
    }
  }

  lemma LiteralIsSolid(s: bytes)
    ensures Solid(Literal(s))
  {
    EscapedIsInside(s);
    StripAppend(Inside, EscapeAll(s), [QUOTE]);
    assert Literal(s)[1..] == EscapeAll(s) + [QUOTE];
    assert Strip(Inside, [QUOTE]) == [QUOTE] && Walk(Inside, [QUOTE]) == Outside;
  }

  lemma {:induction false} SpacesVanish(c: byte, n: nat)
    requires IsSpace(c)
    ensures Strip(Outside, Repeat(c, n)) == [] && Walk(Outside, Repeat(c, n)) == Outside
  {
    if n > 0 {
      SpacesVanish(c, n - 1);
      assert Repeat(c, n)[1..] == Repeat(c, n - 1);
    }
  }

  lemma NewlineStrips(depth: nat, style: Style)
    requires style.Pretty? && IsSpace(style.indentChar)
    ensures Strip(Outside, [LF] + Indent(depth, style)) == [] && Walk(Outside, [LF] + Indent(depth, style)) == Outside
  {
    SpacesVanish(style.indentChar, depth * style.indentCharCount);
    assert ([LF] + Indent(depth, style))[1..] == Indent(depth, style);
  }

  lemma OneStrips(c: byte)
    requires c != QUOTE
    ensures Walk(Outside, [c]) == Outside && Strip(Outside, [c]) == if IsSpace(c) then [] else [c]
  {
  }

  lemma StripNothing()
    ensures Strip(Outside, []) == [] && Walk(Outside, []) == Outside
  {
  }

  lemma BlankStrips(depth: nat, level: Level, style: Style)
    requires style.Pretty? && IsSpace(style.indentChar)
    ensures Strip(Outside, Blank(depth, level, style)) == [] && Walk(Outside, Blank(depth, level, style)) == Outside
  {
    NewlineStrips(depth, style);
    OneStrips(SPACE);
    StripNothing();
    hide Strip, Walk, Indent;
  }

  /** The separators of the two writers differ in whitespace only. */
  lemma LeadStrips(levels: seq<Level>, style: Style)
    requires style.Pretty? && IsSpace(style.indentChar)
    ensures Strip(Outside, Lead(levels, style)) == Lead(levels, Compact)
    ensures Walk(Outside, Lead(levels, style)) == Outside
  {
    StripNothing();
    if |levels| > 0 {
      var level := levels[|levels| - 1];
      BlankStrips(|levels|, level, style);
      OneStrips(COMMA);
      OneStrips(COLON);
      hide Strip, Walk, Indent;
      StripAppend(Outside, Mark(level), Blank(|levels|, level, style));
      assert Mark(level) + [] == Mark(level);
    }
  }

  /** p is the pretty writer's state, s the compact one's after the same events. */
  ghost predicate Mirrors(p: State, s: State) {
    && Strip(Outside, p.out) == s.out && Walk(Outside, p.out) == Outside
    && p.levels == s.levels && p.hasRoot == s.hasRoot
  }

  predicate TokenEvent(e: E) { e.OnNumber? ==> Token(e.n) }

  lemma WroteMirrors(p: State, s: State, text: bytes, style: Style)
    requires Mirrors(p, s) && Solid(text) && style.Pretty? && IsSpace(style.indentChar)
    ensures Mirrors(Wrote(p, text, style), Wrote(s, text, Compact))
  {
    LeadStrips(p.levels, style);
    hide Lead, Strip, Walk;
    StripAppend(Outside, Lead(p.levels, style), text);
    StripAppend(Outside, p.out, Lead(p.levels, style) + text);
  }

  lemma CloseStrips(depth: nat, top: Level, style: Style, bracket: byte)
    requires style.Pretty? && IsSpace(style.indentChar) && (bracket == CLOSE_BRACKET || bracket == CLOSE_BRACE)
    ensures var t := Close(depth, top, style) + [bracket];
      Strip(Outside, t) == [bracket] && Walk(Outside, t) == Outside
  {
    hide Strip, Walk, Indent;
    NewlineStrips(depth, style);
    StripNothing();
    OneStrips(bracket);
    StripAppend(Outside, Close(depth, top, style), [bracket]);
    assert [] + [bracket] == [bracket];
  }

  lemma CompactClose(depth: nat, top: Level, bracket: byte)
    ensures Close(depth, top, Compact) + [bracket] == [bracket]
  {
  }

  lemma ClosedMirrors(p: State, s: State, inArray: bool, style: Style)
    requires Mirrors(p, s) && |p.levels| > 0 && style.Pretty? && IsSpace(style.indentChar)
    ensures Mirrors(Closed(p, inArray, style), Closed(s, inArray, Compact))
  {
    var n := |p.levels| - 1;
    var bracket := if inArray then CLOSE_BRACKET else CLOSE_BRACE;
    hide Strip, Walk, Close;
    CloseStrips(n, p.levels[n], style, bracket);
    StripAppend(Outside, p.out, Close(n, p.levels[n], style) + [bracket]);
    CompactClose(n, s.levels[n], bracket);
  }

  lemma EmitMirrors(p: State, s: State, e: E, style: Style)
    requires Mirrors(p, s) && Legal(p, e) && TokenEvent(e) && style.Pretty? && IsSpace(style.indentChar)
    ensures Legal(s, e) && Mirrors(Emit(p, e, style), Emit(s, e, Compact))
  {
    var text: bytes := match e
      case OnNull => NULL_TEXT
      case OnBool(b) => if b then TRUE_TEXT else FALSE_TEXT
      case OnNumber(n) => n
      case OnString(str) => Literal(str)
      case OnKey(str) => Literal(str)
      case OnStartObject => [OPEN_BRACE]
      case OnStartArray => [OPEN_BRACKET]
      case _ => [];
    hide Strip, Walk, Lead, Close, Literal, Wrote, Closed, Solid;
    if e.OnString? || e.OnKey? { LiteralIsSolid(e.s); } else { TokenIsSolid(text); }
    if e.OnEndObject? || e.OnEndArray? {
      ClosedMirrors(p, s, e.OnEndArray?, style);
    } else {
      WroteMirrors(p, s, text, style);
    }
  }

  lemma SameLegal(p: State, s: State, e: E)
    requires Mirrors(p, s)
    ensures Legal(p, e) <==> Legal(s, e)
  {
  }

  /** For every run of events the pretty writer's output without the whitespace outside
      its string literals is the compact writer's output; a run stops one of them at a
      failed assert exactly when it stops the other. */
  lemma {:induction false} PrettyStripsToCompact(p: State, s: State, es: seq<E>, style: Style)
    requires Mirrors(p, s) && style.Pretty? && IsSpace(style.indentChar)
    requires forall i :: 0 <= i < |es| ==> TokenEvent(es[i])
    ensures EmitAll(p, es, style).Some? <==> EmitAll(s, es, Compact).Some?
    ensures EmitAll(p, es, style).Some? ==> Mirrors(EmitAll(p, es, style).value, EmitAll(s, es, Compact).value)
    decreases es
  {
    hide Mirrors, Emit;
    if |es| > 0 {
      assert Legal(p, es[0]) <==> Legal(s, es[0]) by { SameLegal(p, s, es[0]); }
      if Legal(p, es[0]) {
        EmitMirrors(p, s, es[0], style);
        PrettyStripsToCompact(Emit(p, es[0], style), Emit(s, es[0], Compact), es[1..], style);
      }
    }
  }

  // ---- values ----

  /** The JSON text of a value (RFC 8259 sections 3 to 5), with the whitespace of a style
      inside depth open brackets. */
  function PrintAt(v: V, depth: nat, style: Style): bytes
    decreases v
  {
    match v
    case Null => NULL_TEXT
    case Bool(b) => if b then TRUE_TEXT else FALSE_TEXT
    case Number(text) => text
    case String(s) => Literal(s)
    case Array(es) =>
      [OPEN_BRACKET] + (PrintElements(es, 0, depth + 1, style)
        + (Close(depth, Level(|es|, true), style) + [CLOSE_BRACKET]))
    case Object(ms) =>
      [OPEN_BRACE] + (PrintMembers(ms, 0, depth + 1, style)
        + (Close(depth, Level(2 * |ms|, false), style) + [CLOSE_BRACE]))
  }

  /** Elements from number k on. */
  function PrintElements(es: seq<V>, k: nat, depth: nat, style: Style): bytes
    decreases es
  {
    if |es| == 0 then []
    else
      var level := Level(k, true);
      Mark(level) + (Blank(depth, level, style)
        + (PrintAt(es[0], depth, style) + PrintElements(es[1..], k + 1, depth, style)))
  }

  /** A member: its name, a colon, whitespace, and its value. */
  function Named(name: bytes, blank: bytes, v: bytes): bytes { Literal(name) + ([COLON] + (blank + v)) }

  /** Members, where k names and values have gone before. */
  function PrintMembers(ms: seq<Member<bytes, bytes>>, k: nat, depth: nat, style: Style): bytes
    decreases ms
  {
    if |ms| == 0 then []
    else
      assert ms[0].value < ms[0];
      var level := Level(k, false);
      Mark(level) + (Blank(depth, level, style) + (Named(ms[0].name, Blank(depth, Level(k + 1, false), style),
        PrintAt(ms[0].value, depth, style)) + PrintMembers(ms[1..], k + 2, depth, style)))
  }

  /** The text without whitespace. */
  function Print(v: V): bytes { PrintAt(v, 0, Compact) }

  /** The state once n more values, or names and values, of text have been put in the top
      level. */
  function Within(s: State, text: bytes, n: nat): State
    requires |s.levels| > 0
  {
    var top := s.levels[|s.levels| - 1];
    State(s.out + text, s.levels[|s.levels| - 1 := top.(valueCount := top.valueCount + n)], s.hasRoot)
  }

  lemma FirstEvent(s: State, e: E, es: seq<E>, rest: seq<E>, style: Style)
    requires Legal(s, e)
    ensures EmitAll(s, ([e] + es) + rest, style) == EmitAll(Emit(s, e, style), es + rest, style)
  {
    hide Emit, Legal;
    assert (([e] + es) + rest)[0] == e && (([e] + es) + rest)[1..] == es + rest;
  }

  lemma OneEvent(s: State, e: E, rest: seq<E>, style: Style)
    requires Legal(s, e)
    ensures EmitAll(s, [e] + rest, style) == EmitAll(Emit(s, e, style), rest, style)
  {
    hide Emit, Legal;
    assert ([e] + rest)[0] == e && ([e] + rest)[1..] == rest;
  }

  lemma ClosesBack(s: State, o: State, text: bytes, n: nat, inArray: bool, style: Style)
    requires o == Opened(s, inArray, style)
    ensures var bracket := if inArray then [CLOSE_BRACKET] else [CLOSE_BRACE];
      var open := if inArray then [OPEN_BRACKET] else [OPEN_BRACE];
      var close := Close(|s.levels|, Level(n, inArray), style);
      Closed(Within(o, text, n), inArray, style) == Wrote(s, open + (text + (close + bracket)), style)
  {
    hide Lead, Close;
    var bracket := if inArray then [CLOSE_BRACKET] else [CLOSE_BRACE];
    var open := if inArray then [OPEN_BRACKET] else [OPEN_BRACE];
    var lead, close := Lead(s.levels, style), Close(|s.levels|, Level(n, inArray), style);
    assert ((s.out + (lead + open)) + text) + (close + bracket) == s.out + (lead + (open + (text + (close + bracket))));
  }

  lemma ElementStep(s: State, v: bytes, more: bytes, n: nat, style: Style)
    requires |s.levels| > 0 && s.levels[|s.levels| - 1].inArray
    ensures var top := s.levels[|s.levels| - 1];
      var w := Wrote(s, v, style);
      && |w.levels| == |s.levels| && w.levels[|w.levels| - 1] == Level(top.valueCount + 1, true)
      && Within(w, more, n) == Within(s, Mark(top) + (Blank(|s.levels|, top, style) + (v + more)), n + 1)
  {
    hide Mark, Blank;
    var top := s.levels[|s.levels| - 1];
    var mark, blank := Mark(top), Blank(|s.levels|, top, style);
    assert (s.out + ((mark + blank) + v)) + more == s.out + (mark + (blank + (v + more)));
  }

  lemma MemberText(out: bytes, mark: bytes, blank: bytes, name: bytes, blank': bytes, v: bytes, more: bytes)
    ensures ((out + ((mark + blank) + name)) + (([COLON] + blank') + v)) + more
         == out + (mark + (blank + ((name + ([COLON] + (blank' + v))) + more)))
  {
  }

  lemma MemberStep(s: State, name: bytes, v: bytes, more: bytes, n: nat, style: Style)
    requires |s.levels| > 0 && !s.levels[|s.levels| - 1].inArray && s.levels[|s.levels| - 1].valueCount % 2 == 0
    ensures var top, depth := s.levels[|s.levels| - 1], |s.levels|;
      var k := Wrote(s, Literal(name), style);
      var w := Wrote(k, v, style);
      && MayPrefix(k, false) && |k.levels| == depth
      && |w.levels| == depth && w.levels[depth - 1] == Level(top.valueCount + 2, false)
      && Within(w, more, n) == Within(s, Mark(top) + (Blank(depth, top, style)
           + (Named(name, Blank(depth, Level(top.valueCount + 1, false), style), v) + more)), n + 2)
  {
    hide Blank, Literal;
    var top := s.levels[|s.levels| - 1];
    var k := Wrote(s, Literal(name), style);
    assert k.levels[|k.levels| - 1] == Level(top.valueCount + 1, false);
    MemberText(s.out, Mark(top), Blank(|s.levels|, top, style), Literal(name),
      Blank(|s.levels|, Level(top.valueCount + 1, false), style), v, more);
  }

  lemma OpenedTop(s: State, inArray: bool, style: Style, text: bytes, n: nat, end: E)
    requires if inArray then end.OnEndArray? else end.OnEndObject? && n % 2 == 0
    ensures var o := Opened(s, inArray, style);
      |o.levels| == |s.levels| + 1 && o.levels[|s.levels|] == Level(0, inArray) && Legal(Within(o, text, n), end)
  {
    hide Lead;
  }

  /** Events that write text inside a bracket, with the brackets around them. */
  lemma Bracketed(s: State, inArray: bool, events: seq<E>, end: E, text: bytes, n: nat, rest: seq<E>, style: Style)
    requires MayPrefix(s, false) && (if inArray then end.OnEndArray? else end.OnEndObject? && n % 2 == 0)
    requires var o := Opened(s, inArray, style);
      EmitAll(o, events + ([end] + rest), style) == EmitAll(Within(o, text, n), [end] + rest, style)
    ensures var start: E := if inArray then OnStartArray else OnStartObject;
      var bracket := if inArray then [CLOSE_BRACKET] else [CLOSE_BRACE];
      var open := if inArray then [OPEN_BRACKET] else [OPEN_BRACE];
      EmitAll(s, ([start] + (events + [end])) + rest, style)
        == EmitAll(Wrote(s, open + (text + (Close(|s.levels|, Level(n, inArray), style) + bracket)), style),
             rest, style)
  {
    hide EmitAll, Lead, Close, Wrote, Within, Closed, Opened, MayPrefix, MayEnd;
    var o := Opened(s, inArray, style);
    OpenedTop(s, inArray, style, text, n, end);
    var w := Within(o, text, n);
    ClosesBack(s, o, text, n, inArray, style);
    FirstEvent(s, if inArray then OnStartArray else OnStartObject, events + [end], rest, style);
    Regroup(events, [end], rest);
    OneEvent(w, end, rest, style);
  }

  /** In any style, the events of a value write its text where a value may stand. */
  lemma {:induction false} EmitPrints(s: State, v: V, rest: seq<E>, style: Style)
    requires MayPrefix(s, v.String?)
    ensures EmitAll(s, Events(v) + rest, style) == EmitAll(Wrote(s, PrintAt(v, |s.levels|, style), style), rest, style)
    decreases v, 1
  {
    hide EmitAll, Lead, Wrote;
    match v
    case Array(es) => EmitArray(s, es, rest, style);
    case Object(ms) => EmitObject(s, ms, rest, style);
    case _ => OneEvent(s, Events(v)[0], rest, style);
  }

  lemma {:induction false} EmitArray(s: State, es: seq<V>, rest: seq<E>, style: Style)
    requires MayPrefix(s, false)
    ensures var v := Array(es);
      EmitAll(s, Events(v) + rest, style) == EmitAll(Wrote(s, PrintAt(v, |s.levels|, style), style), rest, style)
    decreases es, 2
  {
    hide ElementEvents, PrintElements, Close, EmitAll, Lead, Opened, Wrote, Within, Closed, MayPrefix;
    OpenedTop(s, true, style, [], 0, OnEndArray(0));
    EmitElements(Opened(s, true, style), es, [OnEndArray(|es|)] + rest, style);
    Bracketed(s, true, ElementEvents(es), OnEndArray(|es|), PrintElements(es, 0, |s.levels| + 1, style), |es|, rest,
      style);
  }

  lemma {:induction false} EmitObject(s: State, ms: seq<Member<bytes, bytes>>, rest: seq<E>, style: Style)
    requires MayPrefix(s, false)
    ensures var v := Object(ms);
      EmitAll(s, Events(v) + rest, style) == EmitAll(Wrote(s, PrintAt(v, |s.levels|, style), style), rest, style)
    decreases ms, 2
  {
    hide MemberEvents, PrintMembers, Close, EmitAll, Lead, Opened, Wrote, Within, Closed, MayPrefix;
    OpenedTop(s, false, style, [], 0, OnEndObject(0));
    EmitMembers(Opened(s, false, style), ms, [OnEndObject(|ms|)] + rest, style);
    Bracketed(s, false, MemberEvents(ms), OnEndObject(|ms|), PrintMembers(ms, 0, |s.levels| + 1, style), 2 * |ms|,
      rest, style);
  }

  lemma {:induction false} EmitElements(s: State, es: seq<V>, rest: seq<E>, style: Style)
    requires |s.levels| > 0 && s.levels[|s.levels| - 1].inArray
    ensures var k, depth := s.levels[|s.levels| - 1].valueCount, |s.levels|;
      EmitAll(s, ElementEvents(es) + rest, style)
        == EmitAll(Within(s, PrintElements(es, k, depth, style), |es|), rest, style)
    decreases es, 1
  {
    hide EmitAll, Lead, Mark, Blank;
    var k, depth := s.levels[|s.levels| - 1].valueCount, |s.levels|;
    if |es| == 0 {
      assert ElementEvents(es) + rest == rest && s.out + [] == s.out;
      assert Within(s, [], 0) == s;
    } else {
      assert ElementEvents(es) + rest == Events(es[0]) + (ElementEvents(es[1..]) + rest);
      EmitPrints(s, es[0], ElementEvents(es[1..]) + rest, style);
      var w := Wrote(s, PrintAt(es[0], depth, style), style);
      ElementStep(s, PrintAt(es[0], depth, style), PrintElements(es[1..], k + 1, depth, style), |es| - 1, style);
      hide Wrote, Within, EmitAll, PrintAt;
      EmitElements(w, es[1..], rest, style);
    }
  }

  lemma {:induction false} EmitMembers(s: State, ms: seq<Member<bytes, bytes>>, rest: seq<E>, style: Style)
    requires |s.levels| > 0 && !s.levels[|s.levels| - 1].inArray && s.levels[|s.levels| - 1].valueCount % 2 == 0
    ensures var k, depth := s.levels[|s.levels| - 1].valueCount, |s.levels|;
      EmitAll(s, MemberEvents(ms) + rest, style)
        == EmitAll(Within(s, PrintMembers(ms, k, depth, style), 2 * |ms|), rest, style)
    decreases ms, 1
  {
    hide EmitAll, Lead, Literal, Mark, Blank, Named;
    var count, depth := s.levels[|s.levels| - 1].valueCount, |s.levels|;
    if |ms| == 0 {
      assert MemberEvents(ms) + rest == rest && s.out + [] == s.out;
      assert Within(s, [], 0) == s;
    } else {
      assert ms[0].value < ms[0];
      var name, v := ms[0].name, ms[0].value;
      var more := MemberEvents(ms[1..]) + rest;
      FirstEvent(s, OnKey(name), Events(v) + MemberEvents(ms[1..]), rest, style);
      assert (Events(v) + MemberEvents(ms[1..])) + rest == Events(v) + more;
      var k := Wrote(s, Literal(name), style);
      MemberStep(s, name, PrintAt(v, depth, style), PrintMembers(ms[1..], count + 2, depth, style), 2 * |ms| - 2,
        style);
      EmitPrints(k, v, more, style);
      var w := Wrote(k, PrintAt(v, depth, style), style);
      hide Wrote, Within, EmitAll, PrintAt, Literal;
      EmitMembers(w, ms[1..], rest, style);
    }
  }

  // ---- the writers ----

  lemma RootLead(style: Style)
    ensures Lead([], style) == []
  {
  }

  lemma EscapePieces(s: bytes, c: byte)
    ensures var e := EscapeCode(c);
      s + Escape(c) == (if e == 0 then s + [c]
                        else if e == 117 then s + [BACKSLASH, e] + [ZERO, ZERO, HexDigit(c / 16), HexDigit(c % 16)]
                        else s + [BACKSLASH, e])
  {
  }

  /** A writer with no root yet prints the whole value. */
  lemma WritesText(s: State, v: V, style: Style)
    requires s.levels == [] && !s.hasRoot
    ensures EmitAll(s, Events(v), style) == Some(State(s.out + PrintAt(v, 0, style), [], true))
  {
    EmitPrints(s, v, [], style);
    assert Events(v) + [] == Events(v);
    assert [] + PrintAt(v, 0, style) == PrintAt(v, 0, style);
  }

  lemma EmitAllNext(s: State, es: seq<E>, i: nat, style: Style)
    requires i < |es| && EmitAll(s, es[i..], style).Some?
    ensures Legal(s, es[i]) && EmitAll(s, es[i..], style) == EmitAll(Emit(s, es[i], style), es[i + 1..], style)
  {
    assert es[i..][1..] == es[i + 1..];
  }

  // ---- the room for a literal ----

  /** PutReserve's argument, 2 + length * 6, in the 32 bits of SizeType. */
  function ReservedFor(length: uint32): uint32 { (2 + length * 6) % 0x1_0000_0000 }

  lemma {:induction false} EscapeAllFits(s: bytes)
    ensures |EscapeAll(s)| <= 6 * |s|
  {
    hide EscapeCode, HexDigit;
    if |s| > 0 { EscapeAllFits(s[1..]); }
  }

  /** A control byte that has no short form takes six bytes. */
  lemma {:induction false} EscapeAllNul(n: nat)
    ensures |EscapeAll(Repeat(NUL, n))| == 6 * n
  {
    if n > 0 {
      assert Repeat(NUL, n)[1..] == Repeat(NUL, n - 1);
      EscapeAllNul(n - 1);
    }
  }

  /** The literals of all strings of one length fit what is reserved for that length if and
      only if 2 + 6 * length has 32 bits. */
  lemma ReservationIff(length: uint32)
    ensures (forall s: bytes :: |s| == length ==> |Literal(s)| <= ReservedFor(length)) <==>
      2 + 6 * length < 0x1_0000_0000
  {
    if 2 + 6 * length < 0x1_0000_0000 {
      forall s: bytes | |s| == length ensures |Literal(s)| <= ReservedFor(length) { EscapeAllFits(s); }
    } else {
      EscapeAllNul(length);
      assert |Literal(Repeat(NUL, length))| > ReservedFor(length);
    }
  }

  lemma {:induction false} EscapeAllGrows(s: bytes)
    ensures |EscapeAll(s)| >= |s|
  {
    if |s| > 0 { EscapeAllGrows(s[1..]); }
  }

  /** Of 715827883 bytes the reservation is 4; a fresh buffer then has 256, and no string of
      that length fits. */
  lemma ShortReservation(s: bytes)
    requires |s| == 715_827_883
    ensures ReservedFor(715_827_883) == 4
    ensures |Literal(s)| > Reserved(0, 0, ReservedFor(715_827_883), DEFAULT_CAPACITY) == 256
  {
    EscapeAllGrows(s);
  }

  lemma EscapeNext(out: bytes, s: bytes, i: nat)
    requires i < |s|
    ensures out + (EscapeAll(s[i..]) + [QUOTE]) == (out + Escape(s[i])) + (EscapeAll(s[i + 1..]) + [QUOTE])
    ensures |EscapeAll(s[i..])| >= |Escape(s[i])|
  {
    hide Escape;
    assert s[i..][1..] == s[i + 1..];
    assert EscapeAll(s[i..]) == Escape(s[i]) + EscapeAll(s[i + 1..]);
  }

  /** The part of WriteString for one byte. */
  method PutEscaped(os: Buffer, c: byte) returns (inside: bool)
    requires os.Valid()
    modifies os`data
    ensures os.Valid() && (inside <==> |old(os.data)| + |Escape(c)| <= os.capacity)
    ensures inside ==> os.data == old(os.data) + Escape(c)
  {
    hide EscapeCode;
    EscapePieces(os.data, c);
    var e := EscapeCode(c);
    if e != 0 {
      inside := os.PutAllUnsafe([BACKSLASH, e]);
      if inside && e == 117 {
        inside := os.PutAllUnsafe([ZERO, ZERO, HexDigit(c / 16), HexDigit(c % 16)]);
      }
    } else {
      inside := os.PutUnsafe(c);
    }
  }

  lemma NothingEscaped(s: bytes)
    requires s == []
    ensures EscapeAll(s) == []
  {
  }

  /** WriteString, up to the first put for which there is no room. */
  method WriteString(os: Buffer, str: bytes) returns (inside: bool)
    requires os.Valid() && |str| < 0x1_0000_0000
    modifies os
    ensures os.Valid()
    ensures os.capacity == Reserved(|old(os.data)|, old(os.capacity), ReservedFor(|str|), os.initial)
    ensures inside <==> |old(os.data)| + |Literal(str)| <= os.capacity
    ensures inside ==> os.data == old(os.data) + Literal(str)
    ensures 2 + 6 * |str| < 0x1_0000_0000 ==> inside
  {
    hide Escape, EscapeAll, Reserved, ReservedFor;
    ReservationIff(|str|);
    ghost var whole := os.data + Literal(str);
    var count := ReservedFor(|str|);
    ghost var room := Reserved(|os.data|, os.capacity, count, os.initial);
    Reservation(|os.data|, os.capacity, count, os.initial);
    os.Reserve(count);
    inside := os.PutUnsafe(QUOTE);
    if !inside { return; }
    var i := 0;
    assert str[0..] == str;
    while i < |str|
      invariant i <= |str| && os.Valid() && os.capacity == room
      invariant os.data + (EscapeAll(str[i..]) + [QUOTE]) == whole
    {
      EscapeNext(os.data, str, i);
      inside := PutEscaped(os, str[i]);
      if !inside { return; }
      i := i + 1;
    }
    NothingEscaped(str[i..]);
    inside := os.PutUnsafe(QUOTE);
  }

  function More(s: State, text: bytes): State { s.(out := s.out + text) }

  lemma WroteMore(s: State, text: bytes, style: Style)
    ensures Wrote(s, text, style) == More(Wrote(s, [], style), text)
  {
    hide Lead;
    assert s.out + (Lead(s.levels, style) + text) == (s.out + (Lead(s.levels, style) + [])) + text;
  }

  lemma ArrayLead(os: bytes, levels: seq<Level>, style: Style)
    requires |levels| > 0 && levels[|levels| - 1].inArray && style.Pretty?
    ensures var comma := if levels[|levels| - 1].valueCount > 0 then os + [COMMA] else os;
      os + Lead(levels, style) ==
        if !style.singleLineArray then comma + [LF] + Indent(|levels|, style)
        else if levels[|levels| - 1].valueCount > 0 then comma + [SPACE] else comma
  {
    hide Indent;
    var n := Indent(|levels|, style);
    assert os + ([COMMA] + ([LF] + n)) == os + [COMMA] + [LF] + n && os + ([] + ([LF] + n)) == os + [LF] + n;
    assert os + ([COMMA] + [SPACE]) == os + [COMMA] + [SPACE] && os + ([] + []) == os;
  }

  lemma ObjectLead(os: bytes, levels: seq<Level>, style: Style)
    requires |levels| > 0 && !levels[|levels| - 1].inArray && style.Pretty?
    ensures var k := levels[|levels| - 1].valueCount;
      os + Lead(levels, style) ==
        if k % 2 == 1 then os + [COLON] + [SPACE]
        else (if k == 0 then os + [LF] else os + [COMMA] + [LF]) + Indent(|levels|, style)
  {
    hide Indent;
    var n := Indent(|levels|, style);
    assert os + ([COMMA] + ([LF] + n)) == os + [COMMA] + [LF] + n && os + ([] + ([LF] + n)) == os + [LF] + n;
    assert os + ([COLON] + [SPACE]) == os + [COLON] + [SPACE];
  }

  /** A string's length is a SizeType. */
  predicate Sized(e: E) { e.OnString? || e.OnKey? ==> |e.s| < 0x1_0000_0000 }

  /** The reservation for the event's string, if it has one, does not wrap. */
  predicate WellReserved(e: E) { e.OnString? || e.OnKey? ==> 2 + 6 * |e.s| < 0x1_0000_0000 }

  class Writer {
    const os: Buffer
    var levels: seq<Level>
    var hasRoot: bool

    function Now(): State
      reads this, os
    {
      State(os.data, levels, hasRoot)
    }

    constructor (os: Buffer)
      requires os.Valid()
      ensures this.os == os && Now() == State(os.data, [], false)
    {
      this.os, levels, hasRoot := os, [], false;
    }

    /** Prefix, whose asserts are its precondition. */
    method Prefix(isString: bool)
      requires os.Valid() && MayPrefix(Now(), isString)
      modifies this, os
      ensures os.Valid() && Now() == Wrote(old(Now()), [], Compact)
    {
      if |levels| != 0 {
        var level := levels[|levels| - 1];
        if level.valueCount > 0 {
          if level.inArray {
            os.Put(COMMA);
          } else {
            os.Put(if level.valueCount % 2 == 0 then COMMA else COLON);
          }
        }
        levels := levels[|levels| - 1 := level.(valueCount := level.valueCount + 1)];
      } else {
        hasRoot := true;
      }
    }

    /** String, and Key */
    method String(str: bytes) returns (inside: bool)
      requires os.Valid() && MayPrefix(Now(), true) && |str| < 0x1_0000_0000
      modifies this, os
      ensures os.Valid() && (inside <==> |Wrote(old(Now()), Literal(str), Compact).out| <= os.capacity)
      ensures inside ==> Now() == Wrote(old(Now()), Literal(str), Compact)
      ensures 2 + 6 * |str| < 0x1_0000_0000 ==> inside
    {
      hide Wrote, Literal;
      WroteMore(Now(), Literal(str), Compact);
      Prefix(true);
      inside := WriteString(os, str);
    }

    /** One handler call. */
    method Handle(e: E) returns (inside: bool)
      requires os.Valid() && Legal(Now(), e) && Sized(e)
      modifies this, os
      ensures os.Valid() && (inside <==> |Emit(old(Now()), e, Compact).out| <= os.capacity)
      ensures inside ==> Now() == Emit(old(Now()), e, Compact)
      ensures WellReserved(e) ==> inside
    {
      hide Wrote, Lead, Literal;
      forall text ensures Wrote(Now(), text, Compact) == More(Wrote(Now(), [], Compact), text) {
        WroteMore(Now(), text, Compact);
      }
      inside := true;
      match e {
        case OnNull => Prefix(false); os.Write(NULL_TEXT);
        case OnBool(b) => Prefix(false); os.Write(if b then TRUE_TEXT else FALSE_TEXT);
        case OnNumber(text) => Prefix(false); os.Write(text);
        case OnString(str) => inside := String(str);
        case OnKey(str) => inside := String(str);
        case OnStartObject => Prefix(false); levels := levels + [Level(0, false)]; os.Put(OPEN_BRACE);
        case OnEndObject(_) => levels := levels[..|levels| - 1]; os.Put(CLOSE_BRACE);
        case OnStartArray => Prefix(false); levels := levels + [Level(0, true)]; os.Put(OPEN_BRACKET);
        case OnEndArray(_) => levels := levels[..|levels| - 1]; os.Put(CLOSE_BRACKET);
      }
    }

    /** What Accept makes of a value on a writer that has no root yet. */
    method Accept(v: V) returns (inside: bool)
      requires os.Valid() && levels == [] && !hasRoot && forall e :: e in Events(v) ==> Sized(e)
      modifies this, os
      ensures os.Valid()
      ensures inside ==> Now() == State(old(os.data) + PrintAt(v, 0, Compact), [], true)
      ensures (forall e :: e in Events(v) ==> WellReserved(e)) ==> inside
    {
      hide PrintAt, Events, Emit, Legal, Sized, WellReserved;
      ghost var goal := Some(State(os.data + PrintAt(v, 0, Compact), [], true));
      WritesText(Now(), v, Compact);
      var es := Events(v);
      assert es[0..] == es;
      for i := 0 to |es|
        invariant os.Valid() && EmitAll(Now(), es[i..], Compact) == goal
      {
        EmitAllNext(Now(), es, i, Compact);
        inside := Handle(es[i]);
        if !inside { return false; }
      }
      return true;
    }
  }

  class PrettyWriter {
    const os: Buffer
    var levels: seq<Level>
    var hasRoot: bool
    const indentChar: byte
    const indentCharCount: nat
    const singleLineArray: bool

    function Now(): State
      reads this, os
    {
      State(os.data, levels, hasRoot)
    }

    function Format(): (f: Style)
      ensures f.Pretty?
    {
      Pretty(indentChar, indentCharCount, singleLineArray)
    }

    constructor (os: Buffer, indentChar: byte, indentCharCount: nat, singleLineArray: bool)
      requires IsSpace(indentChar) && os.Valid()
      ensures this.os == os && Now() == State(os.data, [], false)
      ensures Format() == Pretty(indentChar, indentCharCount, singleLineArray)
    {
      this.os, levels, hasRoot := os, [], false;
      this.indentChar, this.indentCharCount, this.singleLineArray := indentChar, indentCharCount, singleLineArray;
    }

    /** WriteIndent */
    method WriteIndent()
      requires os.Valid()
      modifies os
      ensures os.Valid() && os.data == old(os.data) + Indent(|levels|, Format())
    {
      os.PutN(indentChar, |levels| * indentCharCount);
    }

    /** PrettyPrefix inside an array. */
    method ArrayPrefix(level: Level)
      requires os.Valid() && |levels| > 0 && level == levels[|levels| - 1] && level.inArray
      modifies os
      ensures os.Valid() && os.data == old(os.data) + Lead(levels, Format())
    {
      ArrayLead(os.data, levels, Format());
      hide Indent, Lead;
      if level.valueCount > 0 {
        os.Put(COMMA);
        if singleLineArray { os.Put(SPACE); }
      }
      if !singleLineArray {
        os.Put(LF);
        WriteIndent();
      }
    }

    /** PrettyPrefix inside an object. */
    method ObjectPrefix(level: Level)
      requires os.Valid() && |levels| > 0 && level == levels[|levels| - 1] && !level.inArray
      modifies os
      ensures os.Valid() && os.data == old(os.data) + Lead(levels, Format())
    {
      ObjectLead(os.data, levels, Format());
      hide Indent, Lead;
      if level.valueCount > 0 {
        if level.valueCount % 2 == 0 {
          os.Put(COMMA);
          os.Put(LF);
        } else {
          os.Put(COLON);
          os.Put(SPACE);
        }
      } else {
        os.Put(LF);
      }
      if level.valueCount % 2 == 0 { WriteIndent(); }
    }

    method PrettyPrefix(isString: bool)
      requires os.Valid() && MayPrefix(Now(), isString)
      modifies this, os
      ensures os.Valid() && Now() == Wrote(old(Now()), [], Format())
    {
      hide Lead;
      if |levels| != 0 {
        var level := levels[|levels| - 1];
        if level.inArray { ArrayPrefix(level); } else { ObjectPrefix(level); }
        levels := levels[|levels| - 1 := level.(valueCount := level.valueCount + 1)];
      } else {
        assert Lead(levels, Format()) == [] by { RootLead(Format()); }
        hasRoot := true;
      }
    }

    /** EndObject and EndArray up to the bracket. */
    method PopLevel(inArray: bool)
      requires os.Valid() && MayEnd(Now(), inArray)
      modifies this`levels, os
      ensures levels == old(levels)[..|old(levels)| - 1]
      ensures os.Valid() && os.data == old(os.data) + Close(|levels|, old(levels)[|levels|], Format())
    {
      var empty := levels[|levels| - 1].valueCount == 0;
      levels := levels[..|levels| - 1];
      if !empty && !(inArray && singleLineArray) {
        os.Put(LF);
        WriteIndent();
      }
    }

    /** String, and Key */
    method String(str: bytes) returns (inside: bool)
      requires os.Valid() && MayPrefix(Now(), true) && |str| < 0x1_0000_0000
      modifies this, os
      ensures os.Valid() && (inside <==> |Wrote(old(Now()), Literal(str), Format()).out| <= os.capacity)
      ensures inside ==> Now() == Wrote(old(Now()), Literal(str), Format())
      ensures 2 + 6 * |str| < 0x1_0000_0000 ==> inside
    {
      hide Wrote, Literal;
      WroteMore(Now(), Literal(str), Format());
      PrettyPrefix(true);
      inside := WriteString(os, str);
    }

    method Handle(e: E) returns (inside: bool)
      requires os.Valid() && Legal(Now(), e) && Sized(e)
      modifies this, os
      ensures os.Valid() && (inside <==> |Emit(old(Now()), e, Format()).out| <= os.capacity)
      ensures inside ==> Now() == Emit(old(Now()), e, Format())
      ensures WellReserved(e) ==> inside
    {
      hide Wrote, Lead, Literal, Close;
      forall text ensures Wrote(Now(), text, Format()) == More(Wrote(Now(), [], Format()), text) {
        WroteMore(Now(), text, Format());
      }
      inside := true;
      match e {
        case OnNull => PrettyPrefix(false); os.Write(NULL_TEXT);
        case OnBool(b) => PrettyPrefix(false); os.Write(if b then TRUE_TEXT else FALSE_TEXT);
        case OnNumber(text) => PrettyPrefix(false); os.Write(text);
        case OnString(str) => inside := String(str);
        case OnKey(str) => inside := String(str);
        case OnStartObject => PrettyPrefix(false); levels := levels + [Level(0, false)]; os.Put(OPEN_BRACE);
        case OnEndObject(_) => PopLevel(false); os.Put(CLOSE_BRACE);
        case OnStartArray => PrettyPrefix(false); levels := levels + [Level(0, true)]; os.Put(OPEN_BRACKET);
        case OnEndArray(_) => PopLevel(true); os.Put(CLOSE_BRACKET);
      }
    }

    /** What Accept makes of a value on a writer that has no root yet. */
    method Accept(v: V) returns (inside: bool)
      requires os.Valid() && levels == [] && !hasRoot && forall e :: e in Events(v) ==> Sized(e)
      modifies this, os
      ensures os.Valid()
      ensures inside ==> Now() == State(old(os.data) + PrintAt(v, 0, Format()), [], true)
      ensures (forall e :: e in Events(v) ==> WellReserved(e)) ==> inside
    {
      hide PrintAt, Events, Emit, Legal, Sized, WellReserved;
      ghost var goal := Some(State(os.data + PrintAt(v, 0, Format()), [], true));
      WritesText(Now(), v, Format());
      var es := Events(v);
      assert es[0..] == es;
      for i := 0 to |es|
        invariant os.Valid() && EmitAll(Now(), es[i..], Format()) == goal
      {
        EmitAllNext(Now(), es, i, Format());
        inside := Handle(es[i]);
        if !inside { return false; }
      }
      return true;
    }
  }
}
