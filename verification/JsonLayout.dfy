/** The layout of the pretty writer, as a rule for rewriting a compact text character by
    character. Character codes are written as characters. */
module JsonLayout {
  import opened Bytes
  import opened JsonValue
  import opened JsonText
  import opened JsonWriter
  import opened JsonGrammar

  datatype Spot = Outer | Quoted | Slashed

  /** A line break and one indent for every open bracket. */
  function NewLine(depth: nat, style: Style): bytes
    requires style.Pretty?
  {
    ['\n' as int] + seq(depth * style.indentCharCount, _ => style.indentChar)
  }

  /** The innermost bracket is an array's, and arrays stay in their line. */
  predicate OneLine(open: seq<bool>, style: Style)
    requires style.Pretty?
  {
    |open| > 0 && open[|open| - 1] && style.singleLineArray
  }

  function AfterOpening(open: seq<bool>, style: Style): bytes
    requires style.Pretty?
  {
    if OneLine(open, style) then [] else NewLine(|open|, style)
  }

  function AfterComma(open: seq<bool>, style: Style): bytes
    requires style.Pretty?
  {
    if OneLine(open, style) then [' ' as int] else NewLine(|open|, style)
  }

  function BeforeClosing(open: seq<bool>, style: Style): bytes
    requires style.Pretty? && |open| > 0
  {
    if OneLine(open, style) then [] else NewLine(|open| - 1, style)
  }

  predicate Opens(c: byte) { c == '[' as int || c == '{' as int }
  predicate Closes(c: byte) { c == ']' as int || c == '}' as int }

  /** Line breaks and indents behind opening brackets and commas and before closing brackets,
      but for empty arrays and objects; a space behind a colon. open tells for every open
      bracket whether it is an array's. */
  function Reformat(t: bytes, s: Spot, open: seq<bool>, style: Style): bytes
    requires style.Pretty?
    decreases |t|
  {
    if |t| == 0 then []
    else
      var c := t[0];
      if s.Slashed? then [c] + Reformat(t[1..], Quoted, open, style)
      else if s.Quoted? then
        [c] + Reformat(t[1..], if c == '\\' as int then Slashed else if c == '"' as int then Outer
          else Quoted, open, style)
      else if Opens(c) && |t| > 1 && Closes(t[1]) then [c, t[1]] + Reformat(t[2..], Outer, open, style)
      else if Opens(c) then
        var inside := open + [c == '[' as int];
        [c] + (AfterOpening(inside, style) + Reformat(t[1..], Outer, inside, style))
      else if Closes(c) && |open| > 0 then
        BeforeClosing(open, style) + ([c] + Reformat(t[1..], Outer, open[..|open| - 1], style))
      else if c == ',' as int then [c] + (AfterComma(open, style) + Reformat(t[1..], Outer, open, style))
      else if c == ':' as int then [c] + ([' ' as int] + Reformat(t[1..], Outer, open, style))
      else [c] + Reformat(t[1..], if c == '"' as int then Quoted else Outer, open, style)
  }

  predicate Ordinary(c: byte) {
    !Opens(c) && !Closes(c) && c != ',' as int && c != ':' as int && c != '"' as int
  }

  lemma {:induction false} OrdinaryText(t: bytes, rest: bytes, open: seq<bool>, style: Style)
    requires style.Pretty? && forall i :: 0 <= i < |t| ==> Ordinary(t[i])
    ensures Reformat(t + rest, Outer, open, style) == t + Reformat(rest, Outer, open, style)
  {
    if |t| == 0 {
      assert t + rest == rest && t + Reformat(rest, Outer, open, style) == Reformat(rest, Outer, open, style);
    } else {
      assert (t + rest)[1..] == t[1..] + rest;
      OrdinaryText(t[1..], rest, open, style);
      Regroup([t[0]], t[1..], Reformat(rest, Outer, open, style));
      assert [t[0]] + t[1..] == t;
    }
  }

  lemma {:induction false} QuotedRun(t: bytes, rest: bytes, open: seq<bool>, style: Style)
    requires style.Pretty? && forall i :: 0 <= i < |t| ==> t[i] != '"' as int && t[i] != '\\' as int
    ensures Reformat(t + rest, Quoted, open, style) == t + Reformat(rest, Quoted, open, style)
  {
    if |t| == 0 {
      assert t + rest == rest && t + Reformat(rest, Quoted, open, style) == Reformat(rest, Quoted, open, style);
    } else {
      assert (t + rest)[1..] == t[1..] + rest;
      QuotedRun(t[1..], rest, open, style);
      Regroup([t[0]], t[1..], Reformat(rest, Quoted, open, style));
      assert [t[0]] + t[1..] == t;
    }
  }

  lemma PairKept(e: byte, y: bytes, open: seq<bool>, style: Style)
    requires style.Pretty?
    ensures Reformat([BACKSLASH, e] + y, Quoted, open, style) == [BACKSLASH, e] + Reformat(y, Quoted, open, style)
  {
    var t := [BACKSLASH, e] + y;
    assert t[1..][0] == e && t[1..][1..] == y;
    var r := Reformat(y, Quoted, open, style);
    assert Reformat(t[1..], Slashed, open, style) == [e] + r;
    assert [BACKSLASH] + ([e] + r) == [BACKSLASH, e] + r;
  }

  lemma EscapedKept(c: byte, rest: bytes, open: seq<bool>, style: Style)
    requires style.Pretty?
    ensures Reformat(Escape(c) + rest, Quoted, open, style) == Escape(c) + Reformat(rest, Quoted, open, style)
  {
    hide Reformat;
    var e := EscapeCode(c);
    if e == 0 {
      QuotedRun([c], rest, open, style);
    } else if e == 117 {
      var digits := [ZERO, ZERO, HexDigit(c / 16), HexDigit(c % 16)];
      assert Escape(c) == [BACKSLASH, e] + digits;
      PairKept(e, digits + rest, open, style);
      QuotedRun(digits, rest, open, style);
      Regroup([BACKSLASH, e], digits, rest);
      Regroup([BACKSLASH, e], digits, Reformat(rest, Quoted, open, style));
    } else {
      PairKept(e, rest, open, style);
    }
  }

  lemma {:induction false} LiteralBodyKept(s: bytes, rest: bytes, open: seq<bool>, style: Style)
    requires style.Pretty?
    ensures Reformat(EscapeAll(s) + ([QUOTE] + rest), Quoted, open, style)
      == EscapeAll(s) + ([QUOTE] + Reformat(rest, Outer, open, style))
  {
    hide Escape;
    var t, r := [QUOTE] + rest, [QUOTE] + Reformat(rest, Outer, open, style);
    if |s| == 0 {
      assert [] + t == t && [] + r == r && t[1..] == rest;
    } else {
      LiteralBodyKept(s[1..], rest, open, style);
      EscapedKept(s[0], EscapeAll(s[1..]) + t, open, style);
      Regroup(Escape(s[0]), EscapeAll(s[1..]), t);
      Regroup(Escape(s[0]), EscapeAll(s[1..]), r);
    }
  }

  lemma QuoteOpens(t: bytes, open: seq<bool>, style: Style)
    requires style.Pretty?
    ensures Reformat([QUOTE] + t, Outer, open, style) == [QUOTE] + Reformat(t, Quoted, open, style)
  {
    assert ([QUOTE] + t)[1..] == t;
  }

  /** A string literal is kept. */
  lemma LiteralKept(s: bytes, rest: bytes, open: seq<bool>, style: Style)
    requires style.Pretty?
    ensures Reformat(Literal(s) + rest, Outer, open, style) == Literal(s) + Reformat(rest, Outer, open, style)
  {
    hide EscapeAll, Reformat;
    var t, r := [QUOTE] + rest, Reformat(rest, Outer, open, style);
    LiteralBodyKept(s, rest, open, style);
    QuoteOpens(EscapeAll(s) + t, open, style);
    assert Literal(s) + rest == [QUOTE] + (EscapeAll(s) + t);
    assert Literal(s) + r == [QUOTE] + (EscapeAll(s) + ([QUOTE] + r));
  }

  lemma {:induction false} RepeatIs(c: byte, n: nat)
    ensures Repeat(c, n) == seq(n, _ => c)
  {
    if n > 0 { RepeatIs(c, n - 1); }
  }

  lemma NewLineIs(depth: nat, style: Style)
    requires style.Pretty?
    ensures NewLine(depth, style) == [LF] + Indent(depth, style)
  {
    RepeatIs(style.indentChar, depth * style.indentCharCount);
  }

  /** What stands at the front of a value's text is no closing bracket. */
  lemma ValueStarts(v: V, depth: nat)
    requires Writable(v)
    ensures var t := PrintAt(v, depth, Compact); |t| > 0 && !Closes(t[0])
  {
  }

  lemma {:induction false} ReformatsValue(v: V, d: nat, rest: bytes, open: seq<bool>, style: Style)
    requires Writable(v) && style.Pretty?
    ensures Reformat(PrintAt(v, d, Compact) + rest, Outer, open, style)
      == PrintAt(v, |open|, style) + Reformat(rest, Outer, open, style)
    decreases v, 1
  {
    hide Reformat, Literal;
    match v
    case Null => OrdinaryText(NULL_TEXT, rest, open, style);
    case Bool(b) => OrdinaryText(if b then TRUE_TEXT else FALSE_TEXT, rest, open, style);
    case Number(text) => OrdinaryText(text, rest, open, style);
    case String(s) => LiteralKept(s, rest, open, style);
    case Array(es) => ReformatsArray(es, d, rest, open, style);
    case Object(ms) => ReformatsObject(ms, d, rest, open, style);
  }

  lemma EmptyKept(c: byte, e: byte, rest: bytes, open: seq<bool>, style: Style)
    requires style.Pretty? && Opens(c) && Closes(e)
    ensures Reformat([c, e] + rest, Outer, open, style) == [c, e] + Reformat(rest, Outer, open, style)
  {
    assert ([c, e] + rest)[2..] == rest;
  }

  lemma OpeningBreaks(c: byte, t: bytes, open: seq<bool>, style: Style)
    requires style.Pretty? && Opens(c) && |t| > 0 && !Closes(t[0])
    ensures var inside := open + [c == '[' as int];
      Reformat([c] + t, Outer, open, style) == [c] + (AfterOpening(inside, style) + Reformat(t, Outer, inside, style))
  {
    assert ([c] + t)[1..] == t && ([c] + t)[1] == t[0];
  }

  lemma ClosingBreaks(c: byte, t: bytes, open: seq<bool>, style: Style)
    requires style.Pretty? && Closes(c) && |open| > 0
    ensures Reformat([c] + t, Outer, open, style)
      == BeforeClosing(open, style) + ([c] + Reformat(t, Outer, open[..|open| - 1], style))
  {
    assert ([c] + t)[1..] == t;
  }

  lemma CommaBreaks(t: bytes, open: seq<bool>, style: Style)
    requires style.Pretty?
    ensures Reformat([COMMA] + t, Outer, open, style)
      == [COMMA] + (AfterComma(open, style) + Reformat(t, Outer, open, style))
    ensures Reformat([COLON] + t, Outer, open, style) == [COLON] + ([SPACE] + Reformat(t, Outer, open, style))
  {
    assert ([COMMA] + t)[1..] == t && ([COLON] + t)[1..] == t;
  }

  /** The whitespace of the style is that of the rule. */
  lemma BlanksAgree(open: seq<bool>, k: nat, style: Style)
    requires style.Pretty? && |open| > 0
    ensures var inArray := open[|open| - 1];
      var level := Level(k, inArray);
      && (k == 0 ==> Mark(level) == [] && Blank(|open|, level, style) == AfterOpening(open, style))
      && (k > 0 && (inArray || k % 2 == 0) ==>
            Mark(level) == [COMMA] && Blank(|open|, level, style) == AfterComma(open, style))
      && (!inArray && k % 2 == 1 ==> Mark(level) == [COLON] && Blank(|open|, level, style) == [SPACE])
      && (k > 0 ==> Close(|open| - 1, level, style) == BeforeClosing(open, style))
  {
    hide Indent;
    NewLineIs(|open|, style);
    NewLineIs(|open| - 1, style);
  }

  lemma ElementsStart(es: seq<V>, depth: nat)
    requires AllWritable(es) && |es| > 0
    ensures var t := PrintElements(es, 0, depth, Compact); |t| > 0 && !Closes(t[0])
  {
    ValueStarts(es[0], depth);
    hide PrintAt;
    assert PrintElements(es, 0, depth, Compact)
      == PrintAt(es[0], depth, Compact) + PrintElements(es[1..], 1, depth, Compact);
  }

  lemma CompactLead(k: nat, d: nat)
    ensures Blank(d, Level(k, true), Compact) == [] && Blank(d, Level(k, false), Compact) == []
    ensures Mark(Level(k, true)) == if k == 0 then [] else [COMMA]
    ensures Mark(Level(k, false)) == if k == 0 then [] else if k % 2 == 0 then [COMMA] else [COLON]
  {
  }

  lemma ElementTexts(es: seq<V>, k: nat, d: nat, rest: bytes, depth: nat, style: Style, r: bytes)
    requires |es| > 0
    ensures PrintElements(es, k, d, Compact) + rest
      == Mark(Level(k, true)) + (PrintAt(es[0], d, Compact) + (PrintElements(es[1..], k + 1, d, Compact) + rest))
    ensures PrintElements(es, k, depth, style) + r
      == Mark(Level(k, true)) + (Blank(depth, Level(k, true), style)
           + (PrintAt(es[0], depth, style) + (PrintElements(es[1..], k + 1, depth, style) + r)))
  {
    hide PrintAt, Mark, Blank;
    CompactLead(k, d);
    var mark := Mark(Level(k, true));
    assert mark + ([] + (PrintAt(es[0], d, Compact) + PrintElements(es[1..], k + 1, d, Compact))) + rest
      == mark + (PrintAt(es[0], d, Compact) + (PrintElements(es[1..], k + 1, d, Compact) + rest));
    assert mark + (Blank(depth, Level(k, true), style)
        + (PrintAt(es[0], depth, style) + PrintElements(es[1..], k + 1, depth, style))) + r
      == mark + (Blank(depth, Level(k, true), style)
           + (PrintAt(es[0], depth, style) + (PrintElements(es[1..], k + 1, depth, style) + r)));
  }

  /** Elements, behind the opening bracket or other elements. */
  lemma {:induction false} ReformatsElements(es: seq<V>, k: nat, d: nat, rest: bytes, open: seq<bool>, style: Style)
    requires AllWritable(es) && style.Pretty? && |open| > 0 && open[|open| - 1]
    ensures var t := Reformat(PrintElements(es, k, d, Compact) + rest, Outer, open, style);
      (if k == 0 && |es| > 0 then AfterOpening(open, style) + t else t)
        == PrintElements(es, k, |open|, style) + Reformat(rest, Outer, open, style)
    decreases es, 0
  {
    hide Reformat, PrintAt, Blank, Mark, AfterOpening, AfterComma;
    var r := Reformat(rest, Outer, open, style);
    if |es| == 0 {
      assert [] + rest == rest && [] + r == r;
    } else {
      var level := Level(k, true);
      var first, more := PrintAt(es[0], d, Compact), PrintElements(es[1..], k + 1, d, Compact);
      var text, others := PrintAt(es[0], |open|, style), PrintElements(es[1..], k + 1, |open|, style);
      ReformatsValue(es[0], d, more + rest, open, style);
      ReformatsElements(es[1..], k + 1, d, rest, open, style);
      ElementTexts(es, k, d, rest, |open|, style, r);
      BlanksAgree(open, k, style);
      CompactLead(k, d);
      CommaBreaks(first + (more + rest), open, style);
      assert [] + (first + (more + rest)) == first + (more + rest);
      var tail := Blank(|open|, level, style) + (text + (others + r));
      assert [] + tail == tail;
    }
  }

  lemma MembersStart(ms: seq<Member<bytes, bytes>>, depth: nat)
    requires |ms| > 0
    ensures var t := PrintMembers(ms, 0, depth, Compact); |t| > 0 && !Closes(t[0])
  {
    hide PrintAt, EscapeAll;
  }

  lemma Spread(mark: bytes, blank: bytes, name: bytes, inner: bytes, v: bytes, more: bytes, rest: bytes)
    ensures (mark + (blank + ((name + ([COLON] + (inner + v))) + more))) + rest
      == mark + (blank + (name + ([COLON] + (inner + (v + (more + rest))))))
  {
    Regroup(inner, v, more + rest);
    Regroup([COLON], inner + v, more + rest);
    Regroup(name, [COLON] + (inner + v), more + rest);
    Regroup(name + ([COLON] + (inner + v)), more, rest);
    Regroup(blank, (name + ([COLON] + (inner + v))) + more, rest);
    Regroup(mark, blank + ((name + ([COLON] + (inner + v))) + more), rest);
  }

  lemma MemberTexts(ms: seq<Member<bytes, bytes>>, k: nat, d: nat, rest: bytes, depth: nat, style: Style, r: bytes)
    requires |ms| > 0
    ensures var name, v := ms[0].name, ms[0].value;
      PrintMembers(ms, k, d, Compact) + rest
        == Mark(Level(k, false)) + (Literal(name) + ([COLON]
             + (PrintAt(v, d, Compact) + (PrintMembers(ms[1..], k + 2, d, Compact) + rest))))
    ensures var name, v := ms[0].name, ms[0].value;
      PrintMembers(ms, k, depth, style) + r
        == Mark(Level(k, false)) + (Blank(depth, Level(k, false), style) + (Literal(name) + ([COLON]
             + (Blank(depth, Level(k + 1, false), style)
                + (PrintAt(v, depth, style) + (PrintMembers(ms[1..], k + 2, depth, style) + r))))))
  {
    hide PrintAt, Mark, Blank, Literal;
    CompactLead(k, d);
    CompactLead(k + 1, d);
    var name, v := ms[0].name, ms[0].value;
    Spread(Mark(Level(k, false)), [], Literal(name), [], PrintAt(v, d, Compact),
      PrintMembers(ms[1..], k + 2, d, Compact), rest);
    Spread(Mark(Level(k, false)), Blank(depth, Level(k, false), style), Literal(name),
      Blank(depth, Level(k + 1, false), style), PrintAt(v, depth, style),
      PrintMembers(ms[1..], k + 2, depth, style), r);
    var w := Literal(name) + ([COLON]
      + ([] + (PrintAt(v, d, Compact) + (PrintMembers(ms[1..], k + 2, d, Compact) + rest))));
    assert [] + w == w;
    var x := PrintAt(v, d, Compact) + (PrintMembers(ms[1..], k + 2, d, Compact) + rest);
    assert [] + x == x;
  }

  /** Members, behind the opening bracket or other members. */
  lemma {:induction false} ReformatsMembers(ms: seq<Member<bytes, bytes>>, k: nat, d: nat, rest: bytes,
                                            open: seq<bool>, style: Style)
    requires MembersWritable(ms) && style.Pretty? && |open| > 0 && !open[|open| - 1] && k % 2 == 0
    ensures var t := Reformat(PrintMembers(ms, k, d, Compact) + rest, Outer, open, style);
      (if k == 0 && |ms| > 0 then AfterOpening(open, style) + t else t)
        == PrintMembers(ms, k, |open|, style) + Reformat(rest, Outer, open, style)
    decreases ms, 0
  {
    hide Reformat, PrintAt, Blank, Mark, AfterOpening, AfterComma, Literal, Named;
    var r := Reformat(rest, Outer, open, style);
    if |ms| == 0 {
      assert [] + rest == rest && [] + r == r;
    } else {
      assert ms[0].value < ms[0];
      var name, v := ms[0].name, ms[0].value;
      var level, inner := Level(k, false), Blank(|open|, Level(k + 1, false), style);
      var first, more := PrintAt(v, d, Compact), PrintMembers(ms[1..], k + 2, d, Compact);
      var text, others := PrintAt(v, |open|, style), PrintMembers(ms[1..], k + 2, |open|, style);
      ReformatsValue(v, d, more + rest, open, style);
      ReformatsMembers(ms[1..], k + 2, d, rest, open, style);
      CommaBreaks(first + (more + rest), open, style);
      LiteralKept(name, [COLON] + (first + (more + rest)), open, style);
      CommaBreaks(Literal(name) + ([COLON] + (first + (more + rest))), open, style);
      MemberTexts(ms, k, d, rest, |open|, style, r);
      BlanksAgree(open, k, style);
      BlanksAgree(open, k + 1, style);
      CompactLead(k, d);
      var compact := Literal(name) + ([COLON] + (first + (more + rest)));
      var tail := Blank(|open|, level, style) + (Literal(name) + ([COLON] + (inner + (text + (others + r)))));
      assert [] + compact == compact && [] + tail == tail;
    }
  }

  /** A bracket, what it holds, and the closing bracket. */
  lemma ReformatsBracketed(c: byte, e: byte, body: bytes, made: bytes, rest: bytes, open: seq<bool>, style: Style)
    requires style.Pretty? && Opens(c) && Closes(e) && |body| > 0 && !Closes(body[0])
    requires var inside := open + [c == '[' as int];
      var tail := [e] + rest;
      AfterOpening(inside, style) + Reformat(body + tail, Outer, inside, style)
        == made + Reformat(tail, Outer, inside, style)
    ensures var inside := open + [c == '[' as int];
      Reformat(([c] + (body + [e])) + rest, Outer, open, style)
        == ([c] + (made + (BeforeClosing(inside, style) + [e]))) + Reformat(rest, Outer, open, style)
  {
    hide Reformat, AfterOpening, BeforeClosing;
    var inside, tail := open + [c == '[' as int], [e] + rest;
    OpeningBreaks(c, body + tail, open, style);
    ClosingBreaks(e, rest, inside, style);
    assert inside[..|inside| - 1] == open;
    assert ([c] + (body + [e])) + rest == [c] + (body + tail);
    var r := Reformat(rest, Outer, open, style);
    assert ([c] + (made + (BeforeClosing(inside, style) + [e]))) + r
      == [c] + (made + (BeforeClosing(inside, style) + ([e] + r)));
  }

  lemma NoElements(d: nat, depth: nat, style: Style)
    ensures PrintAt(Array([]), d, Compact) == PrintAt(Array([]), depth, style) == [OPEN_BRACKET, CLOSE_BRACKET]
    ensures PrintAt(Object([]), d, Compact) == PrintAt(Object([]), depth, style) == [OPEN_BRACE, CLOSE_BRACE]
  {
  }

  lemma {:induction false} ReformatsArray(es: seq<V>, d: nat, rest: bytes, open: seq<bool>, style: Style)
    requires AllWritable(es) && style.Pretty?
    ensures var v := Array(es);
      Reformat(PrintAt(v, d, Compact) + rest, Outer, open, style)
        == PrintAt(v, |open|, style) + Reformat(rest, Outer, open, style)
    decreases es, 2
  {
    hide Reformat, Indent, AfterOpening, BeforeClosing, PrintElements;
    if |es| == 0 {
      EmptyKept(OPEN_BRACKET, CLOSE_BRACKET, rest, open, style);
      NoElements(d, |open|, style);
    } else {
      var inside := open + [true];
      ElementsStart(es, d + 1);
      ReformatsElements(es, 0, d + 1, [CLOSE_BRACKET] + rest, inside, style);
      ReformatsBracketed(OPEN_BRACKET, CLOSE_BRACKET, PrintElements(es, 0, d + 1, Compact),
        PrintElements(es, 0, |open| + 1, style), rest, open, style);
      BlanksAgree(inside, |es|, style);
      assert [] + [CLOSE_BRACKET] == [CLOSE_BRACKET];
    }
  }

  lemma {:induction false} ReformatsObject(ms: seq<Member<bytes, bytes>>, d: nat, rest: bytes, open: seq<bool>,
                                           style: Style)
    requires MembersWritable(ms) && style.Pretty?
    ensures var v := Object(ms);
      Reformat(PrintAt(v, d, Compact) + rest, Outer, open, style)
        == PrintAt(v, |open|, style) + Reformat(rest, Outer, open, style)
    decreases ms, 2
  {
    hide Reformat, Indent, AfterOpening, BeforeClosing, PrintMembers;
    if |ms| == 0 {
      EmptyKept(OPEN_BRACE, CLOSE_BRACE, rest, open, style);
      NoElements(d, |open|, style);
    } else {
      var inside := open + [false];
      MembersStart(ms, d + 1);
      ReformatsMembers(ms, 0, d + 1, [CLOSE_BRACE] + rest, inside, style);
      ReformatsBracketed(OPEN_BRACE, CLOSE_BRACE, PrintMembers(ms, 0, d + 1, Compact),
        PrintMembers(ms, 0, |open| + 1, style), rest, open, style);
      BlanksAgree(inside, 2 * |ms|, style);
      assert [] + [CLOSE_BRACE] == [CLOSE_BRACE];
    }
  }

  /** The pretty text of a value is its compact text, rewritten by the rule. */
  lemma PrettyIsReformatted(v: V, style: Style)
    requires Writable(v) && style.Pretty?
    ensures PrintAt(v, 0, style) == Reformat(Print(v), Outer, [], style)
  {
    ReformatsValue(v, 0, [], [], style);
    hide PrintAt;
    assert Print(v) + [] == Print(v) && PrintAt(v, 0, style) + [] == PrintAt(v, 0, style);
  }
}
