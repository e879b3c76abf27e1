/** What the writers print, read back by RFC 8259, denotes the value they were given. */
module JsonGrammar {
  import opened Bytes
  import opened JsonValue
  import opened JsonText
  import opened JsonWriter
  import Utf

  // ---- strings ----

  lemma EscapeReads(c: byte, rest: bytes)
    requires EscapeCode(c) != 0
    ensures Escape(c) != [] && (Escape(c) + rest)[0] == BACKSLASH
    ensures ReadEscape(Escape(c) + rest) == Some(([c], |Escape(c)|))
  {
    var t := Escape(c) + rest;
    assert t[0] == BACKSLASH && t[1] == EscapeCode(c);
    if EscapeCode(c) == 117 {
      assert t[2] == ZERO && t[3] == ZERO && t[4] == HexDigit(c / 16) && t[5] == HexDigit(c % 16);
    }
  }

  /** How the writers put each byte of a string that has a short escape, or none. */
  lemma EscapeTable(c: byte)
    ensures c == '"' as int ==> Escape(c) == Ascii("\\\"")
    ensures c == '\\' as int ==> Escape(c) == Ascii("\\\\")
    ensures c == '\n' as int ==> Escape(c) == Ascii("\\n")
    ensures c == '\r' as int ==> Escape(c) == Ascii("\\r")
    ensures c == '\t' as int ==> Escape(c) == Ascii("\\t")
    ensures c == 8 ==> Escape(c) == Ascii("\\b")
    ensures c == 12 ==> Escape(c) == Ascii("\\f")
    ensures 32 <= c && c != '"' as int && c != '\\' as int ==> Escape(c) == [c]
  {
  }

  /** All other control bytes. */
  lemma ControlTable(c: byte)
    requires c < 8 || c == 11 || 14 <= c < 32
    ensures Escape(c)
      == Ascii("\\u00") + ["0123456789ABCDEF"[c / 16] as int, "0123456789ABCDEF"[c % 16] as int]
  {
    HexDigits(c / 16);
    HexDigits(c % 16);
    assert Ascii("\\u00") == [BACKSLASH, 117, ZERO, ZERO];
  }

  lemma CharReads(c: byte, u: bytes)
    requires ReadString(u).Some?
    ensures ReadString(Escape(c) + u) == Some(([c] + ReadString(u).value.0, ReadString(u).value.1))
  {
    var t := Escape(c) + u;
    assert t[|Escape(c)|..] == u;
    if EscapeCode(c) == 0 {
      hide ReadEscape;
      assert t[0] == c && c != BACKSLASH && c != QUOTE && c >= 32;
    } else {
      EscapeReads(c, u);
      hide Escape, EscapeCode, ReadEscape;
    }
  }

  /** Every byte string comes back from its literal (section 7). */
  lemma {:induction false} LiteralReads(s: bytes, rest: bytes)
    ensures ReadString(EscapeAll(s) + ([QUOTE] + rest)) == Some((s, rest))
  {
    if |s| == 0 {
      assert [] + ([QUOTE] + rest) == [QUOTE] + rest && ([QUOTE] + rest)[1..] == rest;
    } else {
      hide Escape, ReadString;
      LiteralReads(s[1..], rest);
      Regroup(Escape(s[0]), EscapeAll(s[1..]), [QUOTE] + rest);
      CharReads(s[0], EscapeAll(s[1..]) + ([QUOTE] + rest));
      assert [s[0]] + s[1..] == s;
    }
  }

  // ---- values ----

  predicate Writable(v: V)
    decreases v
  {
    match v
    case Number(text) => NumberText(text)
    case Array(es) => AllWritable(es)
    case Object(ms) => MembersWritable(ms)
    case _ => true
  }

  predicate AllWritable(es: seq<V>)
    decreases es
  {
    |es| == 0 || (Writable(es[0]) && AllWritable(es[1..]))
  }

  predicate MembersWritable(ms: seq<Member<bytes, bytes>>)
    decreases ms
  {
    if |ms| == 0 then true
    else
      assert ms[0].value < ms[0];
      Writable(ms[0].value) && MembersWritable(ms[1..])
  }

  /** Nothing that could continue a number. */
  predicate Delimited(rest: bytes) { |rest| == 0 || !NumberChar(rest[0]) }

  lemma {:induction false} NumberReads(text: bytes, rest: bytes)
    requires (forall i :: 0 <= i < |text| ==> NumberChar(text[i])) && Delimited(rest)
    ensures NumberEnd(text + rest) == |text|
  {
    if |text| == 0 {
      assert text + rest == rest;
    } else {
      assert (text + rest)[0] == text[0] && (text + rest)[1..] == text[1..] + rest;
      NumberReads(text[1..], rest);
    }
  }

  predicate ProperStyle(style: Style) { style.Pretty? ==> IsSpace(style.indentChar) }

  predicate AllSpaces(t: bytes) { forall i :: 0 <= i < |t| ==> IsSpace(t[i]) }

  lemma {:induction false} RepeatIsSpaces(c: byte, n: nat)
    requires IsSpace(c)
    ensures AllSpaces(Repeat(c, n))
  {
    if n > 0 { RepeatIsSpaces(c, n - 1); }
  }

  lemma BlankIsSpaces(depth: nat, level: Level, style: Style)
    requires ProperStyle(style)
    ensures AllSpaces(Blank(depth, level, style)) && AllSpaces(Close(depth, level, style))
  {
    if style.Pretty? { RepeatIsSpaces(style.indentChar, depth * style.indentCharCount); }
    hide Repeat;
  }

  lemma {:induction false} SkipsTo(blank: bytes, t: bytes)
    requires AllSpaces(blank) && |t| > 0 && !IsSpace(t[0])
    ensures SkipSpace(blank + t) == t
  {
    if |blank| == 0 {
      assert blank + t == t;
    } else {
      assert (blank + t)[0] == blank[0] && (blank + t)[1..] == blank[1..] + t;
      SkipsTo(blank[1..], t);
    }
  }

  lemma HeadAndTail<T>(s: seq<T>)
    requires |s| > 0
    ensures [s[0]] + s[1..] == s
  {
  }

  /** How the text of a value starts. */
  lemma Heads(v: V, depth: nat, style: Style)
    requires Writable(v)
    ensures var t := PrintAt(v, depth, style);
      |t| > 0 && t[0] != CLOSE_BRACKET && t[0] != COMMA && !IsSpace(t[0]) && (v.Number? ==> NumberChar(t[0]))
  {
  }

  lemma ArrayReads(es: seq<V>, text: bytes, close: bytes, rest: bytes)
    requires ReadElements(text + (close + ([CLOSE_BRACKET] + rest)), true) == Some((es, rest))
    ensures ReadValue(([OPEN_BRACKET] + (text + (close + [CLOSE_BRACKET]))) + rest) == Some((Array(es), rest))
  {
    hide ReadElements;
    var t := ([OPEN_BRACKET] + (text + (close + [CLOSE_BRACKET]))) + rest;
    assert t[1..] == text + (close + ([CLOSE_BRACKET] + rest));
  }

  lemma ObjectReads(ms: seq<Member<bytes, bytes>>, text: bytes, close: bytes, rest: bytes)
    requires ReadMembers(text + (close + ([CLOSE_BRACE] + rest)), true) == Some((ms, rest))
    ensures ReadValue(([OPEN_BRACE] + (text + (close + [CLOSE_BRACE]))) + rest) == Some((Object(ms), rest))
  {
    hide ReadMembers;
    var t := ([OPEN_BRACE] + (text + (close + [CLOSE_BRACE]))) + rest;
    assert t[1..] == text + (close + ([CLOSE_BRACE] + rest));
  }

  lemma StringReads(s: bytes, rest: bytes)
    ensures ReadValue(Literal(s) + rest) == Some((String(s), rest))
  {
    LiteralReads(s, rest);
    hide ReadString, EscapeAll;
    assert (Literal(s) + rest)[1..] == EscapeAll(s) + ([QUOTE] + rest);
  }

  lemma TokenReads(text: bytes, rest: bytes)
    requires NumberText(text) && Delimited(rest)
    ensures ReadValue(text + rest) == Some((Number(text), rest))
  {
    var t := text + rest;
    NumberReads(text, rest);
    hide NumberEnd;
    assert t[0] == text[0] && t[..|text|] == text && t[|text|..] == rest;
  }

  lemma WordReads(v: V, depth: nat, style: Style, rest: bytes)
    requires v.Null? || v.Bool?
    ensures ReadValue(PrintAt(v, depth, style) + rest) == Some((v, rest))
  {
    var w := PrintAt(v, depth, style);
    var t := w + rest;
    assert t[0] == w[0] && t[..|w|] == w && t[|w|..] == rest;
    assert StartsWith(t, NULL_TEXT) ==> t[..4][0] == 110;
    assert StartsWith(t, TRUE_TEXT) ==> t[..4][0] == 116;
  }

  /** Where elements or members end. */
  lemma CloseSkips(close: bytes, bracket: byte, rest: bytes)
    requires AllSpaces(close) && !IsSpace(bracket)
    ensures SkipSpace(close + ([bracket] + rest)) == [bracket] + rest
  {
    SkipsTo(close, [bracket] + rest);
  }

  /** A comma, whitespace or a closing bracket ends a number. */
  lemma Ends(close: bytes, bracket: byte, rest: bytes)
    requires AllSpaces(close) && (bracket == CLOSE_BRACKET || bracket == CLOSE_BRACE)
    ensures Delimited(close + ([bracket] + rest))
  {
    if |close| > 0 { assert IsSpace(close[0]); }
  }

  /** Here the elements end, whether or not there were any, and so does a number. */
  predicate EndsElements(end: bytes, rest: bytes) {
    Delimited(end) && ReadElements(end, true) == Some(([], rest)) && ReadElements(end, false) == Some(([], rest))
  }

  lemma ElementsEnd(close: bytes, rest: bytes)
    requires AllSpaces(close)
    ensures EndsElements(close + ([CLOSE_BRACKET] + rest), rest)
  {
    Ends(close, CLOSE_BRACKET, rest);
    CloseSkips(close, CLOSE_BRACKET, rest);
    hide SkipSpace, AllSpaces, Delimited;
    assert ([CLOSE_BRACKET] + rest)[1..] == rest;
  }

  predicate EndsMembers(end: bytes, rest: bytes) {
    Delimited(end) && ReadMembers(end, true) == Some(([], rest)) && ReadMembers(end, false) == Some(([], rest))
  }

  lemma MembersEnd(close: bytes, rest: bytes)
    requires AllSpaces(close)
    ensures EndsMembers(close + ([CLOSE_BRACE] + rest), rest)
  {
    Ends(close, CLOSE_BRACE, rest);
    CloseSkips(close, CLOSE_BRACE, rest);
    hide SkipSpace, AllSpaces, Delimited;
    assert ([CLOSE_BRACE] + rest)[1..] == rest;
  }

  /** Reading back what PrintAt made, in any style, gives the value, whatever follows. */
  lemma {:induction false} PrintReads(v: V, depth: nat, style: Style, rest: bytes)
    requires Writable(v) && Delimited(rest) && ProperStyle(style)
    ensures ReadValue(PrintAt(v, depth, style) + rest) == Some((v, rest))
    decreases v, 1
  {
    hide ReadValue, ReadElements, ReadMembers, PrintElements, PrintMembers, Literal, Close;
    match v
    case Null => WordReads(Null, depth, style, rest);
    case Bool(b) => WordReads(v, depth, style, rest);
    case Number(text) => TokenReads(text, rest);
    case String(s) => StringReads(s, rest);
    case Array(es) =>
      var close := Close(depth, Level(|es|, true), style);
      BlankIsSpaces(depth, Level(|es|, true), style);
      ElementsEnd(close, rest);
      ElementsRead(es, 0, depth + 1, style, close + ([CLOSE_BRACKET] + rest), rest);
      ArrayReads(es, PrintElements(es, 0, depth + 1, style), close, rest);
    case Object(ms) =>
      var close := Close(depth, Level(2 * |ms|, false), style);
      BlankIsSpaces(depth, Level(2 * |ms|, false), style);
      MembersEnd(close, rest);
      MembersRead(ms, 0, depth + 1, style, close + ([CLOSE_BRACE] + rest), rest);
      ObjectReads(ms, PrintMembers(ms, 0, depth + 1, style), close, rest);
  }

  /** Reading past the separator and whitespace before an element or member. */
  lemma LeadSkips(mark: bytes, blank: bytes, body: bytes, first: bool)
    requires mark == (if first then [] else [COMMA]) && AllSpaces(blank) && |body| > 0 && !IsSpace(body[0])
    ensures var u := SkipSpace(mark + (blank + body));
      |u| > 0 && u[0] == (if first then body[0] else COMMA) && (if first then u else SkipSpace(u[1..])) == body
  {
    SkipsTo(blank, body);
    if first {
      assert mark + (blank + body) == blank + body;
    } else {
      assert (mark + (blank + body))[1..] == blank + body;
    }
  }

  /** The last of the pieces goes to what follows them. */
  lemma Layout(mark: bytes, blank: bytes, v: bytes, more: bytes, close: bytes)
    ensures (mark + (blank + (v + more))) + close == mark + (blank + (v + (more + close)))
  {
  }

  /** One element and the rest of the list. */
  lemma ElementReads(mark: bytes, blank: bytes, text: bytes, more: bytes, end: bytes, first: bool, v: V, es: seq<V>,
                     rest: bytes)
    requires mark == (if first then [] else [COMMA]) && AllSpaces(blank)
    requires |text| > 0 && !IsSpace(text[0]) && text[0] != CLOSE_BRACKET && text[0] != COMMA
    requires ReadValue(text + (more + end)) == Some((v, more + end))
    requires ReadElements(more + end, false) == Some((es, rest))
    ensures ReadElements((mark + (blank + (text + more))) + end, first) == Some(([v] + es, rest))
  {
    hide ReadValue, SkipSpace, AllSpaces;
    Layout(mark, blank, text, more, end);
    LeadSkips(mark, blank, text + (more + end), first);
  }

  lemma ElementsText(es: seq<V>, k: nat, depth: nat, style: Style)
    requires |es| > 0
    ensures PrintElements(es, k, depth, style) ==
      Mark(Level(k, true)) + (Blank(depth, Level(k, true), style)
        + (PrintAt(es[0], depth, style) + PrintElements(es[1..], k + 1, depth, style)))
  {
    hide Mark, Blank, PrintAt;
  }

  lemma MoreIsDelimited(es: seq<V>, k: nat, depth: nat, style: Style, end: bytes)
    requires k > 0 && Delimited(end)
    ensures Delimited(PrintElements(es, k, depth, style) + end)
  {
    if |es| == 0 {
      assert [] + end == end;
    } else {
      assert PrintElements(es, k, depth, style)[0] == COMMA;
    }
  }

  lemma NoElements(k: nat, depth: nat, style: Style, end: bytes)
    ensures PrintElements([], k, depth, style) + end == end && PrintMembers([], k, depth, style) + end == end
  {
    assert [] + end == end;
  }

  lemma ElementsReadOn(es: seq<V>, k: nat, depth: nat, style: Style, end: bytes, rest: bytes)
    requires |es| > 0 && Writable(es[0]) && ProperStyle(style)
    requires var u := PrintElements(es[1..], k + 1, depth, style) + end;
      ReadValue(PrintAt(es[0], depth, style) + u) == Some((es[0], u)) && ReadElements(u, false) == Some((es[1..], rest))
    ensures ReadElements(PrintElements(es, k, depth, style) + end, k == 0) == Some((es, rest))
  {
    Heads(es[0], depth, style);
    BlankIsSpaces(depth, Level(k, true), style);
    ElementsText(es, k, depth, style);
    HeadAndTail(es);
    hide PrintAt, PrintElements, ReadValue, ReadElements, AllSpaces, Blank, IsSpace, Writable;
    ElementReads(Mark(Level(k, true)), Blank(depth, Level(k, true), style), PrintAt(es[0], depth, style),
      PrintElements(es[1..], k + 1, depth, style), end, k == 0, es[0], es[1..], rest);
  }

  lemma {:induction false} ElementsRead(es: seq<V>, k: nat, depth: nat, style: Style, end: bytes, rest: bytes)
    requires AllWritable(es) && ProperStyle(style) && EndsElements(end, rest)
    ensures ReadElements(PrintElements(es, k, depth, style) + end, k == 0) == Some((es, rest))
    decreases es, 0
  {
    hide PrintAt, PrintElements, ReadValue, ReadElements, Delimited;
    if |es| == 0 {
      NoElements(k, depth, style, end);
    } else {
      MoreIsDelimited(es[1..], k + 1, depth, style, end);
      PrintReads(es[0], depth, style, PrintElements(es[1..], k + 1, depth, style) + end);
      ElementsRead(es[1..], k + 1, depth, style, end, rest);
      ElementsReadOn(es, k, depth, style, end, rest);
    }
  }

  /** One member and the rest of the list. */
  lemma FirstMemberReads(mark: bytes, blank: bytes, text: bytes, more: bytes, end: bytes, first: bool,
                         m: Member<bytes, bytes>, ms: seq<Member<bytes, bytes>>, rest: bytes)
    requires mark == (if first then [] else [COMMA]) && AllSpaces(blank) && |text| > 0 && text[0] == QUOTE
    requires ReadMember(text + (more + end)) == Some((m, more + end))
    requires ReadMembers(more + end, false) == Some((ms, rest))
    ensures ReadMembers((mark + (blank + (text + more))) + end, first) == Some(([m] + ms, rest))
  {
    hide ReadMember, SkipSpace, AllSpaces;
    Layout(mark, blank, text, more, end);
    LeadSkips(mark, blank, text + (more + end), first);
  }

  lemma MembersText(ms: seq<Member<bytes, bytes>>, k: nat, depth: nat, style: Style)
    requires |ms| > 0
    ensures ms[0].value < ms[0] && PrintMembers(ms, k, depth, style) ==
      Mark(Level(k, false)) + (Blank(depth, Level(k, false), style) + (
        Named(ms[0].name, Blank(depth, Level(k + 1, false), style), PrintAt(ms[0].value, depth, style))
        + PrintMembers(ms[1..], k + 2, depth, style)))
  {
    hide Mark, Blank, PrintAt, Named;
  }

  lemma MoreMembersDelimited(ms: seq<Member<bytes, bytes>>, k: nat, depth: nat, style: Style, end: bytes)
    requires k > 0 && k % 2 == 0 && Delimited(end)
    ensures Delimited(PrintMembers(ms, k, depth, style) + end)
  {
    if |ms| == 0 {
      assert [] + end == end;
    } else {
      assert ms[0].value < ms[0];
      assert PrintMembers(ms, k, depth, style)[0] == COMMA;
    }
  }

  lemma NamedLayout(name: bytes, blank: bytes, v: bytes, rest: bytes)
    ensures var t := Named(name, blank, v) + rest;
      |t| > 0 && t[0] == QUOTE && t[1..] == EscapeAll(name) + ([QUOTE] + ([COLON] + (blank + (v + rest))))
  {
    hide EscapeAll;
    var inner := [COLON] + (blank + v);
    Regroup([COLON] + blank, v, rest);
    assert inner + rest == [COLON] + (blank + (v + rest));
    assert (Literal(name) + inner)[1..] == (EscapeAll(name) + [QUOTE]) + inner;
    assert ((EscapeAll(name) + [QUOTE]) + inner) + rest == EscapeAll(name) + ([QUOTE] + (inner + rest));
  }

  lemma NamedHead(name: bytes, blank: bytes, v: bytes)
    ensures |Named(name, blank, v)| > 0 && Named(name, blank, v)[0] == QUOTE
  {
  }

  lemma MemberReads(m: Member<bytes, bytes>, blank: bytes, v: bytes, rest: bytes)
    requires ReadValue(v + rest) == Some((m.value, rest)) && AllSpaces(blank) && |v| > 0 && !IsSpace(v[0])
    ensures ReadMember(Named(m.name, blank, v) + rest) == Some((m, rest)) && Named(m.name, blank, v)[0] == QUOTE
  {
    var tail := [COLON] + (blank + (v + rest));
    assert SkipSpace(tail) == tail && tail[1..] == blank + (v + rest);
    SkipsTo(blank, v + rest);
    hide ReadValue, ReadString, Named, SkipSpace, AllSpaces, IsSpace;
    LiteralReads(m.name, tail);
    NamedLayout(m.name, blank, v, rest);
    NamedHead(m.name, blank, v);
  }

  lemma MembersReadOn(ms: seq<Member<bytes, bytes>>, k: nat, depth: nat, style: Style, end: bytes, rest: bytes)
    requires |ms| > 0 && Writable(ms[0].value) && ProperStyle(style) && k % 2 == 0
    requires var u := PrintMembers(ms[1..], k + 2, depth, style) + end;
      && ReadValue(PrintAt(ms[0].value, depth, style) + u) == Some((ms[0].value, u))
      && ReadMembers(u, false) == Some((ms[1..], rest))
    ensures ReadMembers(PrintMembers(ms, k, depth, style) + end, k == 0) == Some((ms, rest))
  {
    var level, inner := Level(k, false), Blank(depth, Level(k + 1, false), style);
    var v, more := PrintAt(ms[0].value, depth, style), PrintMembers(ms[1..], k + 2, depth, style);
    Heads(ms[0].value, depth, style);
    BlankIsSpaces(depth, level, style);
    BlankIsSpaces(depth, Level(k + 1, false), style);
    MembersText(ms, k, depth, style);
    HeadAndTail(ms);
    hide PrintAt, PrintMembers, ReadValue, ReadMember, ReadMembers, AllSpaces, Blank, Named, IsSpace, Writable;
    MemberReads(ms[0], inner, v, more + end);
    FirstMemberReads(Mark(level), Blank(depth, level, style), Named(ms[0].name, inner, v), more, end, k == 0,
      ms[0], ms[1..], rest);
  }

  lemma {:induction false} MembersRead(ms: seq<Member<bytes, bytes>>, k: nat, depth: nat, style: Style, end: bytes,
                                       rest: bytes)
    requires MembersWritable(ms) && ProperStyle(style) && EndsMembers(end, rest) && k % 2 == 0
    ensures ReadMembers(PrintMembers(ms, k, depth, style) + end, k == 0) == Some((ms, rest))
    decreases ms, 0
  {
    hide PrintAt, PrintMembers, ReadValue, ReadMembers, Delimited;
    if |ms| == 0 {
      NoElements(k, depth, style, end);
    } else {
      assert ms[0].value < ms[0];
      MoreMembersDelimited(ms[1..], k + 2, depth, style, end);
      PrintReads(ms[0].value, depth, style, PrintMembers(ms[1..], k + 2, depth, style) + end);
      MembersRead(ms[1..], k + 2, depth, style, end, rest);
      MembersReadOn(ms, k, depth, style, end, rest);
    }
  }

  lemma FreshText(v: V, style: Style)
    ensures EmitAll(FRESH, Events(v), style) == Some(State(PrintAt(v, 0, style), [], true))
  {
    WritesText(FRESH, v, style);
    assert [] + PrintAt(v, 0, style) == PrintAt(v, 0, style);
  }

  lemma TextReads(v: V, style: Style)
    requires Writable(v) && ProperStyle(style)
    ensures ReadText(PrintAt(v, 0, style)) == Some(v)
  {
    var t := PrintAt(v, 0, style);
    Heads(v, 0, style);
    PrintReads(v, 0, style, []);
    hide PrintAt, ReadValue;
    assert t + [] == t && SkipSpace(t) == t;
  }

  lemma {:induction false} StripTwice(p: Place, t: bytes)
    ensures Strip(p, Strip(p, t)) == Strip(p, t)
    decreases t
  {
    if |t| > 0 {
      StripTwice(Next(p, t[0]), t[1..]);
      if Keep(p, t[0]) == [] {
        assert [] + Strip(p, t[1..]) == Strip(p, t[1..]);
      } else {
        var s := Strip(Next(p, t[0]), t[1..]);
        assert ([t[0]] + s)[1..] == s;
      }
    }
  }

  lemma {:induction false} EventsAreTokens(v: V)
    requires Writable(v)
    ensures forall i :: 0 <= i < |Events(v)| ==> TokenEvent(Events(v)[i])
    decreases v, 1
  {
    match v
    case Array(es) => ElementEventsAreTokens(es);
    case Object(ms) => MemberEventsAreTokens(ms);
    case _ =>
  }

  /** Stripping takes nothing from compact text. */
  lemma CompactIsSolid(v: V)
    requires Writable(v)
    ensures Strip(Outside, Print(v)) == Print(v)
  {
    var style := Pretty(SPACE, 0, true);
    FreshText(v, style);
    FreshText(v, Compact);
    EventsAreTokens(v);
    assert Mirrors(FRESH, FRESH);
    hide PrintAt, EmitAll;
    PrettyStripsToCompact(FRESH, FRESH, Events(v), style);
    StripTwice(Outside, PrintAt(v, 0, style));
  }

  /** What a fresh writer, of either kind, has written once Accept sent it a whole value is
      the value's text in its style; that text, whitespace and all, reads back as the
      value; and without the whitespace it is the compact text. */
  lemma WritersAgree(v: V, style: Style)
    requires Writable(v) && ProperStyle(style)
    ensures EmitAll(FRESH, Events(v), style) == Some(State(PrintAt(v, 0, style), [], true))
    ensures ReadText(PrintAt(v, 0, style)) == Some(v)
    ensures Strip(Outside, PrintAt(v, 0, style)) == Print(v)
  {
    FreshText(v, style);
    FreshText(v, Compact);
    TextReads(v, style);
    EventsAreTokens(v);
    assert Mirrors(FRESH, FRESH);
    hide PrintAt, ReadText, EmitAll;
    if style.Pretty? {
      PrettyStripsToCompact(FRESH, FRESH, Events(v), style);
    } else {
      CompactIsSolid(v);
    }
  }

  lemma {:induction false} ElementEventsAreTokens(es: seq<V>)
    requires AllWritable(es)
    ensures forall i :: 0 <= i < |ElementEvents(es)| ==> TokenEvent(ElementEvents(es)[i])
    decreases es, 0
  {
    if |es| > 0 {
      EventsAreTokens(es[0]);
      ElementEventsAreTokens(es[1..]);
    }
  }

  lemma {:induction false} MemberEventsAreTokens(ms: seq<Member<bytes, bytes>>)
    requires MembersWritable(ms)
    ensures forall i :: 0 <= i < |MemberEvents(ms)| ==> TokenEvent(MemberEvents(ms)[i])
    decreases ms, 0
  {
    if |ms| > 0 {
      assert ms[0].value < ms[0];
      EventsAreTokens(ms[0].value);
      MemberEventsAreTokens(ms[1..]);
    }
  }
}
