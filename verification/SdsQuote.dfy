/** sdscatrepr and sdssplitargs: quoting a byte string, and splitting a line into
    arguments. Splitting undoes quoting for every list of byte strings. */
module SdsQuote {
  import opened Bytes
  import Sds

  // the C locale
  predicate IsPrint(c: byte) { 32 <= c <= 126 }
  predicate IsSpace(c: byte) { 9 <= c <= 13 || c == 32 }
  predicate IsHexDigit(c: byte) { HexValue(c).Some? }

  const APOSTROPHE: byte := 39

  /** One lower-case hexadecimal digit, as %x prints it. */
  function LowerHexDigit(v: int): byte
    requires 0 <= v < 16
  {
    if v < 10 then 48 + v else 87 + v
  }

  /** hex_digit_to_int */
  function HexDigitToInt(c: byte): int { match HexValue(c) case Some(v) => v case None => 0 }

  /** How one byte is written between the quotes. */
  function Escape(c: byte): bytes {
    if c == BACKSLASH || c == QUOTE then [BACKSLASH, c]
    else if c == 10 then [BACKSLASH, 110]
    else if c == 13 then [BACKSLASH, 114]
    else if c == 9 then [BACKSLASH, 116]
    else if c == 7 then [BACKSLASH, 97]
    else if c == 8 then [BACKSLASH, 98]
    else if IsPrint(c) then [c]
    else [BACKSLASH, 120, LowerHexDigit(c / 16), LowerHexDigit(c % 16)]
  }

  function Body(p: bytes): bytes {
    if |p| == 0 then [] else Escape(p[0]) + Body(p[1..])
  }

  /** The quoted form of a byte string. */
  function Repr(p: bytes): bytes { [QUOTE] + Body(p) + [QUOTE] }

  lemma {:induction false} BodySnoc(p: bytes, c: byte)
    ensures Body(p + [c]) == Body(p) + Escape(c)
  {
    if |p| == 0 {
      assert (p + [c])[1..] == [];
    } else {
      assert (p + [c])[1..] == p[1..] + [c];
      BodySnoc(p[1..], c);
    }
  }

  lemma {:induction false} BodyLength(p: bytes, k: nat)
    requires k <= |p|
    ensures |Body(p[..k])| <= 4 * k
  {
    if k > 0 {
      BodyLength(p, k - 1);
      BodySnoc(p[..k - 1], p[k - 1]);
      assert p[..k] == p[..k - 1] + [p[k - 1]];
    }
  }

  lemma BodyStep(p: bytes, i: nat)
    requires i < |p|
    ensures Body(p[..i + 1]) == Body(p[..i]) + Escape(p[i]) && |Body(p[..i])| <= 4 * i
  {
    BodyLength(p, i);
    BodySnoc(p[..i], p[i]);
    assert p[..i + 1] == p[..i] + [p[i]];
  }

  /** The switch inside sdscatrepr. */
  method CatEscape(s: Sds.String, c: byte)
    requires s.Valid() && s.len + 4 < Sds.SIZE_LIMIT
    modifies s, s.buf
    ensures s.Valid() && s.Contents() == old(s.Contents()) + Escape(c)
    ensures s.buf == old(s.buf) || fresh(s.buf)
  {
    var text: bytes;
    if c == BACKSLASH || c == QUOTE { text := [BACKSLASH, c]; }
    else if c == 10 { text := [BACKSLASH, 110]; }
    else if c == 13 { text := [BACKSLASH, 114]; }
    else if c == 9 { text := [BACKSLASH, 116]; }
    else if c == 7 { text := [BACKSLASH, 97]; }
    else if c == 8 { text := [BACKSLASH, 98]; }
    else if IsPrint(c) { text := [c]; }
    else { text := [BACKSLASH, 120, LowerHexDigit(c / 16), LowerHexDigit(c % 16)]; }
    s.CatLen(text);
  }

  lemma NoBody(was: bytes, p: bytes)
    ensures was + Body(p[..0]) == was
  {
  }

  /** The loop of sdscatrepr. */
  method CatBody(s: Sds.String, p: bytes)
    requires s.Valid() && s.len + 4 * |p| + 1 < Sds.SIZE_LIMIT
    modifies s, s.buf
    ensures s.Valid() && s.Contents() == old(s.Contents()) + Body(p)
    ensures s.buf == old(s.buf) || fresh(s.buf)
  {
    hide Body, Escape, Sds.String.Contents, Sds.String.Valid, Sds.String.Header;
    ghost var was := s.Contents();
    NoBody(was, p);
    var i := 0;
    while i < |p|
      invariant 0 <= i <= |p| && s.Valid() && (s.buf == old(s.buf) || fresh(s.buf))
      invariant s.Contents() == was + Body(p[..i])
    {
      BodyStep(p, i);
      Regroup(was, Body(p[..i]), Escape(p[i]));
      CatEscape(s, p[i]);
      i := i + 1;
    }
    assert p[..i] == p;
  }

  /** sdscatrepr */
  method CatRepr(s: Sds.String, p: bytes)
    requires s.Valid() && s.len + 4 * |p| + 2 < Sds.SIZE_LIMIT
    modifies s, s.buf
    ensures s.Valid() && s.Contents() == old(s.Contents()) + Repr(p)
    ensures s.buf == old(s.buf) || fresh(s.buf)
  {
    hide Body, Escape, Sds.String.Contents;
    ghost var was := s.Contents();
    BodyLength(p, |p|);
    assert p[..|p|] == p;
    s.CatLen([QUOTE]);
    CatBody(s, p);
    s.CatLen([QUOTE]);
    assert was + [QUOTE] + Body(p) + [QUOTE] == was + Repr(p);
  }

  // ----- splitting -----

  /** A C string is its bytes up to the terminator, so it holds none. */
  predicate IsCString(x: bytes) { forall i :: 0 <= i < |x| ==> x[i] != NUL }

  datatype Mode = Plain | Double | Single

  /** One turn of the loop that collects a token. */
  datatype Turn = Bad | Done(used: nat) | Next(mode: Mode, add: bytes, used: nat)

  function Unescape(c: byte): byte {
    if c == 110 then 10 else if c == 114 then 13 else if c == 116 then 9
    else if c == 98 then 8 else if c == 97 then 7 else c
  }

  predicate ClosesToken(x: bytes) { At(x, 1) == NUL || IsSpace(At(x, 1)) }

  function TurnOn(x: bytes, mode: Mode): Turn {
    match mode
    case Double =>
      if At(x, 0) == BACKSLASH && At(x, 1) == 120 && IsHexDigit(At(x, 2)) && IsHexDigit(At(x, 3)) then
        Next(Double, [HexDigitToInt(At(x, 2)) * 16 + HexDigitToInt(At(x, 3))], 4)
      else if At(x, 0) == BACKSLASH && At(x, 1) != NUL then Next(Double, [Unescape(At(x, 1))], 2)
      else if At(x, 0) == QUOTE then (if ClosesToken(x) then Done(1) else Bad)
      else if At(x, 0) == NUL then Bad
      else Next(Double, [At(x, 0)], 1)
    case Single =>
      if At(x, 0) == BACKSLASH && At(x, 1) == APOSTROPHE then Next(Single, [APOSTROPHE], 2)
      else if At(x, 0) == APOSTROPHE then (if ClosesToken(x) then Done(1) else Bad)
      else if At(x, 0) == NUL then Bad
      else Next(Single, [At(x, 0)], 1)
    case Plain =>
      if At(x, 0) == NUL then Done(0)
      else if At(x, 0) == 32 || At(x, 0) == 10 || At(x, 0) == 13 || At(x, 0) == 9 then Done(1)
      else if At(x, 0) == QUOTE then Next(Double, [], 1)
      else if At(x, 0) == APOSTROPHE then Next(Single, [], 1)
      else Next(Plain, [At(x, 0)], 1)
  }

  lemma TurnFits(x: bytes, mode: Mode)
    requires IsCString(x)
    ensures var t := TurnOn(x, mode);
      (t.Done? ==> t.used <= |x|) && (t.Next? ==> 0 < t.used <= |x|)
      && (t.Done? && (mode == Plain ==> |x| > 0) ==> t.used > 0)
  {
  }

  /** A token from the front of x: its value after what is already collected, and
      the bytes that follow it. */
  function Token(x: bytes, mode: Mode, collected: bytes): (r: Option<(bytes, bytes)>)
    requires IsCString(x)
    ensures r.Some? ==> IsCString(r.value.1) && |r.value.1| <= |x|
    ensures r.Some? && mode == Plain && |x| > 0 ==> |r.value.1| < |x|
    decreases |x|
  {
    TurnFits(x, mode);
    match TurnOn(x, mode)
    case Bad => None
    case Done(used) => Some((collected, x[used..]))
    case Next(m, add, used) => Token(x[used..], m, collected + add)
  }

  function SkipBlanks(x: bytes): (r: bytes)
    requires IsCString(x)
    ensures IsCString(r) && |r| <= |x|
  {
    if |x| > 0 && IsSpace(x[0]) then SkipBlanks(x[1..]) else x
  }

  /** The arguments of a line; None for unbalanced quotes and for closed quotes that
      something other than a space follows. */
  function Split(x: bytes): Option<seq<bytes>>
    requires IsCString(x)
    decreases |x|
  {
    var y := SkipBlanks(x);
    if |y| == 0 then Some([])
    else match Token(y, Plain, [])
      case None => None
      case Some((t, rest)) =>
        match Split(rest)
        case None => None
        case Some(ts) => Some([t] + ts)
  }

  /** sdssplitargs, the body of the loop that collects one token: every branch moves
      p over what it used, except at the end of the line. */
  method TakeTurn(line: bytes, start: nat, inMode: Mode, collected: bytes)
    returns (ok: bool, done: bool, mode: Mode, current: bytes, p: nat)
    requires IsCString(line) && start <= |line|
    ensures var t := TurnOn(line[start..], inMode);
      && (ok <==> !t.Bad?)
      && (ok ==> (done <==> t.Done?))
      && (ok && done ==> p == start + t.used && current == collected)
      && (ok && !done ==> p == start + t.used && mode == t.mode && current == collected + t.add)
  {
    ghost var x := line[start..];
    assert At(x, 0) == At(line, start) && At(x, 1) == At(line, start + 1);
    assert At(x, 2) == At(line, start + 2) && At(x, 3) == At(line, start + 3);
    ok, done, mode, current, p := true, false, inMode, collected, start;
    match inMode {
      case Double =>
        if At(line, p) == BACKSLASH && At(line, p + 1) == 120 && IsHexDigit(At(line, p + 2))
          && IsHexDigit(At(line, p + 3)) {
          current := current + [HexDigitToInt(At(line, p + 2)) * 16 + HexDigitToInt(At(line, p + 3))];
          p := p + 3;
        } else if At(line, p) == BACKSLASH && At(line, p + 1) != NUL {
          p := p + 1;
          current := current + [Unescape(At(line, p))];
        } else if At(line, p) == QUOTE {
          if At(line, p + 1) != NUL && !IsSpace(At(line, p + 1)) { ok := false; return; }
          done := true;
        } else if At(line, p) == NUL {
          ok := false;
          return;
        } else {
          current := current + [At(line, p)];
        }
      case Single =>
        if At(line, p) == BACKSLASH && At(line, p + 1) == APOSTROPHE {
          p := p + 1;
          current := current + [APOSTROPHE];
        } else if At(line, p) == APOSTROPHE {
          if At(line, p + 1) != NUL && !IsSpace(At(line, p + 1)) { ok := false; return; }
          done := true;
        } else if At(line, p) == NUL {
          ok := false;
          return;
        } else {
          current := current + [At(line, p)];
        }
      case Plain =>
        if At(line, p) == NUL || At(line, p) == 32 || At(line, p) == 10 || At(line, p) == 13 || At(line, p) == 9 {
          done := true;
        } else if At(line, p) == QUOTE {
          mode := Double;
        } else if At(line, p) == APOSTROPHE {
          mode := Single;
        } else {
          current := current + [At(line, p)];
        }
    }
    assert collected + [] == collected;
    if At(line, p) != NUL { p := p + 1; }
  }

  lemma TokenTurn(x: bytes, mode: Mode, collected: bytes)
    requires IsCString(x)
    ensures var t := TurnOn(x, mode);
      && (t.Bad? ==> Token(x, mode, collected) == None)
      && (t.Done? ==> t.used <= |x| && Token(x, mode, collected) == Some((collected, x[t.used..])))
      && (t.Next? ==> t.used <= |x| && Token(x, mode, collected) == Token(x[t.used..], t.mode, collected + t.add))
  {
    TurnFits(x, mode);
  }

  /** sdssplitargs, collecting one token */
  method CollectToken(line: bytes, start: nat) returns (ok: bool, current: bytes, p: nat)
    requires IsCString(line) && start < |line|
    ensures ok <==> Token(line[start..], Plain, []).Some?
    ensures ok ==> start < p <= |line| && Token(line[start..], Plain, []) == Some((current, line[p..]))
  {
    hide Token, TurnOn;
    ok, p, current := true, start, [];
    var mode := Plain;
    var done := false;
    while !done
      invariant start <= p <= |line| && (done ==> start < p) && (start == p ==> mode == Plain)
      invariant Token(line[start..], Plain, []) ==
        if done then Some((current, line[p..])) else Token(line[p..], mode, current)
      decreases !done, |line| - p
    {
      ghost var x, t := line[p..], TurnOn(line[p..], mode);
      TurnFits(x, mode);
      TokenTurn(x, mode, current);
      if !t.Bad? { assert x[t.used..] == line[p + t.used..]; }
      ok, done, mode, current, p := TakeTurn(line, p, mode, current);
      if !ok { return; }
    }
  }

  function Preceded(vector: seq<bytes>, r: Option<seq<bytes>>): Option<seq<bytes>> {
    if r.None? then None else Some(vector + r.value)
  }

  /** sdssplitargs, the loop over the blanks */
  method PassBlanks(line: bytes, start: nat) returns (p: nat)
    requires IsCString(line) && start <= |line|
    ensures start <= p <= |line| && SkipBlanks(line[start..]) == line[p..]
  {
    p := start;
    while p < |line| && IsSpace(line[p])
      invariant start <= p <= |line|
      invariant SkipBlanks(line[start..]) == SkipBlanks(line[p..])
    {
      assert line[p..][1..] == line[p + 1..];
      p := p + 1;
    }
  }

  lemma SplitUnfolds(vector: seq<bytes>, x: bytes, y: bytes)
    requires IsCString(x) && SkipBlanks(x) == y
    ensures IsCString(y) && (|y| == 0 ==> Preceded(vector, Split(x)) == Some(vector))
    ensures |y| > 0 && Token(y, Plain, []) == None ==> Split(x) == None
    ensures |y| > 0 && Token(y, Plain, []).Some? ==>
      var (t, rest) := Token(y, Plain, []).value;
      Preceded(vector, Split(x)) == Preceded(vector + [t], Split(rest))
  {
    hide Token, SkipBlanks, IsCString;
    if |y| > 0 && Token(y, Plain, []).Some? {
      var (t, rest) := Token(y, Plain, []).value;
      if Split(rest).Some? { Regroup(vector, [t], Split(rest).value); }
    } else if |y| == 0 {
      assert vector + [] == vector;
    }
  }

  lemma PrecededByNone(r: Option<seq<bytes>>)
    ensures Preceded([], r) == r
  {
    if r.Some? { assert [] + r.value == r.value; }
  }

  lemma NothingPreceded(vector: seq<bytes>)
    ensures Preceded(vector, None) == None
  {
  }

  /** sdssplitargs */
  method SplitArgs(line: bytes) returns (r: Option<seq<bytes>>)
    requires IsCString(line)
    ensures r == Split(line)
  {
    hide Split, Token, SkipBlanks, Preceded;
    var p := 0;
    var vector: seq<bytes> := [];
    assert line[0..] == line;
    PrecededByNone(Split(line));
    while true
      invariant 0 <= p <= |line|
      invariant Split(line) == Preceded(vector, Split(line[p..]))
      decreases |line| - p
    {
      ghost var x := line[p..];
      p := PassBlanks(line, p);
      SplitUnfolds(vector, x, line[p..]);
      if p == |line| { return Some(vector); }
      var ok, current, next := CollectToken(line, p);
      if !ok {
        NothingPreceded(vector);
        return None;
      }
      vector := vector + [current];
      p := next;
    }
  }

  // ----- round trip -----

  lemma HexRoundTrip(c: byte)
    ensures var h, l := LowerHexDigit(c / 16), LowerHexDigit(c % 16);
      IsHexDigit(h) && IsHexDigit(l) && HexDigitToInt(h) * 16 + HexDigitToInt(l) == c
  {
  }

  /** Quoting only produces printable ASCII, so a quoted string is a C string. */
  lemma {:induction false} BodyIsPrintable(p: bytes)
    ensures forall i :: 0 <= i < |Body(p)| ==> IsPrint(Body(p)[i])
  {
    if |p| > 0 {
      BodyIsPrintable(p[1..]);
    }
  }

  /** One escaped byte is read back as that byte. */
  lemma EscapeTurn(c: byte, y: bytes)
    ensures TurnOn(Escape(c) + y, Double) == Next(Double, [c], |Escape(c)|)
  {
    HexRoundTrip(c);
  }

  lemma BodyLine(p: bytes, rest: bytes)
    requires IsCString(rest)
    ensures IsCString(Body(p) + [QUOTE] + rest)
  {
    BodyIsPrintable(p);
  }

  lemma BodyFirst(p: bytes, rest: bytes)
    requires |p| > 0
    ensures var y := Body(p[1..]) + [QUOTE] + rest;
      Body(p) + [QUOTE] + rest == Escape(p[0]) + y && (Escape(p[0]) + y)[|Escape(p[0])|..] == y
  {
    hide Escape;
    assert (Escape(p[0]) + Body(p[1..])) + [QUOTE] + rest == Escape(p[0]) + (Body(p[1..]) + [QUOTE] + rest);
  }

  lemma {:induction false} BodyRoundTrip(p: bytes, rest: bytes, collected: bytes)
    requires IsCString(rest) && (|rest| == 0 || IsSpace(rest[0]))
    ensures IsCString(Body(p) + [QUOTE] + rest)
    ensures Token(Body(p) + [QUOTE] + rest, Double, collected) == Some((collected + p, rest))
    decreases |p|
  {
    BodyLine(p, rest);
    var x := Body(p) + [QUOTE] + rest;
    hide Token, IsCString;
    if |p| == 0 {
      assert x == [QUOTE] + rest && x[1..] == rest && collected + p == collected;
      TokenTurn(x, Double, collected);
    } else {
      var y := Body(p[1..]) + [QUOTE] + rest;
      BodyFirst(p, rest);
      BodyLine(p[1..], rest);
      hide Body, Escape;
      EscapeTurn(p[0], y);
      TokenTurn(x, Double, collected);
      BodyRoundTrip(p[1..], rest, collected + [p[0]]);
      assert collected + [p[0]] + p[1..] == collected + p;
    }
  }

  /** Quoted strings joined by single spaces. */
  function JoinRepr(args: seq<bytes>): bytes {
    if |args| == 0 then []
    else if |args| == 1 then Repr(args[0])
    else Repr(args[0]) + [SPACE] + JoinRepr(args[1..])
  }

  lemma {:induction false} JoinReprIsCString(args: seq<bytes>)
    ensures forall i :: 0 <= i < |JoinRepr(args)| ==> IsPrint(JoinRepr(args)[i])
    ensures IsCString(JoinRepr(args))
  {
    if |args| > 0 {
      BodyIsPrintable(args[0]);
      if |args| > 1 { JoinReprIsCString(args[1..]); }
    }
  }

  lemma OpeningQuote(y: bytes)
    requires IsCString(y)
    ensures IsCString([QUOTE] + y) && SkipBlanks([QUOTE] + y) == [QUOTE] + y
    ensures Token([QUOTE] + y, Plain, []) == Token(y, Double, [])
  {
    var x := [QUOTE] + y;
    var none: bytes := [];
    assert x[1..] == y && none + none == none;
    TokenTurn(x, Plain, none);
  }

  /** The first token of a line that starts with a quoted string. */
  lemma FirstToken(p: bytes, rest: bytes)
    requires IsCString(rest) && (|rest| == 0 || IsSpace(rest[0]))
    ensures IsCString(Repr(p) + rest)
    ensures SkipBlanks(Repr(p) + rest) == Repr(p) + rest
    ensures Token(Repr(p) + rest, Plain, []) == Some((p, rest))
  {
    hide Token, Body, SkipBlanks;
    BodyRoundTrip(p, rest, []);
    OpeningQuote(Body(p) + [QUOTE] + rest);
    assert Repr(p) + rest == [QUOTE] + (Body(p) + [QUOTE] + rest);
    assert [] + p == p;
  }

  lemma ReprNotEmpty(p: bytes)
    ensures |Repr(p)| > 0
  {
  }

  lemma BlankEnd()
    ensures SkipBlanks([]) == []
  {
  }

  /** A leading space does not change how a line splits. */
  lemma BlankThen(y: bytes)
    requires IsCString(y)
    ensures IsCString([SPACE] + y) && Split([SPACE] + y) == Split(y)
  {
    assert ([SPACE] + y)[1..] == y;
    assert SkipBlanks([SPACE] + y) == SkipBlanks(y);
  }

  /** Splitting gives back exactly the strings that were quoted, for every list of
      byte strings: empty strings, quotes, backslashes and unprintable bytes too. */
  lemma {:induction false} SplitInvertsRepr(args: seq<bytes>)
    ensures IsCString(JoinRepr(args)) && Split(JoinRepr(args)) == Some(args)
  {
    hide Repr, Token, SkipBlanks;
    JoinReprIsCString(args);
    if |args| == 0 {
      assert SkipBlanks([]) == [] by { BlankEnd(); }
    } else if |args| == 1 {
      FirstToken(args[0], []);
      assert Repr(args[0]) + [] == JoinRepr(args);
      ReprNotEmpty(args[0]);
      assert SkipBlanks([]) == [] by { BlankEnd(); }
      assert Split([]) == Some([]);
      assert [args[0]] + [] == args;
    } else {
      var rest := [SPACE] + JoinRepr(args[1..]);
      JoinReprIsCString(args[1..]);
      FirstToken(args[0], rest);
      ReprNotEmpty(args[0]);
      assert Repr(args[0]) + rest == JoinRepr(args);
      SplitInvertsRepr(args[1..]);
      BlankThen(JoinRepr(args[1..]));
      assert [args[0]] + args[1..] == args;
    }
  }

  // ----- every way to write an argument -----

  /** The two blanks of C's isspace that end no bare word are the vertical tab and the form
      feed. */
  predicate EndsWord(c: byte) { c == SPACE || c == 9 || c == LF || c == CR }

  predicate IsBare(c: byte) { c != NUL && !EndsWord(c) && c != QUOTE && c != APOSTROPHE }

  /** The text between apostrophes: only the apostrophe is escaped. */
  function SingleBody(p: bytes): bytes {
    if |p| == 0 then []
    else (if p[0] == APOSTROPHE then [BACKSLASH, APOSTROPHE] else [p[0]]) + SingleBody(p[1..])
  }

  /** An argument as it can stand in a line: bare, or with a last part in quotation marks or
      apostrophes. */
  datatype Word = Bare(w: bytes) | InQuotes(w: bytes, p: bytes) | InApostrophes(w: bytes, p: bytes)

  function Meaning(a: Word): bytes { if a.Bare? then a.w else a.w + a.p }

  function Written(a: Word): bytes {
    match a
    case Bare(w) => w
    case InQuotes(w, p) => w + Repr(p)
    case InApostrophes(w, p) => w + ([APOSTROPHE] + SingleBody(p) + [APOSTROPHE])
  }

  predicate EndsInBackslash(p: bytes) { |p| > 0 && p[|p| - 1] == BACKSLASH }

  /** A bare word is not empty and does not start with a blank. */
  predicate IsWord(a: Word) {
    && (forall i :: 0 <= i < |a.w| ==> IsBare(a.w[i]))
    && (|a.w| > 0 ==> !IsSpace(a.w[0]))
    && (a.Bare? ==> |a.w| > 0)
    && (a.InApostrophes? ==> IsCString(a.p) && !EndsInBackslash(a.p))
  }

  predicate Blanks(g: bytes) { forall i :: 0 <= i < |g| ==> IsSpace(g[i]) }

  /** Words, each with the blanks behind it. */
  function LineOf(words: seq<(Word, bytes)>): bytes {
    if |words| == 0 then [] else Written(words[0].0) + (words[0].1 + LineOf(words[1..]))
  }

  function Meanings(words: seq<(Word, bytes)>): (r: seq<bytes>)
    ensures |r| == |words| && forall i :: 0 <= i < |words| ==> r[i] == Meaning(words[i].0)
  {
    seq(|words|, i requires 0 <= i < |words| => Meaning(words[i].0))
  }

  /** What may stand behind a word. */
  predicate Separated(a: Word, y: bytes) {
    |y| == 0 || if a.Bare? then EndsWord(y[0]) else IsSpace(y[0])
  }

  /** A word and the blanks behind it. */
  predicate IsItem(item: (Word, bytes)) { IsWord(item.0) && Blanks(item.1) && Separated(item.0, item.1) }

  predicate IsLine(words: seq<(Word, bytes)>) {
    forall i :: 0 <= i < |words| ==> IsItem(words[i]) && (i + 1 < |words| ==> |words[i].1| > 0)
  }

  lemma {:induction false} BareToken(w: bytes, y: bytes, collected: bytes)
    requires IsCString(y) && forall i :: 0 <= i < |w| ==> IsBare(w[i])
    ensures IsCString(w + y) && Token(w + y, Plain, collected) == Token(y, Plain, collected + w)
    decreases |w|
  {
    if |w| == 0 {
      assert w + y == y && collected + w == collected;
    } else {
      assert (w + y)[1..] == w[1..] + y;
      TokenTurn(w + y, Plain, collected);
      hide Token;
      BareToken(w[1..], y, collected + [w[0]]);
      assert collected + [w[0]] + w[1..] == collected + w;
    }
  }

  lemma {:induction false} SingleBodyIsCString(p: bytes)
    requires IsCString(p)
    ensures IsCString(SingleBody(p))
  {
    if |p| > 0 { SingleBodyIsCString(p[1..]); }
  }

  lemma SingleTurn(p: bytes, y: bytes)
    requires IsCString(p) && |p| > 0
    requires p[0] == BACKSLASH ==> |y| > 0 && y[0] != APOSTROPHE
    ensures var e := if p[0] == APOSTROPHE then [BACKSLASH, APOSTROPHE] else [p[0]];
      TurnOn(e + y, Single) == Next(Single, [p[0]], |e|) && (e + y)[|e|..] == y
  {
  }

  lemma SingleHead(p: bytes)
    requires |p| > 0
    ensures |SingleBody(p)| > 0 && SingleBody(p)[0] != APOSTROPHE
  {
  }

  /** A byte string between apostrophes, apostrophes escaped, is read as it is, unless it
      ends in a backslash. */
  lemma {:induction false} SingleToken(p: bytes, rest: bytes, collected: bytes)
    requires IsCString(p) && IsCString(rest) && Separated(InApostrophes([], p), rest) && !EndsInBackslash(p)
    ensures IsCString(SingleBody(p) + [APOSTROPHE] + rest)
    ensures Token(SingleBody(p) + [APOSTROPHE] + rest, Single, collected) == Some((collected + p, rest))
    decreases |p|
  {
    hide Token;
    SingleBodyIsCString(p);
    var x := SingleBody(p) + [APOSTROPHE] + rest;
    if |p| == 0 {
      assert x == [APOSTROPHE] + rest && x[1..] == rest && collected + p == collected;
      TokenTurn(x, Single, collected);
    } else {
      var y := SingleBody(p[1..]) + [APOSTROPHE] + rest;
      var e := if p[0] == APOSTROPHE then [BACKSLASH, APOSTROPHE] else [p[0]];
      assert x == e + y;
      SingleToken(p[1..], rest, collected + [p[0]]);
      if |p| > 1 { SingleHead(p[1..]); }
      SingleTurn(p, y);
      TokenTurn(x, Single, collected);
      assert collected + [p[0]] + p[1..] == collected + p;
    }
  }

  /** The quotation mark or apostrophe that opens the last part of a word. */
  lemma Opening(mark: byte, y: bytes, collected: bytes)
    requires IsCString(y) && (mark == QUOTE || mark == APOSTROPHE)
    ensures IsCString([mark] + y)
    ensures Token([mark] + y, Plain, collected) == Token(y, if mark == QUOTE then Double else Single, collected)
  {
    assert ([mark] + y)[1..] == y && collected + [] == collected;
    TokenTurn([mark] + y, Plain, collected);
  }

  lemma EndOfWord(y: bytes, collected: bytes)
    requires IsCString(y) && (|y| == 0 || EndsWord(y[0]))
    ensures Token(y, Plain, collected) == Some((collected, if |y| == 0 then [] else y[1..]))
  {
    TokenTurn(y, Plain, collected);
  }

  lemma ReprStart(p: bytes, y: bytes)
    ensures Repr(p) + y == [QUOTE] + (Body(p) + [QUOTE] + y)
  {
    hide Body;
  }

  lemma BareWord(w: bytes, y: bytes)
    requires IsWord(Bare(w)) && IsCString(y) && Separated(Bare(w), y)
    ensures IsCString(w + y) && Token(w + y, Plain, []) == Some((w, if |y| > 0 then y[1..] else y))
  {
    hide Token, IsCString;
    BareToken(w, y, []);
    EndOfWord(y, w);
    assert [] + w == w;
  }

  lemma QuotedWord(w: bytes, p: bytes, y: bytes)
    requires IsWord(InQuotes(w, p)) && IsCString(y) && Separated(InQuotes(w, p), y)
    ensures var x := w + Repr(p) + y; IsCString(x) && Token(x, Plain, []) == Some((w + p, y))
  {
    hide Token, IsCString, Repr, Body;
    BodyRoundTrip(p, y, w);
    Opening(QUOTE, Body(p) + [QUOTE] + y, w);
    ReprStart(p, y);
    BareToken(w, Repr(p) + y, []);
    assert [] + w == w && w + Repr(p) + y == w + (Repr(p) + y);
  }

  lemma ApostropheWord(w: bytes, p: bytes, y: bytes)
    requires IsWord(InApostrophes(w, p)) && IsCString(y) && Separated(InApostrophes(w, p), y)
    ensures var x := w + ([APOSTROPHE] + SingleBody(p) + [APOSTROPHE]) + y;
      IsCString(x) && Token(x, Plain, []) == Some((w + p, y))
  {
    hide Token, IsCString, SingleBody;
    SingleToken(p, y, w);
    var q := [APOSTROPHE] + (SingleBody(p) + [APOSTROPHE] + y);
    Opening(APOSTROPHE, SingleBody(p) + [APOSTROPHE] + y, w);
    BareToken(w, q, []);
    assert [] + w == w && w + ([APOSTROPHE] + SingleBody(p) + [APOSTROPHE]) + y == w + q;
  }

  lemma WordStart(a: Word, y: bytes)
    requires IsWord(a)
    ensures var x := Written(a) + y; |x| > 0 && !IsSpace(x[0])
  {
  }

  /** One word at the front of a line, and what is left behind it but for blanks. */
  lemma WordToken(a: Word, y: bytes)
    requires IsWord(a) && IsCString(y) && Separated(a, y)
    ensures var x := Written(a) + y;
      && |x| > 0 && IsCString(x) && !IsSpace(x[0])
      && Token(x, Plain, []) == Some((Meaning(a), if a.Bare? && |y| > 0 then y[1..] else y))
  {
    hide Token, Repr, SingleBody, IsWord, IsCString, Separated;
    WordStart(a, y);
    match a
    case Bare(w) => BareWord(w, y);
    case InQuotes(w, p) => QuotedWord(w, p, y);
    case InApostrophes(w, p) => ApostropheWord(w, p, y);
  }

  lemma {:induction false} SkipAll(g: bytes, y: bytes)
    requires Blanks(g) && IsCString(y)
    ensures IsCString(g + y) && SkipBlanks(g + y) == SkipBlanks(y)
  {
    if |g| == 0 {
      assert g + y == y;
    } else {
      assert (g + y)[1..] == g[1..] + y;
      SkipAll(g[1..], y);
    }
  }

  lemma SplitPast(g: bytes, y: bytes)
    requires Blanks(g) && IsCString(y)
    ensures IsCString(g + y) && Split(g + y) == Split(y)
  {
    hide SkipBlanks, Token;
    SkipAll(g, y);
  }

  lemma SplitFirst(x: bytes)
    requires |x| > 0 && IsCString(x) && !IsSpace(x[0]) && Token(x, Plain, []).Some?
    ensures var (t, rest) := Token(x, Plain, []).value;
      Split(x) == match Split(rest) case None => None case Some(ts) => Some([t] + ts)
  {
    hide Token;
    assert SkipBlanks(x) == x;
  }

  lemma LineTail(words: seq<(Word, bytes)>, y: bytes)
    requires IsLine(words) && |words| > 0 && (|y| > 0 ==> |words[|words| - 1].1| > 0)
    ensures var (a, g) := words[0];
      && IsWord(a) && Blanks(g) && Blanks([]) && IsLine(words[1..])
      && Separated(a, g + (LineOf(words[1..]) + y))
  {
    hide IsWord;
    var (a, g) := words[0];
    if |g| == 0 { assert words[1..] == []; }
  }

  lemma BlanksTail(words: seq<(Word, bytes)>, y: bytes)
    requires IsLine(words) && |words| > 0 && (|y| > 0 ==> |words[|words| - 1].1| > 0)
    requires |words[0].1 + (LineOf(words[1..]) + y)| > 0
    ensures |words[0].1| > 0 && Blanks(words[0].1[1..])
  {
    hide IsWord;
  }

  lemma NoWords()
    ensures LineOf([]) == [] && IsLine([])
  {
  }

  /** One word and its blanks in front of the rest of a line. */
  lemma SplitsWord(a: Word, g: bytes, more: bytes)
    requires IsWord(a) && Blanks(g) && IsCString(more) && Separated(a, g + more)
    requires a.Bare? && |g + more| > 0 ==> |g| > 0 && Blanks(g[1..])
    ensures var x := Written(a) + (g + more); IsCString(x) && Split(x) == Preceded([Meaning(a)], Split(more))
  {
    hide Token, Split, Written, IsWord, Meaning, Separated, Blanks, IsCString;
    SplitPast(g, more);
    WordToken(a, g + more);
    SplitFirst(Written(a) + (g + more));
    if a.Bare? && |g + more| > 0 {
      assert (g + more)[1..] == g[1..] + more;
      SplitPast(g[1..], more);
    }
  }

  lemma PrecededByAll(a: bytes, rest: seq<bytes>, r: Option<seq<bytes>>)
    ensures Preceded([a], Preceded(rest, r)) == Preceded([a] + rest, r)
  {
    if r.Some? { Regroup([a], rest, r.value); }
  }

  lemma MeaningsCons(words: seq<(Word, bytes)>)
    requires |words| > 0
    ensures Meanings(words) == [Meaning(words[0].0)] + Meanings(words[1..])
  {
    hide Meaning;
  }

  lemma LineStarts(words: seq<(Word, bytes)>, y: bytes)
    requires |words| > 0
    ensures LineOf(words) + y == Written(words[0].0) + (words[0].1 + (LineOf(words[1..]) + y))
  {
    hide Written;
    Regroup(words[0].1, LineOf(words[1..]), y);
    Regroup(Written(words[0].0), words[0].1 + LineOf(words[1..]), y);
  }

  lemma NoMeanings(words: seq<(Word, bytes)>, y: bytes)
    requires words == [] && IsCString(y)
    ensures Preceded(Meanings(words), Split(y)) == Split(y)
  {
    hide Split;
    if Split(y).Some? { assert [] + Split(y).value == Split(y).value; }
  }

  /** Words behind any blanks, in any of the ways to write them and with any blanks between
      them, are split into exactly what they mean, in order, in front of what the rest of
      the line gives. */
  lemma {:induction false} SplitsWords(lead: bytes, words: seq<(Word, bytes)>, y: bytes)
    requires Blanks(lead) && IsLine(words) && IsCString(y)
    requires |words| > 0 && |y| > 0 ==> |words[|words| - 1].1| > 0
    ensures var x := lead + (LineOf(words) + y);
      IsCString(x) && Split(x) == Preceded(Meanings(words), Split(y))
    decreases |words|
  {
    hide Split, Written, IsWord, Meaning, Meanings, IsLine, LineOf, Separated, Blanks, IsCString;
    if |words| == 0 {
      NoWords();
      assert LineOf(words) + y == y;
      SplitPast(lead, y);
      NoMeanings(words, y);
    } else {
      var (a, g) := words[0];
      var more := LineOf(words[1..]) + y;
      LineTail(words, y);
      SplitsWords([], words[1..], y);
      assert [] + more == more;
      if |g + more| > 0 { BlanksTail(words, y); }
      SplitsWord(a, g, more);
      LineStarts(words, y);
      SplitPast(lead, LineOf(words) + y);
      PrecededByAll(Meaning(a), Meanings(words[1..]), Split(y));
      MeaningsCons(words);
    }
  }

  lemma NothingToSplit()
    ensures IsCString([]) && Split([]) == Some([])
  {
    assert SkipBlanks([]) == [];
  }

  /** A whole line of words, and nothing else. */
  lemma SplitsLine(lead: bytes, words: seq<(Word, bytes)>)
    requires Blanks(lead) && IsLine(words)
    ensures var x := lead + LineOf(words); IsCString(x) && Split(x) == Some(Meanings(words))
  {
    hide Split, LineOf, IsLine;
    SplitsWords(lead, words, []);
    NothingToSplit();
    assert lead + (LineOf(words) + []) == lead + LineOf(words) && Meanings(words) + [] == Meanings(words);
  }

  lemma SingleCons(c: byte, p: bytes)
    ensures SingleBody([c] + p) == (if c == APOSTROPHE then [BACKSLASH, APOSTROPHE] else [c]) + SingleBody(p)
  {
    assert ([c] + p)[1..] == p;
  }

  /** Printable bytes that need no backslash stand for themselves. */
  lemma {:induction false} PlainBody(p: bytes)
    requires forall i :: 0 <= i < |p| ==> IsPrint(p[i]) && p[i] != QUOTE && p[i] != BACKSLASH
    ensures Body(p) == p
  {
    if |p| > 0 { PlainBody(p[1..]); }
  }

  lemma NoSingle()
    ensures SingleBody([]) == []
  {
  }

  lemma ExampleSingle()
    ensures Written(InApostrophes([], Ascii("it's"))) == Ascii("'it\\'s'")
  {
    hide SingleBody;
    var i, t, m, l := Ascii("i"), Ascii("t"), Ascii("'"), Ascii("s");
    SingleCons(l[0], []);
    SingleCons(m[0], [l[0]]);
    SingleCons(t[0], [m[0], l[0]]);
    SingleCons(i[0], [t[0], m[0], l[0]]);
    assert SingleBody([]) == [] by { NoSingle(); }
    assert [i[0]] + [t[0], m[0], l[0]] == Ascii("it's") && [t[0]] + [m[0], l[0]] == [t[0], m[0], l[0]];
    assert [m[0]] + [l[0]] == [m[0], l[0]] && [l[0]] + [] == [l[0]];
    assert SingleBody(Ascii("it's")) == Ascii("it\\'s");
    assert [] + ([APOSTROPHE] + Ascii("it\\'s") + [APOSTROPHE]) == Ascii("'it\\'s'");
  }

  lemma ExampleDouble()
    ensures Written(InQuotes(Ascii("a"), Ascii("b c"))) == Ascii("a\"b c\"")
    ensures Meaning(InQuotes(Ascii("a"), Ascii("b c"))) == Ascii("ab c")
  {
    hide Body;
    PlainBody(Ascii("b c"));
  }

  lemma LineOfCons(a: (Word, bytes), more: seq<(Word, bytes)>)
    ensures LineOf([a] + more) == Written(a.0) + (a.1 + LineOf(more))
  {
    hide Written;
    assert ([a] + more)[1..] == more;
  }

  lemma LineCons(a: (Word, bytes), more: seq<(Word, bytes)>)
    requires IsLine([a]) && IsLine(more) && (|more| > 0 ==> |a.1| > 0)
    ensures IsLine([a] + more) && LineOf([a] + more) == Written(a.0) + (a.1 + LineOf(more))
  {
    hide IsItem, Written, LineOf;
    LineOfCons(a, more);
    var all := [a] + more;
    assert IsItem([a][0]);
    forall i | 0 <= i < |all| ensures IsItem(all[i]) && (i + 1 < |all| ==> |all[i].1| > 0) {
      if i > 0 { assert all[i] == more[i - 1]; }
    }
  }

  lemma ExampleIsLine()
    ensures IsLine([(Bare(Ascii("set")), Ascii(" "))]) && IsLine([(Bare(Ascii("key")), Ascii("\t"))])
    ensures IsLine([(InApostrophes([], Ascii("it's")), Ascii(" "))])
    ensures IsLine([(InQuotes(Ascii("a"), Ascii("b c")), Ascii("\r\n"))])
    ensures Blanks(Ascii("\t "))
  {
  }

  lemma BareWritten()
    ensures forall w :: Written(Bare(w)) == w == Meaning(Bare(w))
    ensures forall p :: Meaning(InApostrophes([], p)) == p
  {
  }

  /** A line with all three ways to write an argument and different blanks. */
  lemma LineExample()
    ensures var x := Ascii("\t ") + (Ascii("set") + (Ascii(" ") + (Ascii("key") + (Ascii("\t")
        + (Ascii("'it\\'s'") + (Ascii(" ") + (Ascii("a\"b c\"") + (Ascii("\r\n") + []))))))));
      IsCString(x) && Split(x) == Some([Ascii("set"), Ascii("key"), Ascii("it's"), Ascii("ab c")])
  {
    hide Split, LineOf, Written, Meaning, IsCString, IsLine, Blanks;
    ExampleSingle();
    ExampleDouble();
    ExampleIsLine();
    BareWritten();
    var (a, b, c, d) := ((Bare(Ascii("set")), Ascii(" ")), (Bare(Ascii("key")), Ascii("\t")),
      (InApostrophes([], Ascii("it's")), Ascii(" ")), (InQuotes(Ascii("a"), Ascii("b c")), Ascii("\r\n")));
    NoWords();
    LineCons(d, []);
    LineCons(c, [d] + []);
    LineCons(b, [c] + ([d] + []));
    LineCons(a, [b] + ([c] + ([d] + [])));
    var words := [a] + ([b] + ([c] + ([d] + [])));
    SplitsLine(Ascii("\t "), words);
    assert Meanings(words) == [Ascii("set"), Ascii("key"), Ascii("it's"), Ascii("ab c")];
  }

  // ----- what is refused -----

  lemma {:induction false} NeverClosed(y: bytes, mode: Mode, collected: bytes)
    requires IsCString(y) && mode != Plain
    requires forall i :: 0 <= i < |y| ==> y[i] != if mode == Double then QUOTE else APOSTROPHE
    ensures Token(y, mode, collected) == None
    decreases |y|
  {
    TokenTurn(y, mode, collected);
    var t := TurnOn(y, mode);
    if t.Next? { NeverClosed(y[t.used..], mode, collected + t.add); }
  }

  lemma {:induction false} BodyNotClosed(p: bytes, collected: bytes)
    ensures IsCString(Body(p)) && Token(Body(p), Double, collected) == None
    decreases |p|
  {
    BodyIsPrintable(p);
    if |p| == 0 {
      TokenTurn([], Double, collected);
    } else {
      BodyIsPrintable(p[1..]);
      EscapeTurn(p[0], Body(p[1..]));
      assert (Escape(p[0]) + Body(p[1..]))[|Escape(p[0])|..] == Body(p[1..]);
      TokenTurn(Body(p), Double, collected);
      BodyNotClosed(p[1..], collected + [p[0]]);
    }
  }

  lemma RefusedFirst(x: bytes)
    requires |x| > 0 && IsCString(x) && !IsSpace(x[0]) && Token(x, Plain, []) == None
    ensures Split(x) == None
  {
    hide Token;
    assert SkipBlanks(x) == x;
  }

  /** A quotation mark or apostrophe that opens and never closes leaves no list, and so does
      the quoted form of any string without its last mark. */
  lemma UnbalancedIsRefused(a: Word, mark: byte, y: bytes)
    requires a.Bare? && IsWord(a) && (mark == QUOTE || mark == APOSTROPHE)
    requires IsCString(y) && forall i :: 0 <= i < |y| ==> y[i] != mark
    ensures var x := a.w + ([mark] + y); IsCString(x) && Split(x) == None
  {
    hide Token;
    NeverClosed(y, if mark == QUOTE then Double else Single, [] + a.w);
    Opening(mark, y, [] + a.w);
    BareToken(a.w, [mark] + y, []);
    RefusedFirst(a.w + ([mark] + y));
  }

  lemma CutReprIsRefused(p: bytes)
    ensures var x := [QUOTE] + Body(p); IsCString(x) && Split(x) == None
  {
    hide Token, Body;
    BodyNotClosed(p, []);
    Opening(QUOTE, Body(p), []);
    RefusedFirst([QUOTE] + Body(p));
  }

  lemma {:induction false} SingleStuck(p: bytes, c: byte, rest: bytes, collected: bytes)
    requires IsCString(p) && !EndsInBackslash(p) && IsCString([c] + rest) && !IsSpace(c)
    ensures var x := SingleBody(p) + [APOSTROPHE] + ([c] + rest);
      IsCString(x) && Token(x, Single, collected) == None
    decreases |p|
  {
    hide Token;
    SingleBodyIsCString(p);
    FirstOfCString(c, rest);
    var x := SingleBody(p) + [APOSTROPHE] + ([c] + rest);
    if |p| == 0 {
      assert x == [APOSTROPHE] + ([c] + rest) && At(x, 1) == c;
      TokenTurn(x, Single, collected);
    } else {
      var y := SingleBody(p[1..]) + [APOSTROPHE] + ([c] + rest);
      var e := if p[0] == APOSTROPHE then [BACKSLASH, APOSTROPHE] else [p[0]];
      assert x == e + y;
      SingleStuck(p[1..], c, rest, collected + [p[0]]);
      if |p| > 1 { SingleHead(p[1..]); }
      SingleTurn(p, y);
      TokenTurn(x, Single, collected);
    }
  }

  /** The same for a closing apostrophe. */
  lemma TouchingApostrophe(p: bytes, c: byte, rest: bytes)
    requires IsCString(p) && !EndsInBackslash(p) && IsCString([c] + rest) && !IsSpace(c)
    ensures var x := [APOSTROPHE] + (SingleBody(p) + [APOSTROPHE] + ([c] + rest)); IsCString(x) && Split(x) == None
  {
    hide Token, SingleBody;
    SingleStuck(p, c, rest, []);
    Opening(APOSTROPHE, SingleBody(p) + [APOSTROPHE] + ([c] + rest), []);
    RefusedFirst([APOSTROPHE] + (SingleBody(p) + [APOSTROPHE] + ([c] + rest)));
  }

  /** Wherever it stands behind other words. */
  lemma RefusedAnywhere(lead: bytes, words: seq<(Word, bytes)>, y: bytes)
    requires Blanks(lead) && IsLine(words) && IsCString(y) && Split(y) == None
    requires |words| > 0 ==> |words[|words| - 1].1| > 0
    ensures var x := lead + (LineOf(words) + y); IsCString(x) && Split(x) == None
  {
    hide Split, LineOf, IsLine;
    SplitsWords(lead, words, y);
  }

  lemma TailIsCString(p: bytes)
    requires IsCString(p) && |p| > 0
    ensures IsCString(p[1..])
  {
  }

  lemma ClosedIsCString(p: bytes)
    requires IsCString(SingleBody(p))
    ensures IsCString(SingleBody(p) + [APOSTROPHE])
  {
    hide SingleBody;
  }

  lemma SingleFirst(p: bytes)
    requires |p| > 0
    ensures SingleBody(p) + [APOSTROPHE]
      == (if p[0] == APOSTROPHE then [BACKSLASH, APOSTROPHE] else [p[0]]) + (SingleBody(p[1..]) + [APOSTROPHE])
    ensures |p| == 1 && p[0] == BACKSLASH ==> SingleBody(p) + [APOSTROPHE] == [BACKSLASH, APOSTROPHE]
  {
    if |p| == 1 { assert p[1..] == [] && SingleBody(p[1..]) == []; }
  }

  lemma EscapedEnd(x: bytes, collected: bytes)
    requires x == [BACKSLASH, APOSTROPHE] && IsCString(x)
    ensures Token(x, Single, collected) == None
  {
    TokenTurn(x, Single, collected);
    assert x[2..] == [];
    TokenTurn([], Single, collected + [APOSTROPHE]);
    hide Token;
  }

  lemma {:induction false} BackslashToken(p: bytes, collected: bytes)
    requires IsCString(p) && EndsInBackslash(p)
    ensures IsCString(SingleBody(p) + [APOSTROPHE])
    ensures Token(SingleBody(p) + [APOSTROPHE], Single, collected) == None
    decreases |p|
  {
    hide Token, TurnOn, IsCString, SingleBody;
    SingleBodyIsCString(p);
    ClosedIsCString(p);
    var x, y := SingleBody(p) + [APOSTROPHE], SingleBody(p[1..]) + [APOSTROPHE];
    var e := if p[0] == APOSTROPHE then [BACKSLASH, APOSTROPHE] else [p[0]];
    SingleFirst(p);
    TokenTurn(x, Single, collected);
    if |p| == 1 {
      EscapedEnd(x, collected);
    } else {
      TailIsCString(p);
      assert p[1..][|p| - 2] == p[|p| - 1];
      BackslashToken(p[1..], collected + [p[0]]);
      SingleHead(p[1..]);
      SingleTurn(p, y);
    }
  }

  lemma OneWord(a: Word)
    requires IsWord(a)
    ensures IsCString(Written(a)) && Split(Written(a)) == Some([Meaning(a)])
  {
    hide Split, Written, Meaning, IsWord;
    var words := [(a, [])];
    SplitsLine([], words);
    assert words[1..] == [];
    assert [] + LineOf(words) == Written(a) && Meanings(words) == [Meaning(a)];
  }

  /** A string stands between apostrophes for itself if and only if it does not end in a
      backslash, which would escape the closing one. */
  lemma ApostrophesIff(p: bytes)
    requires IsCString(p)
    ensures var x := [APOSTROPHE] + SingleBody(p) + [APOSTROPHE];
      IsCString(x) && (Split(x) == Some([p]) <==> !EndsInBackslash(p))
  {
    hide Split, Token, SingleBody;
    var x := [APOSTROPHE] + SingleBody(p) + [APOSTROPHE];
    assert x == [APOSTROPHE] + (SingleBody(p) + [APOSTROPHE]);
    if EndsInBackslash(p) {
      BackslashToken(p, []);
      Opening(APOSTROPHE, SingleBody(p) + [APOSTROPHE], []);
      RefusedFirst(x);
    } else {
      OneWord(InApostrophes([], p));
      assert [] + x == x && [] + p == p;
    }
  }

  // ----- escapes, by their characters -----

  /** What C's locale calls a space, and what it calls printable. */
  lemma CLocale(c: byte)
    ensures IsSpace(c) <==> c == ' ' as int || '\t' as int <= c <= '\r' as int
    ensures IsPrint(c) <==> ' ' as int <= c <= '~' as int
  {
  }

  /** How sdscatrepr writes each byte. */
  lemma EscapeTable(c: byte)
    ensures c == '\n' as int ==> Escape(c) == Ascii("\\n")
    ensures c == '\r' as int ==> Escape(c) == Ascii("\\r")
    ensures c == '\t' as int ==> Escape(c) == Ascii("\\t")
    ensures c == 7 ==> Escape(c) == Ascii("\\a")
    ensures c == 8 ==> Escape(c) == Ascii("\\b")
    ensures c == '\\' as int ==> Escape(c) == Ascii("\\\\")
    ensures c == '"' as int ==> Escape(c) == Ascii("\\\"")
    ensures ' ' as int <= c <= '~' as int && c != '\\' as int && c != '"' as int ==> Escape(c) == [c]
    ensures (c < 7 || 10 < c < 13 || 13 < c < 32 || 126 < c) ==>
      Escape(c) == Ascii("\\x") + ["0123456789abcdef"[c / 16] as int, "0123456789abcdef"[c % 16] as int]
  {
  }

  lemma OneQuoted(y: bytes, v: bytes)
    requires IsCString(y) && Token(y, Double, []) == Some((v, []))
    ensures IsCString([QUOTE] + y) && Split([QUOTE] + y) == Some([v])
  {
    hide Token;
    Opening(QUOTE, y, []);
    SplitFirst([QUOTE] + y);
    NothingToSplit();
    assert [v] + [] == [v];
  }

  /** What a backslash and one more character mean between quotation marks. */
  lemma BackslashTable(c: byte)
    requires c != NUL
    ensures var x := Ascii("\"\\") + [c] + Ascii("\"");
      IsCString(x) && Split(x) == Some([[
        if c == 'n' as int then '\n' as int else if c == 'r' as int then '\r' as int
        else if c == 't' as int then '\t' as int else if c == 'b' as int then 8
        else if c == 'a' as int then 7 else c]])
  {
    var x, y := Ascii("\"\\") + [c] + Ascii("\""), Ascii("\\") + [c] + Ascii("\"");
    assert x == [QUOTE] + y && y == [BACKSLASH, c, QUOTE] && y[2..] == [QUOTE] && [QUOTE][1..] == [];
    var v := Unescape(c);
    assert [] + [v] == [v];
    TokenTurn(y, Double, []);
    TokenTurn([QUOTE], Double, [v]);
    OneQuoted(y, [v]);
  }

  lemma HexToken(a: byte, b: byte, h: int, l: int)
    requires HexValue(a) == Some(h) && HexValue(b) == Some(l)
    ensures var x := Ascii("\"\\x") + [a, b] + Ascii("\""); IsCString(x) && Split(x) == Some([[16 * h + l]])
  {
    var x, y := Ascii("\"\\x") + [a, b] + Ascii("\""), [BACKSLASH, 120, a, b, QUOTE];
    assert x == [QUOTE] + y && y[4..] == [QUOTE] && [QUOTE][1..] == [];
    var v := 16 * h + l;
    assert [] + [v] == [v];
    hide Split;
    TokenTurn(y, Double, []);
    TokenTurn([QUOTE], Double, [v]);
    OneQuoted(y, [v]);
  }

  /** What a backslash, x and two hexadecimal digits mean there. */
  lemma HexTable(h: int, l: int)
    requires 0 <= h < 16 && 0 <= l < 16
    ensures forall digits :: digits in ["0123456789abcdef", "0123456789ABCDEF"] ==>
      var x := Ascii("\"\\x") + [digits[h] as int, digits[l] as int] + Ascii("\"");
      IsCString(x) && Split(x) == Some([[16 * h + l]])
  {
    hide Split, IsCString;
    HexDigits(h);
    HexDigits(l);
    forall digits | digits in ["0123456789abcdef", "0123456789ABCDEF"]
      ensures var x := Ascii("\"\\x") + [digits[h] as int, digits[l] as int] + Ascii("\"");
        IsCString(x) && Split(x) == Some([[16 * h + l]])
    {
      HexToken(digits[h] as int, digits[l] as int, h, l);
    }
  }

  lemma FirstOfCString(c: byte, rest: bytes)
    requires IsCString([c] + rest)
    ensures c != NUL
  {
    assert ([c] + rest)[0] == c;
  }

  lemma {:induction false} BodyStuck(p: bytes, c: byte, rest: bytes, collected: bytes)
    requires IsCString([c] + rest) && !IsSpace(c)
    ensures var x := Body(p) + [QUOTE] + ([c] + rest); IsCString(x) && Token(x, Double, collected) == None
    decreases |p|
  {
    BodyLine(p, [c] + rest);
    var x := Body(p) + [QUOTE] + ([c] + rest);
    hide Token, IsCString;
    if |p| == 0 {
      assert x == [QUOTE] + ([c] + rest) && At(x, 1) == c && c != NUL by { FirstOfCString(c, rest); }
      TokenTurn(x, Double, collected);
    } else {
      var y := Body(p[1..]) + [QUOTE] + ([c] + rest);
      BodyFirst(p, [c] + rest);
      BodyLine(p[1..], [c] + rest);
      hide Body, Escape;
      EscapeTurn(p[0], y);
      TokenTurn(x, Double, collected);
      BodyStuck(p[1..], c, rest, collected + [p[0]]);
    }
  }

  /** A closing quotation mark that something other than a blank follows leaves no list. */
  lemma TouchingIsRefused(p: bytes, c: byte, rest: bytes)
    requires IsCString([c] + rest) && !IsSpace(c)
    ensures var x := Repr(p) + ([c] + rest); IsCString(x) && Split(x) == None
  {
    hide Token, Body;
    BodyStuck(p, c, rest, []);
    Opening(QUOTE, Body(p) + [QUOTE] + ([c] + rest), []);
    ReprStart(p, [c] + rest);
    RefusedFirst(Repr(p) + ([c] + rest));
  }
}
