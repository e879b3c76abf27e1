/** The text forms of a JSON Pointer as RFC 6901 describes them, and the parser and writer
    of PointerText against that description. Character codes are written as characters. */
module PointerRfc {
  import opened Bytes
  import opened PointerText
  import Decimal
  import Utf

  // ----- array indices, as section 4 of RFC 6901 describes them -----

  /** A name that is the decimal text of a number below 2^32 - 1 has it for an index; one that
      is no number's text, for its characters or a leading zero, has none. */
  lemma IndexIs(name: bytes, v: nat)
    ensures name == Decimal.Dec(v) && v < 4294967295 ==> TokenIndex(name) == v
    ensures (forall n: nat :: name != Decimal.Dec(n)) ==> TokenIndex(name) == 4294967295
  {
    if IsNumber(name) {
      assert Decimal.Canonical(name);
      Decimal.CanonicalDec(name);
      IndexContract(name);
    }
    if name == Decimal.Dec(v) { Decimal.DecCanonical(v); }
    hide Accumulate, Decimal.Dec, Decimal.Val;
  }

  // ----- the plain text, as sections 3 and 4 of RFC 6901 describe it -----

  /** Every occurrence of two characters replaced by one, from the left. */
  function Replaced(x: bytes, a: char, b: char, c: char): bytes
    requires a as int < 128 && b as int < 128 && c as int < 128
  {
    if |x| == 0 then []
    else if |x| > 1 && x[0] == a as int && x[1] == b as int then [c as int] + Replaced(x[2..], a, b, c)
    else [x[0]] + Replaced(x[1..], a, b, c)
  }

  /** First every ~1 becomes a solidus, then every ~0 a tilde. */
  function Evaluated(segment: bytes): bytes { Replaced(Replaced(segment, '~', '1', '/'), '~', '0', '~') }

  /** A tilde that neither 0 nor 1 follows. */
  predicate BadTilde(x: bytes, i: nat)
    requires i < |x|
  {
    x[i] == '~' as int && (i + 1 == |x| || (x[i + 1] != '0' as int && x[i + 1] != '1' as int))
  }

  predicate TildesOk(x: bytes) { forall i :: 0 <= i < |x| ==> !BadTilde(x, i) }

  function SegmentLength(x: bytes): (n: nat)
    ensures n <= |x| && (n < |x| ==> x[n] == '/' as int) && forall i :: 0 <= i < n ==> x[i] != '/' as int
  {
    if |x| == 0 || x[0] == '/' as int then 0
    else
      var n := SegmentLength(x[1..]) + 1;
      assert forall i :: 1 <= i < n ==> x[i] == x[1..][i - 1];
      n
  }

  /** What stands between the solidi, each of which starts a segment. */
  function Segments(x: bytes): seq<bytes>
    requires x == [] || x[0] == '/' as int
  {
    if x == [] then []
    else
      var n := SegmentLength(x[1..]);
      [x[1..][..n]] + Segments(x[1..][n..])
  }

  function Named(segments: seq<bytes>): (ts: seq<Token>)
    ensures |ts| == |segments|
    ensures forall i :: 0 <= i < |ts| ==> ts[i] == MakeToken(Evaluated(segments[i]))
  {
    seq(|segments|, i requires 0 <= i < |segments| => MakeToken(Evaluated(segments[i])))
  }

  lemma EvaluatedStep(x: bytes)
    requires |x| > 0 && !BadTilde(x, 0)
    ensures Evaluated(x) ==
      if x[0] == '~' as int then [if x[1] == '0' as int then '~' as int else '/' as int] + Evaluated(x[2..])
      else [x[0]] + Evaluated(x[1..])
  {
    if x[0] == '~' as int && x[1] == '0' as int {
      var y := Replaced(x[2..], '~', '1', '/');
      assert x[1..][1..] == x[2..];
      assert Replaced(x[1..], '~', '1', '/') == ['0' as int] + y;
      var z := ['~' as int, '0' as int] + y;
      assert Replaced(x, '~', '1', '/') == z && z[2..] == y;
    } else if x[0] == '~' as int {
      assert (['/' as int] + Replaced(x[2..], '~', '1', '/'))[1..] == Replaced(x[2..], '~', '1', '/');
    } else {
      assert ([x[0]] + Replaced(x[1..], '~', '1', '/'))[1..] == Replaced(x[1..], '~', '1', '/');
    }
  }

  lemma TildesTail(x: bytes, k: nat)
    requires TildesOk(x) && k <= |x|
    ensures TildesOk(x[k..])
  {
    forall i | 0 <= i < |x| - k ensures !BadTilde(x[k..], i) { assert !BadTilde(x, i + k); }
  }

  lemma NoPlain(y: bytes)
    requires y == [] || y[0] == '/' as int
    ensures Evaluated([]) == [] && Name(false, y) == GoodName([], y)
  {
  }

  lemma FirstIsFine(x: bytes)
    requires |x| > 0 && TildesOk(x) && SegmentLength(x) == |x|
    ensures !BadTilde(x, 0) && x[0] != '/' as int
  {
  }

  lemma TakesPlain(x: bytes, y: bytes)
    requires |x| > 0 && !BadTilde(x, 0) && x[0] != '/' as int
    ensures Name(false, x + y) ==
      if x[0] == '~' as int then Preceded([if x[1] == '0' as int then '~' as int else '/' as int],
        Name(false, x[2..] + y))
      else Preceded([x[0]], Name(false, x[1..] + y))
  {
    assert (x + y)[1..] == x[1..] + y;
    if x[0] == '~' as int { assert (x + y)[1..][1..] == x[2..] + y; }
  }

  lemma NoSolidus(x: bytes, k: nat)
    requires SegmentLength(x) == |x| && k <= |x|
    ensures SegmentLength(x[k..]) == |x| - k
  {
    if SegmentLength(x[k..]) < |x| - k { assert x[k..][SegmentLength(x[k..])] == x[SegmentLength(x[k..]) + k]; }
  }

  /** A plain segment without a bad tilde gives its evaluated name. */
  lemma {:induction false} NameEvaluates(x: bytes, y: bytes)
    requires TildesOk(x) && SegmentLength(x) == |x| && (y == [] || y[0] == '/' as int)
    ensures Name(false, x + y) == GoodName(Evaluated(x), y)
    decreases |x|
  {
    hide Evaluated, Name, TildesOk, SegmentLength;
    if |x| == 0 {
      assert x + y == y;
      NoPlain(y);
    } else {
      FirstIsFine(x);
      EvaluatedStep(x);
      var k := if x[0] == '~' as int then 2 else 1;
      TildesTail(x, k);
      NoSolidus(x, k);
      NameEvaluates(x[k..], y);
      TakesPlain(x, y);
    }
  }

  lemma SegmentAlone(x: bytes)
    ensures SegmentLength(x[..SegmentLength(x)]) == SegmentLength(x)
  {
  }

  lemma TildesFront(x: bytes, n: nat)
    requires TildesOk(x) && n <= |x| && (n < |x| ==> x[n] == '/' as int)
    ensures TildesOk(x[..n])
  {
    forall i | 0 <= i < n ensures !BadTilde(x[..n], i) { assert !BadTilde(x, i); }
  }

  lemma FirstPlainSegment(x: bytes)
    requires |x| > 0 && x[0] == '/' as int && TildesOk(x)
    ensures var n := SegmentLength(x[1..]);
      && Name(false, x[1..]) == GoodName(Evaluated(x[1..][..n]), x[1..][n..]) && TildesOk(x[1..][n..])
      && (x[1..][n..] == [] || x[1..][n..][0] == '/' as int)
  {
    hide TildesOk, Evaluated, Name;
    var n := SegmentLength(x[1..]);
    TildesTail(x, 1);
    TildesFront(x[1..], n);
    TildesTail(x[1..], n);
    SegmentAlone(x[1..]);
    NameEvaluates(x[1..][..n], x[1..][n..]);
    assert x[1..][..n] + x[1..][n..] == x[1..];
  }

  lemma NamedCons(segment: bytes, segments: seq<bytes>)
    ensures Named([segment] + segments) == [MakeToken(Evaluated(segment))] + Named(segments)
  {
    hide Evaluated, TokenIndex;
  }

  lemma NoSegments()
    ensures Segments([]) == [] && Named([]) == [] && Tokens(true, []) == Parsed([])
  {
  }

  /** A text without a bad tilde is parsed into its segments, each evaluated. */
  lemma {:induction false} SegmentsAreTokens(x: bytes)
    requires (x == [] || x[0] == '/' as int) && TildesOk(x)
    ensures Tokens(false, x) == Parsed(Named(Segments(x)))
    decreases |x|
  {
    hide Evaluated, Name, TokenIndex, TildesOk, Named, SegmentLength;
    if |x| == 0 {
      NoSegments();
    } else {
      var n := SegmentLength(x[1..]);
      FirstPlainSegment(x);
      SegmentsAreTokens(x[1..][n..]);
      NamedCons(x[1..][..n], Segments(x[1..][n..]));
    }
  }

  /** The first bad tilde. */
  predicate FirstBad(x: bytes, i: nat) { i < |x| && BadTilde(x, i) && TildesOk(x[..i]) }

  lemma {:induction false} NameStops(x: bytes, i: nat)
    requires FirstBad(x, i) && SegmentLength(x[..i]) == i
    ensures Name(false, x) == BadName(InvalidEscape, x[i + 1..])
    decreases |x|
  {
    if i > 0 {
      assert !BadTilde(x[..i], 0) && x[..i][0] != '/' as int;
      var k := if x[0] == '~' as int then 2 else 1;
      assert x[k..][..i - k] == x[..i][k..] && x[k..][i - k + 1..] == x[i + 1..];
      TildesTail(x[..i], k);
      NoSolidus(x[..i], k);
      assert BadTilde(x[k..], i - k);
      NameStops(x[k..], i - k);
      assert x[1..][k - 1..] == x[k..];
    }
  }

  lemma BadTail(x: bytes, i: nat, k: nat)
    requires FirstBad(x, i) && k <= i < |x|
    ensures FirstBad(x[k..], i - k) && x[k..][i - k + 1..] == x[i + 1..]
  {
    assert x[k..][..i - k] == x[..i][k..];
    TildesTail(x[..i], k);
    hide TildesOk;
  }

  lemma NoSolidusFront(x: bytes, k: nat)
    requires k <= SegmentLength(x)
    ensures SegmentLength(x[..k]) == k
  {
  }

  lemma BadInFirst(x: bytes, i: nat)
    requires |x| > 0 && x[0] == '/' as int && FirstBad(x, i) && i <= SegmentLength(x[1..])
    ensures Name(false, x[1..]) == BadName(InvalidEscape, x[i + 1..])
  {
    hide Name, TildesOk;
    BadTail(x, i, 1);
    NoSolidusFront(x[1..], i - 1);
    NameStops(x[1..], i - 1);
  }

  lemma FrontIsOk(x: bytes, i: nat, n: nat)
    requires FirstBad(x, i) && n == SegmentLength(x[1..]) && i > n && n + 1 < |x|
    ensures TildesOk(x[1..][..n])
  {
    assert x[n + 1] == '/' as int;
    forall j | 0 <= j < n ensures !BadTilde(x[1..][..n], j) { assert !BadTilde(x[..i], j + 1); }
  }

  lemma SegmentEnds(x: bytes)
    ensures var k := SegmentLength(x); k <= |x| && (k < |x| ==> x[k] == '/' as int)
  {
  }

  lemma BadBehind(x: bytes, i: nat, n: nat)
    requires |x| > 0 && x[0] == '/' as int && FirstBad(x, i) && i > n == SegmentLength(x[1..])
    ensures n + 1 < |x| && x[n + 1] == '/' as int
    ensures Name(false, x[1..]) == GoodName(Evaluated(x[1..][..n]), x[n + 1..])
  {
    hide Name, Evaluated, TildesOk, SegmentLength;
    SegmentEnds(x[1..]);
    FrontIsOk(x, i, n);
    SegmentAlone(x[1..]);
    NameEvaluates(x[1..][..n], x[n + 1..]);
    assert x[1..][..n] + x[n + 1..] == x[1..];
  }

  /** A bad tilde is refused at the character behind it, the first one if there are more. */
  lemma {:induction false} BadTildeIsRefused(x: bytes, i: nat)
    requires |x| > 0 && x[0] == '/' as int && i < |x| && FirstBad(x, i)
    ensures Tokens(false, x) == Failed(InvalidEscape, x[i + 1..])
    decreases |x|
  {
    hide Name, Evaluated, TokenIndex, FirstBad, SegmentLength;
    var n := SegmentLength(x[1..]);
    if i <= n {
      BadInFirst(x, i);
    } else {
      BadBehind(x, i, n);
      BadTail(x, i, n + 1);
      BadTildeIsRefused(x[n + 1..], i - n - 1);
    }
  }

  /** Every occurrence of a character replaced by two. */
  function Substituted(x: bytes, c: char, a: char, b: char): bytes
    requires a as int < 128 && b as int < 128
  {
    if |x| == 0 then []
    else (if x[0] == c as int then [a as int, b as int] else [x[0]]) + Substituted(x[1..], c, a, b)
  }

  /** First every tilde becomes ~0, then every solidus ~1. */
  function Escaped(name: bytes): bytes { Substituted(Substituted(name, '~', '~', '0'), '/', '~', '1') }

  lemma EscapedTilde(n: bytes)
    requires |n| > 0 && n[0] == '~' as int
    ensures Escaped(n) == Ascii("~0") + Escaped(n[1..])
  {
    var once := Substituted(n[1..], '~', '~', '0');
    var y := ['0' as int] + once;
    assert Substituted(n, '~', '~', '0') == ['~' as int] + y && (['~' as int] + y)[1..] == y && y[1..] == once;
    assert Substituted(y, '/', '~', '1') == ['0' as int] + Substituted(once, '/', '~', '1');
    assert Ascii("~0") == ['~' as int, '0' as int];
  }

  lemma EscapedStep(n: bytes)
    requires |n| > 0
    ensures Escaped(n) ==
      (if n[0] == '~' as int then Ascii("~0") else if n[0] == '/' as int then Ascii("~1") else [n[0]]) + Escaped(n[1..])
  {
    if n[0] == '~' as int {
      EscapedTilde(n);
    } else {
      var once := Substituted(n[1..], '~', '~', '0');
      assert ([n[0]] + once)[1..] == once && Ascii("~1") == ['~' as int, '1' as int];
    }
  }

  lemma {:induction false} NameEscapes(n: bytes)
    ensures NameText(false, n) == Some(Escaped(n))
  {
    if |n| > 0 {
      EscapedStep(n);
      NameEscapes(n[1..]);
      assert Ascii("~0") == [TILDE, 48] && Ascii("~1") == [TILDE, 49];
      hide Escaped;
    }
  }

  function Slashed(names: seq<bytes>): bytes {
    if |names| == 0 then [] else Ascii("/") + (Escaped(names[0]) + Slashed(names[1..]))
  }

  function NamesOf(ts: seq<Token>): (r: seq<bytes>)
    ensures |r| == |ts| && forall i :: 0 <= i < |ts| ==> r[i] == ts[i].name
  {
    seq(|ts|, i requires 0 <= i < |ts| => ts[i].name)
  }

  /** A pointer is written as its names, escaped, each behind a solidus. */
  lemma {:induction false} PlainTextIs(ts: seq<Token>)
    ensures PointerTextOf(false, ts) == Some(Slashed(NamesOf(ts)))
  {
    hide Escaped, NameText;
    if |ts| > 0 {
      NameEscapes(ts[0].name);
      PlainTextIs(ts[1..]);
      assert NamesOf(ts)[1..] == NamesOf(ts[1..]) && Ascii("/") == [SLASH];
      Regroup([SLASH], Escaped(ts[0].name), Slashed(NamesOf(ts[1..])));
    }
  }

  /** Parse on a text that is not a fragment: the RFC's segments, each evaluated, or the
      error at the first character that is wrong. */
  lemma PlainSource(source: bytes)
    requires |source| > 0 ==> source[0] != '#' as int
    ensures source != [] && source[0] != '/' as int ==> ParseText(source) == Failed(TokenMustBeginWithSolidus, source)
    ensures (source == [] || source[0] == '/' as int) && TildesOk(source) ==>
      ParseText(source) == Parsed(Named(Segments(source)))
    ensures forall i: nat :: i < |source| && source[0] == '/' as int && FirstBad(source, i) ==>
      ParseText(source) == Failed(InvalidEscape, source[i + 1..])
  {
    hide TildesOk, Named, Segments, Tokens, FirstBad;
    if source == [] || source[0] == '/' as int {
      if TildesOk(source) { SegmentsAreTokens(source); }
      forall i: nat | source != [] && i < |source| && FirstBad(source, i)
        ensures ParseText(source) == Failed(InvalidEscape, source[i + 1..])
      {
        BadTildeIsRefused(source, i);
      }
    }
  }

  // ----- the fragment, as section 6 of RFC 6901 and section 2 of RFC 3986 describe it -----

  predicate Unreserved(c: byte) {
    || 'a' as int <= c <= 'z' as int || 'A' as int <= c <= 'Z' as int || '0' as int <= c <= '9' as int
    || c == '-' as int || c == '.' as int || c == '_' as int || c == '~' as int
  }

  /** Characters stand for themselves or for the octets that follow percent signs. */
  datatype Piece = Literal(c: byte) | Encoded(bs: bytes, text: bytes)

  /** The text of an octet, with hexadecimal digits of either case. */
  predicate IsTriplet(t: bytes, b: byte) {
    && |t| == 3 && t[0] == '%' as int
    && (t[1] == "0123456789ABCDEF"[b / 16] as int || t[1] == "0123456789abcdef"[b / 16] as int)
    && (t[2] == "0123456789ABCDEF"[b % 16] as int || t[2] == "0123456789abcdef"[b % 16] as int)
  }

  /** An encoded piece is one UTF-8 character. */
  predicate IsPiece(p: Piece) {
    match p
    case Literal(c) => c == '/' as int || Unreserved(c)
    case Encoded(bs, text) =>
      && Utf.Utf8Char(bs) && |text| == 3 * |bs|
      && forall k :: 0 <= k < |bs| ==> IsTriplet(text[3 * k..3 * k + 3], bs[k])
  }

  function PieceText(p: Piece): bytes { if p.Literal? then [p.c] else p.text }
  function PieceOctets(p: Piece): bytes { if p.Literal? then [p.c] else p.bs }

  function UriText(ps: seq<Piece>): bytes { if |ps| == 0 then [] else PieceText(ps[0]) + UriText(ps[1..]) }
  function Octets(ps: seq<Piece>): bytes { if |ps| == 0 then [] else PieceOctets(ps[0]) + Octets(ps[1..]) }

  predicate ArePieces(ps: seq<Piece>) { forall i :: 0 <= i < |ps| ==> IsPiece(ps[i]) }

  /** No solidus is encoded, and no character behind a tilde. */
  predicate Direct(ps: seq<Piece>) {
    && (forall i :: 0 <= i < |ps| ==> ps[i].Encoded? ==> PieceOctets(ps[i]) != Ascii("/"))
    && (forall i :: 0 <= i < |ps| - 1 && PieceOctets(ps[i]) == Ascii("~") ==> ps[i + 1].Literal?)
  }

  lemma UnreservedIff(c: byte)
    ensures NeedPercentEncode(c) <==> !Unreserved(c)
  {
  }

  lemma TripletOf(t: bytes, b: byte, y: bytes)
    requires IsTriplet(t, b)
    ensures Triplet(t + y) == Some(b) && (t + y)[3..] == y
  {
    HexDigits(b / 16);
    HexDigits(b % 16);
  }

  lemma {:induction false} TripletsOf(text: bytes, bs: bytes, y: bytes)
    requires |text| == 3 * |bs| && forall k :: 0 <= k < |bs| ==> IsTriplet(text[3 * k..3 * k + 3], bs[k])
    ensures Triplets(text + y, |bs|) == Some(bs) && (text + y)[3 * |bs|..] == y
  {
    hide Triplet, IsTriplet;
    if |bs| > 0 {
      var z := text[3..];
      forall k | 0 <= k < |bs| - 1 ensures IsTriplet(z[3 * k..3 * k + 3], bs[1..][k]) {
        assert z[3 * k..3 * k + 3] == text[3 * (k + 1)..3 * (k + 1) + 3];
      }
      TripletsOf(z, bs[1..], y);
      TripletOf(text[0..3], bs[0], z + y);
      assert text + y == text[0..3] + (z + y);
      assert bs == [bs[0]] + bs[1..];
    }
  }

  lemma OneChar(bs: bytes)
    requires Utf.Utf8Char(bs)
    ensures |bs| > 0 && Utf.DecodeOne(bs).ok && Utf.DecodeOne(bs).used == |bs|
    ensures |bs| > 1 ==> forall k :: 0 <= k < |bs| ==> bs[k] >= 0x80
  {
    assert bs[..|bs|] == bs;
    Utf.DecodeIsGrammar(bs);
    hide Utf.DecodeOne;
  }

  lemma TripletFirst(t: bytes, b: byte)
    requires IsTriplet(t, b)
    ensures |t| == 3 && t[0] == PERCENT
  {
  }

  lemma FirstOfText(p: Piece, y: bytes)
    requires p.Encoded? && IsPiece(p)
    ensures |p.bs| > 0 && Triplet(p.text + y) == Some(p.bs[0]) && (p.text + y)[0] == PERCENT
  {
    hide Triplet, Utf.Utf8Char, IsTriplet;
    OneChar(p.bs);
    assert IsTriplet(p.text[3 * 0..3 * 0 + 3], p.bs[0]);
    TripletOf(p.text[0..3], p.bs[0], p.text[3..] + y);
    TripletFirst(p.text[0..3], p.bs[0]);
    assert p.text + y == p.text[0..3] + (p.text[3..] + y);
  }

  /** An encoded character is taken whole. */
  lemma EncodedChar(p: Piece, y: bytes)
    requires p.Encoded? && IsPiece(p)
    ensures PercentChar(p.text + y) == Some(p.bs) && (p.text + y)[3 * |p.bs|..] == y && (p.text + y)[0] == PERCENT
  {
    hide Utf.DecodeOne, Utf.Utf8Char, Triplet, Triplets, CharLength, IsTriplet;
    OneChar(p.bs);
    CharAlone(p.bs);
    TripletsOf(p.text, p.bs, y);
    FirstOfText(p, y);
    assert p.bs[..|p.bs|] == p.bs;
  }

  lemma TakesChar(x: bytes, bs: bytes, w: bytes)
    requires |x| > 0 && x[0] != SLASH && Char(true, x) == GoodChar(bs, w)
    ensures Name(true, x) == Preceded(bs, Name(true, w))
  {
    hide Char;
  }

  lemma IsNot(c: byte)
    requires [c] != Ascii("~") && [c] != Ascii("/")
    ensures c != TILDE && c != SLASH
  {
    assert Ascii("~") == [TILDE] && Ascii("/") == [SLASH];
  }

  /** A piece that is no tilde stands for its octets. */
  lemma OrdinaryPiece(p: Piece, w: bytes)
    requires IsPiece(p) && PieceOctets(p) != Ascii("~") && PieceOctets(p) != Ascii("/")
    ensures Name(true, PieceText(p) + w) == Preceded(PieceOctets(p), Name(true, w))
  {
    hide Name, PercentChar, Utf.Utf8Char, IsTriplet;
    var x := PieceText(p) + w;
    match p
    case Literal(c) =>
      UnreservedIff(c);
      assert [c] != Ascii("~") && [c] != Ascii("/") && x[1..] == w;
      IsNot(c);
      TakesChar(x, [c], w);
    case Encoded(bs, text) =>
      EncodedChar(p, w);
      if |bs| == 1 { assert bs == [bs[0]]; IsNot(bs[0]); }
      TakesChar(x, bs, w);
  }

  /** A tilde, however it is written, and a 0 or 1 that stands for itself. */
  lemma EscapePiece(p: Piece, c: byte, w: bytes)
    requires IsPiece(p) && PieceOctets(p) == Ascii("~") && (c == '0' as int || c == '1' as int)
    ensures Name(true, PieceText(p) + ([c] + w)) ==
      Preceded([if c == '0' as int then '~' as int else '/' as int], Name(true, w))
  {
    hide Name, PercentChar, Utf.Utf8Char, IsTriplet;
    var y := [c] + w;
    var x := PieceText(p) + y;
    assert y[0] == c && y[1..] == w;
    match p
    case Literal(d) =>
      assert d == PieceOctets(p)[0] && x[1..] == y;
      TakesChar(x, [if c == '0' as int then '~' as int else '/' as int], w);
    case Encoded(bs, text) =>
      EncodedChar(p, y);
      TakesChar(x, [if c == '0' as int then '~' as int else '/' as int], w);
  }

  lemma {:induction false} EvaluatedLong(bs: bytes, y: bytes)
    requires forall k :: 0 <= k < |bs| ==> bs[k] >= 0x80
    ensures Evaluated(bs + y) == bs + Evaluated(y)
  {
    if |bs| == 0 {
      assert bs + y == y && bs + Evaluated(y) == Evaluated(y);
    } else {
      assert (bs + y)[1..] == bs[1..] + y;
      EvaluatedStep(bs + y);
      EvaluatedLong(bs[1..], y);
      hide Evaluated;
      Regroup([bs[0]], bs[1..], Evaluated(y));
      assert [bs[0]] + bs[1..] == bs;
    }
  }

  predicate NoSolidi(ps: seq<Piece>) { forall i :: 0 <= i < |ps| ==> PieceOctets(ps[i]) != Ascii("/") }

  lemma DirectTail(ps: seq<Piece>, k: nat)
    requires Direct(ps) && ArePieces(ps) && k <= |ps|
    ensures Direct(ps[k..]) && ArePieces(ps[k..])
  {
    hide IsPiece;
  }

  lemma OctetsNotEmpty(p: Piece)
    requires IsPiece(p)
    ensures |PieceOctets(p)| > 0
  {
    if p.Encoded? { OneChar(p.bs); }
  }

  lemma NothingNamed(z: bytes)
    ensures UriText([]) + z == z && Octets([]) == [] && Evaluated([]) == []
    ensures Preceded([], Name(true, z)) == Name(true, z)
  {
    hide Name;
    var r := Name(true, z);
    if r.GoodName? { assert [] + r.name == r.name; }
  }

  lemma OrdinaryOctets(p: Piece, more: bytes)
    requires IsPiece(p) && PieceOctets(p) != Ascii("~")
    ensures Evaluated(PieceOctets(p) + more) == PieceOctets(p) + Evaluated(more)
  {
    var o := PieceOctets(p);
    if p.Encoded? { OneChar(p.bs); }
    if |o| == 1 {
      assert o == [o[0]] && (o + more)[1..] == more;
      assert Ascii("~") == ['~' as int];
      EvaluatedStep(o + more);
    } else {
      EvaluatedLong(o, more);
    }
    hide Evaluated;
  }

  /** Behind a tilde there is a 0 or 1, as a piece of its own. */
  lemma TildePiece(ps: seq<Piece>)
    requires ArePieces(ps) && Direct(ps) && TildesOk(Octets(ps)) && |ps| > 0 && PieceOctets(ps[0]) == Ascii("~")
    ensures |ps| > 1 && ps[1].Literal? && (ps[1].c == '0' as int || ps[1].c == '1' as int)
    ensures Evaluated(Octets(ps)) ==
      [if ps[1].c == '0' as int then '~' as int else '/' as int] + Evaluated(Octets(ps[2..]))
    ensures TildesOk(Octets(ps[2..]))
  {
    hide Evaluated, IsPiece;
    var x := Octets(ps);
    assert x == Ascii("~") + Octets(ps[1..]) && !BadTilde(x, 0);
    assert |ps| > 1 && ps[1..][1..] == ps[2..];
    assert Octets(ps[1..]) == [ps[1].c] + Octets(ps[2..]);
    assert x[1] == ps[1].c && x[2..] == Octets(ps[2..]);
    EvaluatedStep(x);
    TildesTail(x, 2);
  }

  /** Pieces without a solidus in front of z are the name that their octets evaluate to. */
  lemma {:induction false} PiecesAreName(ps: seq<Piece>, z: bytes)
    requires ArePieces(ps) && Direct(ps) && NoSolidi(ps) && TildesOk(Octets(ps))
    ensures Name(true, UriText(ps) + z) == Preceded(Evaluated(Octets(ps)), Name(true, z))
    decreases |ps|
  {
    hide Name, Evaluated, IsPiece, TildesOk;
    if |ps| == 0 {
      NothingNamed(z);
    } else if PieceOctets(ps[0]) == Ascii("~") {
      TildePiece(ps);
      var w := UriText(ps[2..]) + z;
      DirectTail(ps, 2);
      PiecesAreName(ps[2..], z);
      EscapePiece(ps[0], ps[1].c, w);
      assert UriText(ps) + z == PieceText(ps[0]) + ([ps[1].c] + w) by {
        assert ps[1..][1..] == ps[2..] && UriText(ps[1..]) == [ps[1].c] + UriText(ps[2..]);
      }
      PrecededTwice([if ps[1].c == '0' as int then '~' as int else '/' as int], Evaluated(Octets(ps[2..])),
        Name(true, z));
    } else {
      var p, more := ps[0], Octets(ps[1..]);
      var w := UriText(ps[1..]) + z;
      OctetsNotEmpty(p);
      OrdinaryOctets(p, more);
      TildesTail(Octets(ps), |PieceOctets(p)|);
      assert Octets(ps)[|PieceOctets(p)|..] == more;
      DirectTail(ps, 1);
      PiecesAreName(ps[1..], z);
      OrdinaryPiece(p, w);
      assert UriText(ps) + z == PieceText(p) + w;
      PrecededTwice(PieceOctets(p), Evaluated(more), Name(true, z));
    }
  }

  /** What Parse stops at: a character that must be encoded, a percent sign that starts no
      encoded character, or a tilde, however written, without a 0 or 1 behind it. */
  predicate Trouble(z: bytes, error: ParseError, rest: bytes) {
    && |z| > 0
    && match error
       case CharacterMustPercentEncode =>
         z[0] != '/' as int && z[0] != '%' as int && !Unreserved(z[0]) && rest == z
       case InvalidPercentEncoding => z[0] == '%' as int && PercentChar(z) == None && rest == z
       case InvalidEscape =>
         && (z == Ascii("~") + rest || (|z| >= 3 && IsTriplet(z[..3], '~' as int) && z[3..] == rest))
         && (|rest| > 0 ==> rest[0] != '0' as int && rest[0] != '1' as int)
       case _ => false
  }

  lemma EncodedTilde(z: bytes)
    requires |z| >= 3 && IsTriplet(z[..3], '~' as int)
    ensures PercentChar(z) == Some([TILDE])
  {
    var p := Encoded(Ascii("~"), z[..3]);
    assert z[..3][3 * 0..3 * 0 + 3] == z[..3] && Ascii("~") == [TILDE];
    assert IsPiece(p);
    EncodedChar(p, z[3..]);
    assert z[..3] + z[3..] == z;
    hide PercentChar;
  }

  lemma TroubleStops(z: bytes, error: ParseError, rest: bytes)
    requires Trouble(z, error, rest)
    ensures Name(true, z) == BadName(error, rest)
  {
    hide PercentChar, Utf.DecodeOne;
    UnreservedIff(z[0]);
    if error == InvalidEscape {
      if z == Ascii("~") + rest {
        assert z[1..] == rest && z[0] == TILDE;
      } else {
        EncodedTilde(z);
        assert z[..3][0] == z[0];
      }
    }
  }

  /** How many pieces come before the next solidus. */
  function StopAt(ps: seq<Piece>): (n: nat)
    ensures n <= |ps| && (n < |ps| ==> PieceOctets(ps[n]) == Ascii("/")) && NoSolidi(ps[..n])
  {
    if |ps| == 0 || PieceOctets(ps[0]) == Ascii("/") then 0
    else
      var n := StopAt(ps[1..]) + 1;
      assert ps[..n][1..] == ps[1..][..n - 1];
      assert forall i :: 1 <= i < n ==> ps[..n][i] == ps[..n][1..][i - 1];
      n
  }

  lemma {:induction false} PiecesInTwo(ps: seq<Piece>, n: nat)
    requires n <= |ps|
    ensures Octets(ps) == Octets(ps[..n]) + Octets(ps[n..])
    ensures UriText(ps) == UriText(ps[..n]) + UriText(ps[n..])
  {
    if n > 0 {
      PiecesInTwo(ps[1..], n - 1);
      assert ps[..n][1..] == ps[1..][..n - 1] && ps[1..][n - 1..] == ps[n..];
    } else {
      assert ps[n..] == ps;
    }
  }

  lemma {:induction false} OctetsNoSolidus(ps: seq<Piece>)
    requires ArePieces(ps) && NoSolidi(ps)
    ensures forall i :: 0 <= i < |Octets(ps)| ==> Octets(ps)[i] != '/' as int
  {
    hide Utf.Utf8Char, IsTriplet;
    if |ps| > 0 {
      var p := ps[0];
      OctetsNoSolidus(ps[1..]);
      if p.Encoded? { OneChar(p.bs); }
      assert Ascii("/") == ['/' as int];
      if |PieceOctets(p)| == 1 { assert PieceOctets(p) == [PieceOctets(p)[0]]; }
    }
  }

  /** The first segment of the octets is that of the pieces before the next solidus. */
  lemma SegmentOfPieces(ps: seq<Piece>)
    requires ArePieces(ps)
    ensures var n := StopAt(ps);
      var k := SegmentLength(Octets(ps));
      && k <= |Octets(ps)| && Octets(ps)[..k] == Octets(ps[..n]) && Octets(ps)[k..] == Octets(ps[n..])
  {
    var n := StopAt(ps);
    PiecesInTwo(ps, n);
    OctetsNoSolidus(ps[..n]);
    var k, m := SegmentLength(Octets(ps)), |Octets(ps[..n])|;
    if n < |ps| {
      assert Octets(ps[n..])[0] == '/' as int;
      assert Octets(ps)[m] == '/' as int;
    }
    assert forall i :: 0 <= i < m ==> Octets(ps)[i] == Octets(ps[..n])[i];
  }

  lemma SolidusPiece(ps: seq<Piece>)
    requires ArePieces(ps) && Direct(ps) && |ps| > 0 && PieceOctets(ps[0]) == Ascii("/")
    ensures ps[0] == Literal('/' as int)
    ensures UriText(ps) == ['/' as int] + UriText(ps[1..]) && Octets(ps) == ['/' as int] + Octets(ps[1..])
  {
    assert Ascii("/")[0] == '/' as int;
    hide IsPiece;
  }

  /** Pieces of a fragment, from a solidus on. */
  predicate IsFragment(ps: seq<Piece>) {
    ArePieces(ps) && Direct(ps) && TildesOk(Octets(ps)) && (|ps| > 0 ==> PieceOctets(ps[0]) == Ascii("/"))
  }

  lemma FragmentOctets(ps: seq<Piece>)
    requires IsFragment(ps)
    ensures Octets(ps) == [] || Octets(ps)[0] == '/' as int
    ensures |ps| == 0 ==> Octets(ps) == [] && UriText(ps) == []
    ensures |ps| > 0 ==> UriText(ps) != [] && UriText(ps)[0] == '/' as int
  {
    hide IsPiece, TildesOk;
    if |ps| > 0 { SolidusPiece(ps); }
  }

  lemma DirectFront(ps: seq<Piece>, n: nat)
    requires Direct(ps) && ArePieces(ps) && n <= |ps|
    ensures Direct(ps[..n]) && ArePieces(ps[..n])
  {
    hide IsPiece;
  }

  lemma PiecesOfFragment(ps: seq<Piece>)
    requires IsFragment(ps) && |ps| > 0
    ensures var n := StopAt(ps[1..]) + 1;
      && 1 <= n <= |ps| && NoSolidi(ps[1..n]) && ArePieces(ps[1..n]) && Direct(ps[1..n])
      && ArePieces(ps[n..]) && Direct(ps[n..]) && (n < |ps| ==> PieceOctets(ps[n]) == Ascii("/"))
  {
    hide IsPiece, TildesOk, Octets, UriText, PieceOctets;
    var qs := ps[1..];
    var m := StopAt(qs);
    assert qs[..m] == ps[1..m + 1] && qs[m..] == ps[m + 1..];
    DirectTail(ps, 1);
    DirectTail(qs, m);
    DirectFront(qs, m);
  }

  /** The first segment of a fragment, and the fragment behind it. */
  lemma FragmentInTwo(ps: seq<Piece>)
    requires IsFragment(ps) && |ps| > 0
    ensures var n := StopAt(ps[1..]) + 1;
      && n <= |ps| && TildesOk(Octets(ps[1..n])) && TildesOk(Octets(ps[n..]))
      && Octets(ps) == ['/' as int] + (Octets(ps[1..n]) + Octets(ps[n..]))
      && SegmentLength(Octets(ps[1..n]) + Octets(ps[n..])) == |Octets(ps[1..n])|
  {
    hide IsPiece, Direct, TildesOk, Octets, UriText, PieceOctets, SegmentLength, NoSolidi, StopAt;
    SolidusPiece(ps);
    var qs := ps[1..];
    var m := StopAt(qs);
    assert qs[..m] == ps[1..m + 1] && qs[m..] == ps[m + 1..];
    PiecesInTwo(qs, m);
    TildesTail(Octets(ps), 1);
    assert Octets(ps)[1..] == Octets(qs);
    SegmentOfPieces(qs);
    var k := SegmentLength(Octets(qs));
    SegmentEnds(Octets(qs));
    TildesFront(Octets(qs), k);
    TildesTail(Octets(qs), k);
  }

  lemma Behind(c: byte, x: bytes, z: bytes)
    ensures (([c] + x) + z)[1..] == x + z
  {
  }

  lemma TextInTwo(ps: seq<Piece>, n: nat, z: bytes)
    requires ArePieces(ps) && Direct(ps) && 1 <= n <= |ps| && PieceOctets(ps[0]) == Ascii("/")
    ensures |UriText(ps)| > 0 && (UriText(ps) + z)[1..] == UriText(ps[1..n]) + (UriText(ps[n..]) + z)
  {
    hide IsPiece, ArePieces, Direct, UriText, Octets, PieceOctets;
    SolidusPiece(ps);
    PiecesInTwo(ps[1..], n - 1);
    assert ps[1..][..n - 1] == ps[1..n] && ps[1..][n - 1..] == ps[n..];
    Regroup(UriText(ps[1..n]), UriText(ps[n..]), z);
    Behind('/' as int, UriText(ps[1..]), z);
  }

  lemma SegmentsCons(x: bytes, segment: bytes, rest: bytes)
    requires x == ['/' as int] + (segment + rest) && SegmentLength(segment + rest) == |segment|
    ensures (rest == [] || rest[0] == '/' as int) && Segments(x) == [segment] + Segments(rest)
  {
    hide SegmentLength;
    SegmentEnds(segment + rest);
    assert x[1..] == segment + rest && (segment + rest)[..|segment|] == segment
      && (segment + rest)[|segment|..] == rest;
  }

  lemma AtSolidus(w: bytes)
    requires |w| > 0 && w[0] == '/' as int
    ensures Name(true, w) == GoodName([], w)
  {
  }

  lemma LastName(w: bytes)
    requires w == []
    ensures Name(true, w) == GoodName([], [])
  {
  }

  /** Behind the number sign: the octets of the pieces, in segments, each evaluated, as if
      they were a plain text; or the error of the trouble that follows them. */
  lemma {:induction false} PiecesAreTokens(ps: seq<Piece>, z: bytes, error: ParseError, rest: bytes)
    requires IsFragment(ps) && (z != [] ==> |ps| > 0 && Trouble(z, error, rest))
    ensures var x := UriText(ps) + z;
      && (x == [] || x[0] == '/' as int) && (Octets(ps) == [] || Octets(ps)[0] == '/' as int)
      && Tokens(true, x) == if z == [] then Parsed(Named(Segments(Octets(ps)))) else Failed(error, rest)
    decreases |ps|
  {
    hide Name, Evaluated, IsPiece, Direct, TildesOk, Trouble, TokenIndex, Segments, Named, StopAt, Octets, UriText;
    FragmentOctets(ps);
    if |ps| == 0 {
      assert UriText(ps) + z == [];
      NoSegments();
    } else {
      var n := StopAt(ps[1..]) + 1;
      var segment, w := Octets(ps[1..n]), UriText(ps[n..]) + z;
      PiecesOfFragment(ps);
      FragmentInTwo(ps);
      TextInTwo(ps, n, z);
      PiecesAreName(ps[1..n], w);
      SegmentsCons(Octets(ps), segment, Octets(ps[n..]));
      FragmentOctets(ps[n..]);
      NamedCons(segment, Segments(Octets(ps[n..])));
      assert Evaluated(segment) + [] == Evaluated(segment);
      if n < |ps| {
        PiecesAreTokens(ps[n..], z, error, rest);
        AtSolidus(w);
      } else {
        assert w == z;
        if z == [] { LastName(w); NoSegments(); } else { TroubleStops(z, error, rest); }
      }
    }
  }

  lemma NumberSign(x: bytes)
    ensures ParseText(Ascii("#") + x) ==
      if x != [] && x[0] != SLASH then Failed(TokenMustBeginWithSolidus, x) else Tokens(true, x)
  {
    var source := Ascii("#") + x;
    assert source[0] == HASH && source[1..] == x;
  }

  lemma FragmentTildes(ps: seq<Piece>)
    requires IsFragment(ps)
    ensures TildesOk(Octets(ps))
  {
  }

  /** Parse on a fragment of pieces is Parse on the octets they stand for; with trouble behind
      them it fails there. */
  lemma FragmentSource(ps: seq<Piece>, z: bytes, error: ParseError, rest: bytes)
    requires IsFragment(ps) && (z != [] ==> |ps| > 0 && Trouble(z, error, rest))
    ensures var source := Ascii("#") + (UriText(ps) + z);
      ParseText(source) == if z == [] then ParseText(Octets(ps)) else Failed(error, rest)
  {
    hide IsFragment, Trouble, Tokens, TildesOk, Named, Segments, UriText, Octets, SegmentLength;
    PiecesAreTokens(ps, z, error, rest);
    NumberSign(UriText(ps) + z);
    FragmentTildes(ps);
    PlainSource(Octets(ps));
  }

  lemma {:induction false} SolidiSum(a: bytes, b: bytes)
    ensures Solidi(a + b) == Solidi(a) + Solidi(b)
  {
    if |a| == 0 {
      assert a + b == b;
    } else {
      assert (a + b)[1..] == a[1..] + b;
      SolidiSum(a[1..], b);
    }
  }

  lemma {:induction false} NoneSolidi(x: bytes)
    requires forall i :: 0 <= i < |x| ==> x[i] != SLASH
    ensures Solidi(x) == 0
  {
    if |x| > 0 { NoneSolidi(x[1..]); }
  }

  /** There are as many tokens as solidi. */
  lemma {:induction false} TokenCount(uri: bool, x: bytes)
    requires x == [] || x[0] == SLASH
    ensures Tokens(uri, x).Parsed? ==> |Tokens(uri, x).tokens| == Solidi(x)
    decreases |x|
  {
    hide Name, TokenIndex;
    if |x| > 0 && Name(uri, x[1..]).GoodName? {
      NameSolidi(uri, x[1..]);
      TokenCount(uri, Name(uri, x[1..]).rest);
    }
  }

  lemma TripletHasNoSolidus(t: bytes, b: byte)
    requires IsTriplet(t, b)
    ensures |t| == 3 && forall i :: 0 <= i < 3 ==> t[i] != SLASH
  {
  }

  lemma {:induction false} TripletsHaveNoSolidus(text: bytes, bs: bytes)
    requires |text| == 3 * |bs| && forall k :: 0 <= k < |bs| ==> IsTriplet(text[3 * k..3 * k + 3], bs[k])
    ensures Solidi(text) == 0
  {
    forall i | 0 <= i < |text| ensures text[i] != SLASH {
      assert IsTriplet(text[3 * (i / 3)..3 * (i / 3) + 3], bs[i / 3]);
      TripletHasNoSolidus(text[3 * (i / 3)..3 * (i / 3) + 3], bs[i / 3]);
      assert text[i] == text[3 * (i / 3)..3 * (i / 3) + 3][i % 3];
      hide IsTriplet;
    }
    NoneSolidi(text);
  }

  lemma PieceSolidi(p: Piece)
    requires IsPiece(p)
    ensures Solidi(PieceText(p)) <= Solidi(PieceOctets(p))
    ensures p.Encoded? && p.bs == Ascii("/") ==> Solidi(PieceText(p)) < Solidi(PieceOctets(p))
  {
    hide Utf.Utf8Char, IsTriplet;
    if p.Encoded? {
      TripletsHaveNoSolidus(p.text, p.bs);
      if p.bs == Ascii("/") { assert p.bs == [SLASH] && p.bs[1..] == []; }
    }
  }

  /** Octets show a solidus that the text encodes. */
  lemma {:induction false} MoreSolidi(ps: seq<Piece>)
    requires ArePieces(ps)
    ensures Solidi(UriText(ps)) <= Solidi(Octets(ps))
    ensures (exists i :: 0 <= i < |ps| && ps[i].Encoded? && ps[i].bs == Ascii("/")) ==>
      Solidi(UriText(ps)) < Solidi(Octets(ps))
  {
    hide IsPiece, Solidi, PieceText, PieceOctets;
    if |ps| > 0 {
      PieceSolidi(ps[0]);
      MoreSolidi(ps[1..]);
      SolidiSum(PieceText(ps[0]), UriText(ps[1..]));
      SolidiSum(PieceOctets(ps[0]), Octets(ps[1..]));
      assert forall i :: 1 <= i < |ps| ==> ps[i] == ps[1..][i - 1];
    }
  }

  predicate StuckAt(ps: seq<Piece>, i: nat) {
    i + 1 < |ps| && PieceOctets(ps[i]) == Ascii("~") && ps[i + 1].Encoded?
  }

  predicate NoneEncodesSolidus(ps: seq<Piece>) {
    forall k :: 0 <= k < |ps| && ps[k].Encoded? ==> ps[k].bs != Ascii("/")
  }

  lemma FrontIsDirect(ps: seq<Piece>, i: nat)
    requires ArePieces(ps) && NoneEncodesSolidus(ps) && |ps| > 0 && ps[0] == Literal('/' as int)
    requires StuckAt(ps, i) && forall k :: 0 <= k < i ==> !StuckAt(ps, k)
    ensures 0 < i && ArePieces(ps[..i]) && Direct(ps[..i]) && PieceOctets(ps[..i][0]) == Ascii("/")
  {
    hide IsPiece;
    assert Ascii("/") == ['/' as int] && Ascii("~")[0] == '~' as int;
    forall k | 0 <= k < i - 1 && PieceOctets(ps[..i][k]) == Ascii("~") ensures ps[..i][k + 1].Literal? {
      assert !StuckAt(ps, k);
    }
  }

  lemma FirstPiece(ps: seq<Piece>, i: nat)
    requires i < |ps| && IsPiece(ps[i])
    ensures UriText(ps[i..]) == PieceText(ps[i]) + UriText(ps[i + 1..])
    ensures Octets(ps[i..]) == PieceOctets(ps[i]) + Octets(ps[i + 1..])
    ensures |PieceText(ps[i])| > 0 && (ps[i].Encoded? ==> PieceText(ps[i])[0] == '%' as int)
  {
    hide Utf.Utf8Char, IsTriplet;
    assert ps[i..][1..] == ps[i + 1..];
    if ps[i].Encoded? { FirstOfText(ps[i], []); assert ps[i].text + [] == ps[i].text; OneChar(ps[i].bs); }
  }

  lemma TildesBefore(front: bytes, x: bytes)
    requires TildesOk(x) && front < x && x[|front|] == '~' as int
    ensures TildesOk(front)
  {
    forall j | 0 <= j < |front| ensures !BadTilde(front, j) { assert !BadTilde(x, j); }
  }

  lemma FrontIsFragment(ps: seq<Piece>, i: nat)
    requires ArePieces(ps) && TildesOk(Octets(ps)) && NoneEncodesSolidus(ps) && |ps| > 0 && ps[0] == Literal('/' as int)
    requires StuckAt(ps, i) && forall k :: 0 <= k < i ==> !StuckAt(ps, k)
    ensures 0 < i && IsFragment(ps[..i])
  {
    hide IsPiece, UriText, Octets, TildesOk, Direct, NoneEncodesSolidus;
    FrontIsDirect(ps, i);
    PiecesInTwo(ps, i);
    FirstPiece(ps, i);
    assert Ascii("~")[0] == '~' as int;
    TildesBefore(Octets(ps[..i]), Octets(ps));
  }

  lemma StuckTrouble(p: Piece, rest: bytes)
    requires IsPiece(p) && PieceOctets(p) == Ascii("~") && |rest| > 0 && rest[0] == '%' as int
    ensures Trouble(PieceText(p) + rest, InvalidEscape, rest)
  {
    hide Utf.Utf8Char, IsTriplet;
    if p.Encoded? {
      assert p.text[3 * 0..3 * 0 + 3] == p.text == (p.text + rest)[..3] && (p.text + rest)[3..] == rest;
      assert p.bs[0] == '~' as int;
    } else {
      assert [p.c] == Ascii("~");
    }
  }

  /** A tilde and an encoded character are no escape. */
  lemma EncodedBehindTilde(ps: seq<Piece>, i: nat)
    requires ArePieces(ps) && TildesOk(Octets(ps)) && NoneEncodesSolidus(ps) && |ps| > 0 && ps[0] == Literal('/' as int)
    requires StuckAt(ps, i) && forall k :: 0 <= k < i ==> !StuckAt(ps, k)
    ensures ParseText(Ascii("#") + UriText(ps)).Failed?
  {
    FrontIsFragment(ps, i);
    hide IsPiece, UriText, Octets, TildesOk, NoneEncodesSolidus, IsFragment, Trouble, ParseText;
    var z, rest := UriText(ps[i..]), UriText(ps[i + 1..]);
    PiecesInTwo(ps, i);
    FirstPiece(ps, i);
    FirstPiece(ps, i + 1);
    StuckTrouble(ps[i], rest);
    FragmentSource(ps[..i], z, InvalidEscape, rest);
  }

  lemma {:induction false} LeastStuck(ps: seq<Piece>, i: nat) returns (k: nat)
    requires StuckAt(ps, i)
    ensures StuckAt(ps, k) && forall j :: 0 <= j < k ==> !StuckAt(ps, j)
  {
    hide StuckAt;
    if j: nat :| j < i && StuckAt(ps, j) { k := LeastStuck(ps, j); } else { k := i; }
  }

  lemma DirectDecodes(ps: seq<Piece>)
    requires IsFragment(ps)
    ensures ParseText(Ascii("#") + UriText(ps)) == ParseText(Octets(ps))
  {
    hide IsFragment, UriText, Octets, ParseText;
    assert UriText(ps) + [] == UriText(ps);
    FragmentSource(ps, [], InvalidEscape, []);
  }

  lemma NoNumberSign(x: bytes)
    requires x == [] || x[0] == SLASH
    ensures ParseText(x) == Tokens(false, x)
  {
  }

  lemma StartsWithSolidus(ps: seq<Piece>)
    requires |ps| > 0 ==> ps[0] == Literal('/' as int)
    ensures Octets(ps) == [] || Octets(ps)[0] == '/' as int
    ensures UriText(ps) == [] || UriText(ps)[0] == '/' as int
    ensures |ps| > 0 ==> PieceOctets(ps[0]) == Ascii("/")
  {
    assert Ascii("/") == ['/' as int];
  }

  lemma EncodedSolidusCounts(ps: seq<Piece>)
    requires ArePieces(ps) && TildesOk(Octets(ps)) && (|ps| > 0 ==> ps[0] == Literal('/' as int))
    requires !NoneEncodesSolidus(ps)
    ensures ParseText(Ascii("#") + UriText(ps)) != ParseText(Octets(ps))
  {
    hide IsPiece, TildesOk, Named, Segments, Tokens, UriText, Octets, ParseText, Solidi;
    StartsWithSolidus(ps);
    PlainSource(Octets(ps));
    MoreSolidi(ps);
    NumberSign(UriText(ps));
    TokenCount(true, UriText(ps));
    TokenCount(false, Octets(ps));
    NoNumberSign(Octets(ps));
  }

  lemma NotDirect(ps: seq<Piece>) returns (i: nat)
    requires !Direct(ps) && NoneEncodesSolidus(ps)
    ensures StuckAt(ps, i)
  {
    i :| i < |ps| - 1 && PieceOctets(ps[i]) == Ascii("~") && !ps[i + 1].Literal?;
  }

  lemma StuckIsBehind(ps: seq<Piece>, i: nat)
    requires StuckAt(ps, i)
    ensures |ps| > 0
  {
  }

  /** A fragment whose octets are a pointer's text is that pointer, as the RFC has it, if and
      only if no solidus is percent-encoded and no 0 or 1 behind a tilde is. */
  lemma DecodesFirstIff(ps: seq<Piece>)
    requires ArePieces(ps) && TildesOk(Octets(ps)) && (|ps| > 0 ==> ps[0] == Literal('/' as int))
    ensures ParseText(Ascii("#") + UriText(ps)) == ParseText(Octets(ps)) <==> Direct(ps)
  {
    StartsWithSolidus(ps);
    PlainSource(Octets(ps));
    hide IsPiece, TildesOk, Named, Segments, UriText, Octets, ParseText, StuckAt;
    if !NoneEncodesSolidus(ps) {
      EncodedSolidusCounts(ps);
    } else if Direct(ps) {
      DirectDecodes(ps);
    } else {
      var i := NotDirect(ps);
      var least := LeastStuck(ps, i);
      StuckIsBehind(ps, least);
      EncodedBehindTilde(ps, least);
    }
  }

  // ----- the fragment as it is written -----

  /** Each octet on its own: unreserved characters as they are, but for the tilde, which is
      escaped like the solidus, and all others in upper-case hexadecimal. */
  function OctetText(c: byte): bytes {
    if c == '~' as int then Ascii("~0")
    else if c == '/' as int then Ascii("~1")
    else if Unreserved(c) then [c]
    else Ascii("%") + ["0123456789ABCDEF"[c / 16] as int, "0123456789ABCDEF"[c % 16] as int]
  }

  function OctetsText(n: bytes): bytes { if |n| == 0 then [] else OctetText(n[0]) + OctetsText(n[1..]) }

  lemma {:induction false} OctetsInTwo(n: bytes, k: nat)
    requires k <= |n|
    ensures OctetsText(n) == OctetsText(n[..k]) + OctetsText(n[k..])
  {
    hide OctetText;
    if k > 0 {
      OctetsInTwo(n[1..], k - 1);
      assert n[..k][1..] == n[1..][..k - 1] && n[1..][k - 1..] == n[k..];
    } else {
      assert n[k..] == n;
    }
  }

  lemma OctetIsEncoded(c: byte)
    requires c != '/' as int && !Unreserved(c)
    ensures OctetText(c) == PercentByte(c)
  {
    HexDigits(c / 16);
    HexDigits(c % 16);
    assert Ascii("%") == [PERCENT];
  }

  lemma {:induction false} OctetsAreEncoded(bs: bytes)
    requires forall i :: 0 <= i < |bs| ==> bs[i] != '/' as int && !Unreserved(bs[i])
    ensures OctetsText(bs) == PercentEncode(bs)
  {
    hide OctetText, PercentByte;
    if |bs| > 0 {
      OctetIsEncoded(bs[0]);
      OctetsAreEncoded(bs[1..]);
    }
  }

  /** All octets of the character at the front are encoded if its first is. */
  lemma CharOctets(n: bytes)
    requires |n| > 0 && Utf.DecodeOne(n).ok
    ensures var d := Utf.DecodeOne(n);
      && d.used <= |n| && (n[0] < 0x80 ==> d.used == 1)
      && (n[0] >= 0x80 ==> forall i :: 0 <= i < d.used ==> n[i] >= 0x80)
  {
    Utf.DecodeIsGrammar(n);
    CharAlone(n);
    var d := Utf.DecodeOne(n);
    assert forall i :: 0 <= i < d.used ==> n[..d.used][i] == n[i];
    hide Utf.DecodeOne;
  }

  lemma {:induction false} UriNameIs(n: bytes)
    requires Utf.DecodeAll(n).Some?
    ensures NameText(true, n) == Some(OctetsText(n))
    decreases |n|
  {
    hide PercentEncode, Utf.Utf8Char;
    if |n| > 0 {
      UnreservedIff(n[0]);
      assert Ascii("~0") == [TILDE, 48] && Ascii("~1") == [TILDE, 49];
      var d := Utf.DecodeOne(n);
      Utf.DecodeThenEncode(n);
      CharAlone(n);
      CharOctets(n);
      UriNameIs(n[d.used..]);
      OctetsInTwo(n, d.used);
      hide Utf.DecodeOne;
      if n[0] != TILDE && n[0] != SLASH && NeedPercentEncode(n[0]) {
        OctetsAreEncoded(n[..d.used]);
      } else {
        assert d.used == 1 && n[..1] == [n[0]] && [n[0]][1..] == [];
        assert OctetsText([n[0]]) == OctetText(n[0]) + OctetsText([]);
      }
    }
  }

  function SlashedOctets(names: seq<bytes>): bytes {
    if |names| == 0 then [] else Ascii("/") + (OctetsText(names[0]) + SlashedOctets(names[1..]))
  }

  lemma {:induction false} UriTokensAre(ts: seq<Token>)
    requires AllUtf8(ts)
    ensures TokensText(true, ts) == Some(SlashedOctets(NamesOf(ts)))
  {
    hide NameText, OctetsText, Utf.DecodeAll;
    if |ts| > 0 {
      UriNameIs(ts[0].name);
      UriTokensAre(ts[1..]);
      assert NamesOf(ts)[1..] == NamesOf(ts[1..]) && Ascii("/") == [SLASH];
      Regroup([SLASH], OctetsText(ts[0].name), SlashedOctets(NamesOf(ts[1..])));
    }
  }

  /** The fragment of a pointer with UTF-8 names, octet by octet. */
  lemma UriTextIs(ts: seq<Token>)
    requires AllUtf8(ts)
    ensures PointerTextOf(true, ts) == Some(Ascii("#") + SlashedOctets(NamesOf(ts)))
  {
    hide TokensText, AllUtf8;
    UriTokensAre(ts);
    assert Ascii("#") == [HASH];
  }

  predicate AllUnreserved(n: bytes) { forall i :: 0 <= i < |n| ==> Unreserved(n[i]) }

  lemma {:induction false} UnreservedName(n: bytes)
    requires AllUnreserved(n)
    ensures NameText(true, n) == Some(Escaped(n))
  {
    if |n| > 0 {
      UnreservedIff(n[0]);
      EscapedStep(n);
      UnreservedName(n[1..]);
      assert Ascii("~0") == [TILDE, 48] && Ascii("~1") == [TILDE, 49];
      hide Escaped;
    }
  }

  lemma {:induction false} UnreservedTokens(ts: seq<Token>)
    requires forall i :: 0 <= i < |ts| ==> AllUnreserved(ts[i].name)
    ensures TokensText(true, ts) == Some(Slashed(NamesOf(ts)))
  {
    hide Escaped, NameText;
    if |ts| > 0 {
      UnreservedName(ts[0].name);
      UnreservedTokens(ts[1..]);
      assert NamesOf(ts)[1..] == NamesOf(ts[1..]) && Ascii("/") == [SLASH];
      Regroup([SLASH], Escaped(ts[0].name), Slashed(NamesOf(ts[1..])));
    }
  }

  /** Names of unreserved characters stand in a fragment as in the plain text, and are read
      back as they are. */
  lemma UnreservedNames(ts: seq<Token>)
    requires AllMade(ts) && forall i :: 0 <= i < |ts| ==> AllUnreserved(ts[i].name)
    ensures var text := Ascii("#") + Slashed(NamesOf(ts));
      PointerTextOf(true, ts) == Some(text) && ParseText(text) == Parsed(ts)
  {
    UnreservedTokens(ts);
    TokensRoundTrip(true, ts);
    NumberSign(Slashed(NamesOf(ts)));
    assert Ascii("#") == [HASH];
    hide Tokens, Slashed;
  }

  lemma {:induction false} EscapedPlain(n: bytes)
    requires forall i :: 0 <= i < |n| ==> n[i] != '~' as int && n[i] != '/' as int
    ensures Escaped(n) == n
  {
    if |n| > 0 {
      EscapedStep(n);
      EscapedPlain(n[1..]);
      hide Escaped;
    }
  }

  lemma NoSolidusUnreserved(n: bytes)
    requires AllUnreserved(n)
    ensures forall i :: 0 <= i < |n| ==> n[i] != '/' as int
  {
  }

  lemma OneName(n: bytes)
    requires AllUnreserved(n) && forall i :: 0 <= i < |n| ==> n[i] != '~' as int
    ensures var ts, text := [MakeToken(n)], Ascii("#") + (Ascii("/") + n);
      ParseText(text) == Parsed(ts) && PointerTextOf(true, ts) == Some(text)
  {
    hide TokenIndex, ParseText, Escaped, PointerTextOf, Unreserved;
    var ts := [MakeToken(n)];
    NoSolidusUnreserved(n);
    EscapedPlain(n);
    UnreservedNames(ts);
    assert NamesOf(ts)[1..] == [] && n + [] == n;
  }

  /** An ordinary fragment. */
  lemma PlainFragment()
    ensures ParseText(Ascii("#/foo")) == Parsed([MakeToken(Ascii("foo"))])
    ensures PointerTextOf(true, [MakeToken(Ascii("foo"))]) == Some(Ascii("#/foo"))
  {
    assert Ascii("#") + (Ascii("/") + Ascii("foo")) == Ascii("#/foo");
    OneName(Ascii("foo"));
    hide ParseText, PointerTextOf, TokenIndex;
  }

  lemma SlashPiece(y: bytes)
    requires |y| >= 3 && y[..3] == Ascii("%2F")
    ensures PercentChar(y) == Some([SLASH])
  {
    var p := Encoded([SLASH], y[..3]);
    assert y[..3][0] == '%' as int && y[..3][1] == '2' as int && y[..3][2] == 'F' as int;
    assert y[..3][3 * 0..3 * 0 + 3] == y[..3] && y[..3] + y[3..] == y;
    assert IsPiece(p);
    EncodedChar(p, y[3..]);
    hide PercentChar;
  }

  lemma SlashInName()
    ensures Name(true, Ascii("a") + (Ascii("%2F") + Ascii("b"))) == GoodName(Ascii("a/b"), [])
  {
    hide PercentChar, Name, Triplet, Triplets;
    var z := Ascii("b");
    var y := Ascii("%2F") + z;
    var x := Ascii("a") + y;
    assert x[1..] == y && y[..3] == Ascii("%2F") && y[3..] == z && z[1..] == [];
    SlashPiece(y);
    LastName([]);
    TakesChar(z, [z[0]], []);
    TakesChar(y, [SLASH], z);
    TakesChar(x, [x[0]], y);
    assert [x[0]] + ([SLASH] + ([z[0]] + [])) == Ascii("a/b");
  }

  /** The fragment #/a%2Fb: an encoded solidus does not separate tokens. */
  lemma EncodedSolidus()
    ensures ParseText(Ascii("#") + (Ascii("/") + (Ascii("a") + (Ascii("%2F") + Ascii("b")))))
      == Parsed([MakeToken(Ascii("a/b"))])
  {
    hide TokenIndex, Name;
    var x := Ascii("a") + (Ascii("%2F") + Ascii("b"));
    NumberSign(Ascii("/") + x);
    SlashInName();
    assert (Ascii("/") + x)[1..] == x;
  }
}
