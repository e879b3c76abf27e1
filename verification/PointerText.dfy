/** The text forms of a JSON Pointer (RFC 6901): parsing a string or URI fragment
    into tokens, and writing the tokens back. */
module PointerText {
  import opened Bytes
  import Decimal
  import Utf

  const TWO32: int := 0x1_0000_0000
  /** kPointerInvalidIndex: a token that is only a name. */
  const INVALID_INDEX: int := TWO32 - 1

  datatype Token = Token(name: bytes, index: int)

  datatype ParseError = TokenMustBeginWithSolidus | InvalidEscape | InvalidPercentEncoding | CharacterMustPercentEncode

  /** rest is what was left of the source where parsing stopped. */
  datatype Parsed = Failed(error: ParseError, rest: bytes) | Parsed(tokens: seq<Token>)

  // ----- index values -----

  predicate IsNumber(name: bytes) {
    |name| > 0 && (forall i :: 0 <= i < |name| ==> IsDigit(name[i])) && (|name| > 1 ==> name[0] != 48)
  }

  /** The conversion loop over 32-bit unsigned arithmetic; None when a step gives a
      smaller number, which is taken for an overflow. */
  function Accumulate(n: int, digits: bytes): Option<int>
    requires 0 <= n < TWO32
    decreases |digits|
  {
    if |digits| == 0 then Some(n)
    else
      var m := (n * 10 + digits[0] - 48) % TWO32;
      if m < n then None else Accumulate(m, digits[1..])
  }

  function TokenIndex(name: bytes): int {
    if !IsNumber(name) then INVALID_INDEX
    else match Accumulate(0, name) case None => INVALID_INDEX case Some(n) => n
  }

  /** The step at digit j gives a smaller number. */
  predicate DropsAt(name: bytes, j: nat)
    requires Decimal.AllDigits(name) && j < |name|
  {
    Decimal.Val(name[..j + 1]) % TWO32 < Decimal.Val(name[..j]) % TWO32
  }

  ghost predicate Drops(name: bytes, k: nat)
    requires Decimal.AllDigits(name)
  {
    exists j: nat :: k <= j < |name| && DropsAt(name, j)
  }

  lemma {:induction false} ModAdd(a: nat, k: nat)
    ensures (a + k * TWO32) % TWO32 == a % TWO32
  {
    if k > 0 {
      ModAdd(a, k - 1);
      assert a + k * TWO32 == a + (k - 1) * TWO32 + TWO32;
    }
  }

  lemma WrapStep(v: nat, d: int)
    requires 0 <= d <= 9
    ensures (v % TWO32 * 10 + d) % TWO32 == (v * 10 + d) % TWO32
  {
    var q := v / TWO32;
    assert v == q * TWO32 + v % TWO32;
    assert v * 10 + d == v % TWO32 * 10 + d + q * 10 * TWO32;
    ModAdd(v % TWO32 * 10 + d, q * 10);
  }

  /** The loop ends with the number modulo 2^32, unless some step gave a smaller one. */
  lemma {:induction false} AccumulateWraps(name: bytes, k: nat)
    requires Decimal.AllDigits(name) && k <= |name|
    ensures Accumulate(Decimal.Val(name[..k]) % TWO32, name[k..])
      == if Drops(name, k) then None else Some(Decimal.Val(name) % TWO32)
    decreases |name| - k
  {
    if k == |name| {
      assert name[..k] == name;
    } else {
      assert name[..k + 1][..k] == name[..k] && name[k..][1..] == name[k + 1..];
      WrapStep(Decimal.Val(name[..k]), name[k] - 48);
      AccumulateWraps(name, k + 1);
      if DropsAt(name, k) {
      } else if Drops(name, k) {
        var j: nat :| k <= j < |name| && DropsAt(name, j);
        assert Drops(name, k + 1);
      }
    }
  }

  lemma NoDropAt(name: bytes, j: nat)
    requires Decimal.AllDigits(name) && j < |name| && Decimal.Val(name) < TWO32
    ensures !DropsAt(name, j)
  {
    hide Decimal.Val;
    Decimal.ValPrefix(name, j + 1);
    Decimal.ValPrefix(name[..j + 1], j);
    assert name[..j + 1][..j] == name[..j];
  }

  lemma NoDropBelow(name: bytes)
    requires Decimal.AllDigits(name) && Decimal.Val(name) < TWO32
    ensures !Drops(name, 0)
  {
    forall j: nat | j < |name| ensures !DropsAt(name, j) { NoDropAt(name, j); }
    hide DropsAt, Decimal.Val;
  }

  /** The documented index is the token's number, and no index when the number does
      not fit 32 bits. The code gives it exactly when the number fits, or some step
      of the conversion wraps to a smaller number, or the wrapped result happens to
      be the value that means no index. */
  lemma IndexContract(name: bytes)
    requires IsNumber(name) && Decimal.AllDigits(name)
    ensures var v := Decimal.Val(name);
      TokenIndex(name) == (if v < 4294967296 then v else 4294967295)
      <==> v < 4294967296 || Drops(name, 0) || v % 4294967296 == 4294967295
  {
    AccumulateWraps(name, 0);
    assert name[..0] == [] && name[0..] == name;
    if Decimal.Val(name) < TWO32 { NoDropBelow(name); }
  }

  function Nines(k: nat): (r: bytes)
    ensures |r| == k && forall i :: 0 <= i < k ==> r[i] == 57
  {
    if k == 0 then [] else [57] + Nines(k - 1)
  }

  lemma NineStep(n: int, k: nat)
    requires 0 <= n < TWO32 && k > 0 && n <= (n * 10 + 9) % TWO32
    ensures Accumulate(n, Nines(k)) == Accumulate((n * 10 + 9) % TWO32, Nines(k - 1))
  {
    assert Nines(k)[1..] == Nines(k - 1);
  }

  lemma NoNines(n: int)
    requires 0 <= n < TWO32
    ensures Accumulate(n, Nines(0)) == Some(n)
  {
  }

  lemma NineSteps()
    ensures Accumulate(0, Nines(10)) == Accumulate(1410065407, Nines(0))
  {
    hide Accumulate, Nines;
    NineStep(0, 10); NineStep(9, 9); NineStep(99, 8); NineStep(999, 7); NineStep(9999, 6);
    NineStep(99999, 5); NineStep(999999, 4); NineStep(9999999, 3); NineStep(99999999, 2);
    NineStep(999999999, 1);
  }

  /** Ten nines: too large for an index, yet the token gets one. */
  lemma LargeIndexWraps()
    ensures IsNumber(Nines(10)) && TokenIndex(Nines(10)) == 1410065407
  {
    hide Accumulate, Nines;
    NineSteps();
    NoNines(1410065407);
  }

  function MakeToken(name: bytes): Token { Token(name, TokenIndex(name)) }

  // ----- parsing -----

  /** Characters a URI fragment must percent-encode (RFC 3986 section 2.3). */
  predicate NeedPercentEncode(c: byte) {
    !(IsDigit(c) || 65 <= c <= 90 || 97 <= c <= 122 || c == 45 || c == 46 || c == 95 || c == 126)
  }

  /** The octet of a percent-encoded triplet at the front of x. */
  function Triplet(x: bytes): (r: Option<byte>)
    ensures r.Some? ==> |x| >= 3
  {
    if |x| < 3 || x[0] != PERCENT then None
    else match (HexValue(x[1]), HexValue(x[2]))
      case (Some(h), Some(l)) => Some(h * 16 + l)
      case _ => None
  }

  function Triplets(x: bytes, n: nat): (r: Option<bytes>)
    ensures r.Some? ==> |r.value| == n && |x| >= 3 * n
  {
    if n == 0 then Some([])
    else match Triplet(x)
      case None => None
      case Some(b) =>
        match Triplets(x[3..], n - 1)
        case None => None
        case Some(bs) => Some([b] + bs)
  }

  /** How many octets a UTF-8 character has, going by its first. */
  function CharLength(b: byte): nat { 1 + |Utf.TrailMasks(Utf.GetRange(b))| }

  /** One percent-encoded UTF-8 character at the front of x. */
  function PercentChar(x: bytes): (r: Option<bytes>)
    ensures r.Some? ==> 1 <= |r.value| && 3 * |r.value| <= |x|
  {
    match Triplet(x)
    case None => None
    case Some(b) =>
      match Triplets(x, CharLength(b))
      case None => None
      case Some(bs) => if Utf.DecodeOne(bs).ok then Some(bs) else None
  }

  datatype CharResult = BadChar(error: ParseError, rest: bytes) | GoodChar(bs: bytes, rest: bytes)

  /** Character c has been read and y follows; a tilde starts an escape. */
  function Unescaped(c: byte, y: bytes): CharResult {
    if c != TILDE then GoodChar([c], y)
    else if |y| > 0 && y[0] == 48 then GoodChar([TILDE], y[1..])
    else if |y| > 0 && y[0] == 49 then GoodChar([SLASH], y[1..])
    else BadChar(InvalidEscape, y)
  }

  /** One turn of the loop over the characters of a token. */
  function Char(uri: bool, x: bytes): (r: CharResult)
    requires |x| > 0
    ensures r.GoodChar? ==> |r.rest| < |x| && 1 <= |r.bs| <= |x| - |r.rest|
  {
    if uri && x[0] == PERCENT then
      match PercentChar(x)
      case None => BadChar(InvalidPercentEncoding, x)
      case Some(bs) => if |bs| == 1 then Unescaped(bs[0], x[3..]) else GoodChar(bs, x[3 * |bs|..])
    else if uri && NeedPercentEncode(x[0]) then BadChar(CharacterMustPercentEncode, x)
    else Unescaped(x[0], x[1..])
  }

  datatype NameResult = BadName(error: ParseError, rest: bytes) | GoodName(name: bytes, rest: bytes)

  function Preceded(bs: bytes, r: NameResult): NameResult {
    if r.BadName? then r else GoodName(bs + r.name, r.rest)
  }

  /** A name: the characters up to the next solidus. */
  function Name(uri: bool, x: bytes): (r: NameResult)
    ensures r.GoodName? ==> |r.rest| <= |x| && (r.rest == [] || r.rest[0] == SLASH)
    decreases |x|
  {
    if |x| == 0 || x[0] == SLASH then GoodName([], x)
    else match Char(uri, x)
      case BadChar(e, rest) => BadName(e, rest)
      case GoodChar(bs, rest) => Preceded(bs, Name(uri, rest))
  }

  function After(ts: seq<Token>, r: Parsed): Parsed {
    if r.Failed? then r else Parsed(ts + r.tokens)
  }

  function Tokens(uri: bool, x: bytes): Parsed
    requires x == [] || x[0] == SLASH
    decreases |x|
  {
    if |x| == 0 then Parsed([])
    else match Name(uri, x[1..])
      case BadName(e, rest) => Failed(e, rest)
      case GoodName(n, rest) => After([MakeToken(n)], Tokens(uri, rest))
  }

  /** The whole grammar of Parse; a leading # marks a URI fragment. */
  function ParseText(source: bytes): Parsed {
    var uri := |source| > 0 && source[0] == HASH;
    var x := if uri then source[1..] else source;
    if x != [] && x[0] != SLASH then Failed(TokenMustBeginWithSolidus, x) else Tokens(uri, x)
  }

  // ----- writing -----

  function PercentByte(b: byte): bytes { [PERCENT, HexDigit(b / 16), HexDigit(b % 16)] }

  function PercentEncode(bs: bytes): bytes {
    if |bs| == 0 then [] else PercentByte(bs[0]) + PercentEncode(bs[1..])
  }

  function Preface(s: bytes, r: Option<bytes>): Option<bytes> {
    if r.None? then None else Some(s + r.value)
  }

  /** The text of the character at the front of n, and how many bytes of n it covers;
      None when a URI fragment would need a character that is not UTF-8. */
  function CharText(uri: bool, n: bytes): (r: Option<(bytes, nat)>)
    requires |n| > 0
    ensures r.Some? ==> 1 <= r.value.1 <= |n|
  {
    if n[0] == TILDE then Some(([TILDE, 48], 1))
    else if n[0] == SLASH then Some(([TILDE, 49], 1))
    else if uri && NeedPercentEncode(n[0]) then
      var d := Utf.DecodeOne(n);
      if !d.ok then None
      else
        Utf.DecodeThenEncode(n);
        Some((PercentEncode(n[..d.used]), d.used))
    else Some(([n[0]], 1))
  }

  /** A name as text. */
  function NameText(uri: bool, n: bytes): Option<bytes>
    decreases |n|
  {
    if |n| == 0 then Some([])
    else match CharText(uri, n)
      case None => None
      case Some((piece, used)) => Preface(piece, NameText(uri, n[used..]))
  }

  function TokensText(uri: bool, ts: seq<Token>): Option<bytes> {
    if |ts| == 0 then Some([])
    else match NameText(uri, ts[0].name)
      case None => None
      case Some(s) => Preface([SLASH] + s, TokensText(uri, ts[1..]))
  }

  /** Stringify (uri false) and StringifyUriFragment (uri true). */
  function PointerTextOf(uri: bool, ts: seq<Token>): Option<bytes> {
    if uri then Preface([HASH], TokensText(uri, ts)) else TokensText(uri, ts)
  }

  // ----- round trip -----

  lemma TripletRoundTrip(b: byte, y: bytes)
    ensures Triplet(PercentByte(b) + y) == Some(b) && (PercentByte(b) + y)[3..] == y && |PercentByte(b)| == 3
  {
  }

  lemma {:induction false} TripletsRoundTrip(bs: bytes, y: bytes)
    ensures Triplets(PercentEncode(bs) + y, |bs|) == Some(bs)
    ensures |PercentEncode(bs)| == 3 * |bs| && (PercentEncode(bs) + y)[3 * |bs|..] == y
  {
    hide Triplet, PercentByte;
    if |bs| > 0 {
      var z := PercentEncode(bs[1..]) + y;
      TripletsRoundTrip(bs[1..], y);
      TripletRoundTrip(bs[0], z);
      Regroup(PercentByte(bs[0]), PercentEncode(bs[1..]), y);
      assert (PercentByte(bs[0]) + z)[3 * |bs|..] == (PercentByte(bs[0]) + z)[3..][3 * |bs[1..]|..];
      assert bs == [bs[0]] + bs[1..];
    }
  }

  /** An accepted character is accepted on its own, and is as long as its first octet
      says. */
  lemma CharAlone(n: bytes)
    requires |n| > 0 && Utf.DecodeOne(n).ok
    ensures var d := Utf.DecodeOne(n);
      && 1 <= d.used <= |n| && d.used == CharLength(n[0])
      && Utf.DecodeOne(n[..d.used]).ok && (d.used == 1 ==> n[0] < 0x80) && (d.used > 1 ==> n[0] >= 0x80)
  {
    Utf.DecodeIsGrammar(n);
    var d := Utf.DecodeOne(n);
    var s := n[..d.used];
    assert s[..d.used] == s;
    Utf.DecodeIsGrammar(s);
    hide Utf.Hits;
  }

  lemma PercentFirst(b: byte)
    ensures |PercentByte(b)| == 3 && PercentByte(b)[0] == PERCENT
  {
  }

  lemma FirstTriplet(bs: bytes, y: bytes)
    requires |bs| > 0
    ensures Triplet(PercentEncode(bs) + y) == Some(bs[0]) && |PercentEncode(bs)| > 0 && PercentEncode(bs)[0] == PERCENT
  {
    hide Triplet, PercentByte;
    TripletRoundTrip(bs[0], PercentEncode(bs[1..]) + y);
    Regroup(PercentByte(bs[0]), PercentEncode(bs[1..]), y);
    PercentFirst(bs[0]);
  }

  lemma PercentCharRoundTrip(n: bytes, y: bytes)
    requires |n| > 0 && Utf.DecodeOne(n).ok
    ensures var used := Utf.DecodeOne(n).used;
      && 1 <= used <= |n|
      && PercentChar(PercentEncode(n[..used]) + y) == Some(n[..used])
      && (PercentEncode(n[..used]) + y)[3 * used..] == y
      && |PercentEncode(n[..used])| == 3 * used && PercentEncode(n[..used])[0] == PERCENT
  {
    hide Utf.DecodeOne, Triplet, Triplets, PercentEncode, CharLength;
    CharAlone(n);
    var bs := n[..Utf.DecodeOne(n).used];
    TripletsRoundTrip(bs, y);
    FirstTriplet(bs, y);
  }

  /** One written character in front of a name. */
  lemma NameRoundTripStep(uri: bool, n: bytes, piece: bytes, used: nat, y: bytes)
    requires 1 <= used <= |n| && NameText(uri, n[used..]).Some? && |piece| > 0 && piece[0] != SLASH
    requires NameText(uri, n) == Preface(piece, NameText(uri, n[used..]))
    requires var z := NameText(uri, n[used..]).value + y; Char(uri, piece + z) == GoodChar(n[..used], z)
    ensures Name(uri, NameText(uri, n).value + y) == Preceded(n[..used], Name(uri, NameText(uri, n[used..]).value + y))
    ensures forall r :: r == GoodName(n[used..], y) ==> Preceded(n[..used], r) == GoodName(n, y)
  {
    hide Char, NameText;
    var z := NameText(uri, n[used..]).value + y;
    assert NameText(uri, n).value + y == piece + z;
    assert n[..used] + n[used..] == n;
  }

  /** A written name is read back as that name, up to the solidus or the end. */
  lemma {:induction false} NameRoundTrip(uri: bool, n: bytes, y: bytes)
    requires NameText(uri, n).Some? && (y == [] || y[0] == SLASH)
    ensures Name(uri, NameText(uri, n).value + y) == GoodName(n, y)
    decreases |n|
  {
    var s := NameText(uri, n).value;
    if |n| == 0 {
      assert s + y == y;
    } else if n[0] == TILDE || n[0] == SLASH {
      NameRoundTripStep(uri, n, [TILDE, if n[0] == TILDE then 48 else 49], 1, y);
      NameRoundTrip(uri, n[1..], y);
    } else if uri && NeedPercentEncode(n[0]) {
      var used := Utf.DecodeOne(n).used;
      Utf.DecodeThenEncode(n);
      var t := NameText(uri, n[used..]).value;
      PercentCharRoundTrip(n, t + y);
      NameRoundTrip(uri, n[used..], y);
      CharAlone(n);
      NameRoundTripStep(uri, n, PercentEncode(n[..used]), used, y);
    } else {
      NameRoundTripStep(uri, n, [n[0]], 1, y);
      NameRoundTrip(uri, n[1..], y);
    }
  }

  lemma {:induction false} TokensRoundTrip(uri: bool, ts: seq<Token>)
    requires TokensText(uri, ts).Some?
    requires forall i :: 0 <= i < |ts| ==> ts[i] == MakeToken(ts[i].name)
    ensures var s := TokensText(uri, ts).value; (s == [] || s[0] == SLASH) && Tokens(uri, s) == Parsed(ts)
  {
    hide Name, NameText;
    if |ts| > 0 {
      TokensRoundTrip(uri, ts[1..]);
      var t := TokensText(uri, ts[1..]).value;
      var n := NameText(uri, ts[0].name).value;
      NameRoundTrip(uri, ts[0].name, t);
      var s := TokensText(uri, ts).value;
      assert s == [SLASH] + (n + t);
      assert s[1..] == n + t;
      assert [ts[0]] + ts[1..] == ts;
    }
  }

  predicate AllMade(ts: seq<Token>) { forall i :: 0 <= i < |ts| ==> ts[i] == MakeToken(ts[i].name) }

  lemma AllMadeCons(name: bytes, ts: seq<Token>)
    requires AllMade(ts)
    ensures AllMade([MakeToken(name)] + ts)
  {
    hide TokenIndex;
    var all := [MakeToken(name)] + ts;
    forall i | 0 <= i < |all| ensures all[i] == MakeToken(all[i].name) {
      if i > 0 { assert all[i] == ts[i - 1]; }
    }
  }

  /** Every token of a parsed pointer carries the index its name determines. */
  lemma {:induction false} ParsedTokensAreCanonical(uri: bool, x: bytes)
    requires x == [] || x[0] == SLASH
    ensures Tokens(uri, x).Parsed? ==> AllMade(Tokens(uri, x).tokens)
    decreases |x|
  {
    hide Name, TokenIndex;
    if |x| > 0 && Name(uri, x[1..]).GoodName? {
      var n := Name(uri, x[1..]);
      ParsedTokensAreCanonical(uri, n.rest);
      var more := Tokens(uri, n.rest);
      if more.Parsed? { AllMadeCons(n.name, more.tokens); }
    }
  }

  lemma CanonicalSource(source: bytes)
    requires ParseText(source).Parsed?
    ensures AllMade(ParseText(source).tokens)
  {
    hide AllMade;
    var uri := |source| > 0 && source[0] == HASH;
    ParsedTokensAreCanonical(uri, if uri then source[1..] else source);
  }

  lemma {:induction false} PlainNameWrites(n: bytes)
    ensures NameText(false, n).Some?
  {
    if |n| > 0 { PlainNameWrites(n[1..]); }
  }

  lemma {:induction false} PlainAlwaysWrites(ts: seq<Token>)
    ensures TokensText(false, ts).Some?
  {
    if |ts| > 0 {
      PlainNameWrites(ts[0].name);
      PlainAlwaysWrites(ts[1..]);
    }
  }

  /** Plain text form: for every parsed pointer, whatever bytes its names hold,
      writing succeeds and parsing what was written gives equal tokens. */
  lemma PlainRoundTrip(source: bytes)
    requires ParseText(source).Parsed?
    ensures var ts := ParseText(source).tokens;
      PointerTextOf(false, ts).Some? && ParseText(PointerTextOf(false, ts).value) == Parsed(ts)
  {
    var ts := ParseText(source).tokens;
    CanonicalSource(source);
    PlainAlwaysWrites(ts);
    TokensRoundTrip(false, ts);
  }

  /** A name can be written in a URI fragment exactly when it is UTF-8. */
  lemma {:induction false} UriNameWrites(n: bytes)
    ensures NameText(true, n).Some? <==> Utf.DecodeAll(n).Some?
    decreases |n|
  {
    if |n| > 0 {
      var d := Utf.DecodeOne(n);
      if d.ok {
        CharAlone(n);
        UriNameWrites(n[d.used..]);
        if n[0] < 0x80 { assert d.used == 1; }
      } else {
        assert n[0] >= 0x80;
      }
      hide Utf.DecodeOne;
    }
  }

  predicate AllUtf8(ts: seq<Token>) { forall i :: 0 <= i < |ts| ==> Utf.DecodeAll(ts[i].name).Some? }

  lemma {:induction false} UriWrites(ts: seq<Token>)
    ensures TokensText(true, ts).Some? <==> AllUtf8(ts)
  {
    hide Utf.DecodeAll, NameText;
    if |ts| > 0 {
      UriNameWrites(ts[0].name);
      UriWrites(ts[1..]);
      assert AllUtf8(ts) <==> Utf.DecodeAll(ts[0].name).Some? && AllUtf8(ts[1..]) by {
        assert forall i :: 1 <= i < |ts| ==> ts[i] == ts[1..][i - 1];
      }
    }
  }

  /** URI fragment form: writing succeeds exactly when every name is UTF-8, and then
      parsing what was written gives equal tokens. */
  lemma UriRoundTrip(source: bytes)
    requires ParseText(source).Parsed?
    ensures var ts := ParseText(source).tokens;
      && (PointerTextOf(true, ts).Some? <==> AllUtf8(ts))
      && (AllUtf8(ts) ==> ParseText(PointerTextOf(true, ts).value) == Parsed(ts))
  {
    var ts := ParseText(source).tokens;
    CanonicalSource(source);
    UriWrites(ts);
    if AllUtf8(ts) {
      TokensRoundTrip(true, ts);
      var s := TokensText(true, ts).value;
      assert ([HASH] + s)[1..] == s;
    }
  }

  // ----- the stateful parser and writer -----

  /** A token as stored: a stretch of the name buffer and an index. */
  datatype Span = Span(start: nat, length: nat, index: int)

  lemma {:induction false} PercentEncodeSnoc(bs: bytes, b: byte)
    ensures PercentEncode(bs + [b]) == PercentEncode(bs) + PercentByte(b)
  {
    if |bs| == 0 {
      assert (bs + [b])[1..] == [];
    } else {
      assert (bs + [b])[1..] == bs[1..] + [b];
      PercentEncodeSnoc(bs[1..], b);
    }
  }

  lemma PrefaceNothing(r: Option<bytes>)
    ensures Preface([], r) == r
  {
    if r.Some? { assert [] + r.value == r.value; }
  }

  lemma PrefaceTwice(a: bytes, b: bytes, r: Option<bytes>)
    ensures Preface(a, Preface(b, r)) == Preface(a + b, r)
  {
    if r.Some? { assert a + (b + r.value) == a + b + r.value; }
  }

  lemma TokensTextStep(uri: bool, ts: seq<Token>, body: bytes)
    requires |ts| > 0
    ensures var n := NameText(uri, ts[0].name);
      && (n.None? ==> Preface(body, TokensText(uri, ts)) == None)
      && (n.Some? ==>
            Preface(body, TokensText(uri, ts)) == Preface(body + ([SLASH] + n.value), TokensText(uri, ts[1..])))
  {
    hide NameText;
    var n := NameText(uri, ts[0].name);
    if n.Some? { PrefaceTwice(body, [SLASH] + n.value, TokensText(uri, ts[1..])); }
  }

  lemma TokensTextEnds(uri: bool)
    ensures TokensText(uri, []) == Some([])
  {
  }

  function ListOf(buffer: bytes, spans: seq<Span>): (ts: seq<Token>)
    requires forall i :: 0 <= i < |spans| ==> spans[i].start + spans[i].length <= |buffer|
    ensures |ts| == |spans|
  {
    seq(|spans|, i requires 0 <= i < |spans| =>
      Token(buffer[spans[i].start..spans[i].start + spans[i].length], spans[i].index))
  }

  lemma ListOfEmpty(buffer: bytes)
    ensures ListOf(buffer, []) == []
  {
  }

  lemma AfterNothing(r: Parsed)
    ensures After([], r) == r
  {
    if r.Parsed? { assert [] + r.tokens == r.tokens; }
  }

  lemma AfterAll(uri: bool, ts: seq<Token>)
    ensures After(ts, Tokens(uri, [])) == Parsed(ts)
  {
    assert ts + [] == ts;
  }

  lemma AfterTwice(a: seq<Token>, b: seq<Token>, r: Parsed)
    ensures After(a, After(b, r)) == After(a + b, r)
  {
    if r.Parsed? { assert a + (b + r.tokens) == a + b + r.tokens; }
  }

  /** One token off the front, after the tokens already read. */
  lemma TokensStep(uri: bool, x: bytes, list: seq<Token>)
    requires |x| > 0 && x[0] == SLASH
    ensures var r := Name(uri, x[1..]);
      && (r.BadName? ==> After(list, Tokens(uri, x)) == Failed(r.error, r.rest))
      && (r.GoodName? ==> After(list, Tokens(uri, x)) == After(list + [MakeToken(r.name)], Tokens(uri, r.rest)))
  {
    hide Name;
    var r := Name(uri, x[1..]);
    if r.GoodName? { AfterTwice(list, [MakeToken(r.name)], Tokens(uri, r.rest)); }
  }

  lemma PrecededTwice(a: bytes, b: bytes, r: NameResult)
    ensures Preceded(a, Preceded(b, r)) == Preceded(a + b, r)
  {
    if r.GoodName? { assert a + (b + r.name) == a + b + r.name; }
  }

  /** Earlier tokens do not depend on the part of the buffer written later. */
  lemma ListOfPrefix(buffer: bytes, k: nat, spans: seq<Span>)
    requires k <= |buffer| && forall i :: 0 <= i < |spans| ==> spans[i].start + spans[i].length <= k
    ensures ListOf(buffer, spans) == ListOf(buffer[..k], spans)
  {
    forall i | 0 <= i < |spans| ensures ListOf(buffer, spans)[i] == ListOf(buffer[..k], spans)[i] {
      assert buffer[..k][spans[i].start..spans[i].start + spans[i].length]
        == buffer[spans[i].start..spans[i].start + spans[i].length];
    }
  }

  lemma ListOfSnoc(buffer: bytes, done: bytes, spans: seq<Span>, s: Span, name: bytes)
    requires |done| <= |buffer| && buffer[..|done|] == done
    requires forall i :: 0 <= i < |spans| ==> spans[i].start + spans[i].length <= |done|
    requires s.start == |done| && s.start + s.length <= |buffer| && buffer[s.start..s.start + s.length] == name
    requires s.index == TokenIndex(name)
    ensures ListOf(buffer, spans + [s]) == ListOf(done, spans) + [MakeToken(name)]
  {
    ListOfPrefix(buffer, |done|, spans);
    assert forall i :: 0 <= i < |spans| ==> ListOf(buffer, spans + [s])[i] == ListOf(buffer, spans)[i];
  }

  function Solidi(x: bytes): nat {
    if |x| == 0 then 0 else (if x[0] == SLASH then 1 else 0) + Solidi(x[1..])
  }

  lemma UnescapedSolidi(c: byte, y: bytes)
    ensures Unescaped(c, y).GoodChar? ==> Solidi(Unescaped(c, y).rest) == Solidi(y)
  {
  }

  lemma {:induction false} TripletsSolidi(x: bytes, n: nat)
    ensures Triplets(x, n).Some? ==> Solidi(x) == Solidi(x[3 * n..])
  {
    if n > 0 && Triplets(x, n).Some? {
      assert x[1..][1..] == x[2..] && x[2..][1..] == x[3..] && x[3..][3 * (n - 1)..] == x[3 * n..];
      assert Solidi(x) == Solidi(x[1..]) == Solidi(x[2..]) == Solidi(x[3..]);
      TripletsSolidi(x[3..], n - 1);
    } else if n == 0 {
      assert x[0..] == x;
    }
  }

  lemma PercentSolidi(x: bytes)
    requires PercentChar(x).Some?
    ensures Solidi(x) == Solidi(x[3 * |PercentChar(x).value|..])
  {
    TripletsSolidi(x, |PercentChar(x).value|);
    hide Triplet, Triplets, Utf.DecodeOne, Solidi;
  }

  lemma CharSolidi(uri: bool, x: bytes)
    requires |x| > 0 && x[0] != SLASH
    ensures Char(uri, x).GoodChar? ==> Solidi(x) == Solidi(Char(uri, x).rest)
  {
    hide PercentChar, Triplets, Unescaped;
    if uri && x[0] == PERCENT {
      if PercentChar(x).Some? {
        PercentSolidi(x);
        UnescapedSolidi(PercentChar(x).value[0], x[3..]);
      }
    } else {
      UnescapedSolidi(x[0], x[1..]);
    }
  }

  /** A name takes no solidus. */
  lemma {:induction false} NameSolidi(uri: bool, x: bytes)
    ensures Name(uri, x).GoodName? ==> Solidi(x) == Solidi(Name(uri, x).rest)
    decreases |x|
  {
    if |x| > 0 && x[0] != SLASH {
      CharSolidi(uri, x);
      var r := Char(uri, x);
      hide Char;
      if r.GoodChar? { NameSolidi(uri, r.rest); }
    }
  }

  lemma TripletsOne(x: bytes)
    ensures Triplets(x, 1) == if Triplet(x).Some? then Some([Triplet(x).value]) else None
  {
    if Triplet(x).Some? {
      assert Triplets(x[3..], 0) == Some([]);
      assert [Triplet(x).value] + [] == [Triplet(x).value];
    }
  }

  lemma {:induction false} TripletsSnoc(x: bytes, n: nat)
    ensures Triplets(x, n + 1) ==
      if Triplets(x, n).Some? && Triplet(x[3 * n..]).Some?
      then Some(Triplets(x, n).value + [Triplet(x[3 * n..]).value]) else None
  {
    if n == 0 {
      TripletsOne(x);
      assert x[3 * n..] == x;
      if Triplet(x).Some? { assert [] + [Triplet(x).value] == [Triplet(x).value]; }
    } else if Triplet(x).Some? {
      TripletsSnoc(x[3..], n - 1);
      if Triplets(x, n).Some? {
        assert x[3..][3 * (n - 1)..] == x[3 * n..];
        if Triplet(x[3 * n..]).Some? {
          var b, bs, e := Triplet(x).value, Triplets(x[3..], n - 1).value, Triplet(x[3 * n..]).value;
          assert [b] + (bs + [e]) == [b] + bs + [e];
        }
      }
    }
  }

  lemma MaskCount(c: byte)
    ensures |Utf.TrailMasks(Utf.GetRange(c))| <= 3 && (c < 0x80 ==> Utf.TrailMasks(Utf.GetRange(c)) == [])
  {
  }

  /** Decode's verdict on a string as long as its first octet announces. */
  lemma DecodeVerdict(bs: bytes)
    requires |bs| > 0 && |bs| == CharLength(bs[0])
    ensures var masks := Utf.TrailMasks(Utf.GetRange(bs[0]));
      Utf.DecodeOne(bs).ok <==>
        bs[0] < 0x80 || (|masks| > 0 && forall k :: 0 <= k < |masks| ==> Utf.Hits(bs[k + 1], masks[k]))
  {
    hide Utf.Hits;
    MaskCount(bs[0]);
    var masks := Utf.TrailMasks(Utf.GetRange(bs[0]));
    assert forall k :: 0 <= k < |bs| ==> At(bs, k) == bs[k];
  }

  lemma TripletsHead(x: bytes, n: nat)
    requires n > 0 && Triplets(x, n).Some?
    ensures Triplet(x).Some? && Triplets(x, n).value[0] == Triplet(x).value
  {
  }

  /** What the first octet decides about a percent-encoded character. */
  lemma PercentCharCases(x: bytes)
    ensures Triplet(x).None? ==> PercentChar(x) == None
    ensures Triplet(x).Some? && Triplet(x).value < 0x80 ==> PercentChar(x) == Some([Triplet(x).value])
    ensures Triplet(x).Some? && Triplet(x).value >= 0x80 ==>
      var masks := Utf.TrailMasks(Utf.GetRange(Triplet(x).value));
      var r := Triplets(x, 1 + |masks|);
      var fits := |masks| > 0 && r.Some? && forall k :: 0 <= k < |masks| ==> Utf.Hits(r.value[k + 1], masks[k]);
      PercentChar(x) == if fits then r else None
  {
    if Triplet(x).Some? {
      var c := Triplet(x).value;
      TripletsOne(x);
      MaskCount(c);
      var r := Triplets(x, CharLength(c));
      if r.Some? {
        assert r.value[0] == c by { TripletsHead(x, CharLength(c)); }
        DecodeVerdict(r.value);
      }
      hide Utf.DecodeOne, Utf.Hits, Utf.TrailMasks, Utf.GetRange, Triplet, Triplets;
    }
  }

  /** PercentDecodeStream: each Take decodes one triplet; a bad one makes the stream
      invalid for good. */
  class PercentDecodeStream {
    const source: bytes
    var src: nat
    var valid: bool

    constructor (source: bytes, src: nat)
      ensures this.source == source && this.src == src && valid
    {
      this.source, this.src, valid := source, src, true;
    }

    /** One hexadecimal digit. */
    static method TakeDigit(h: byte) returns (v: Option<int>)
      ensures v == HexValue(h)
    {
      var d: int := h;
      if 48 <= d <= 57 { return Some(d - 48); }
      if 65 <= d <= 70 { return Some(d - 65 + 10); }
      if 97 <= d <= 102 { return Some(d - 97 + 10); }
      return None;
    }

    /** At the end of the source the byte behind it is read first; it decides nothing. */
    method Take() returns (c: byte)
      requires src <= |source|
      modifies this
      ensures old(src) <= src <= |source|
      ensures valid <==> old(valid) && Triplet(source[old(src)..]).Some?
      ensures valid ==> c == Triplet(source[old(src)..]).value && src == old(src) + 3
      ensures !valid && old(valid) ==> c == 0
    {
      hide HexValue;
      ghost var x := source[src..];
      var first: byte := *;
      if src < |source| { first := source[src]; }
      if first != PERCENT || src + 3 > |source| {
        valid := false;
        return 0;
      }
      src := src + 1;
      var v: int := 0;
      var j := 0;
      while j < 2
        invariant 0 <= j <= 2 && src == old(src) + 1 + j && valid == old(valid)
        invariant 0 <= v < if j == 0 then 1 else if j == 1 then 16 else 256
        invariant j >= 1 ==> HexValue(x[1]).Some?
        invariant j == 1 ==> v == HexValue(x[1]).value
        invariant j == 2 ==> HexValue(x[2]).Some? && v == HexValue(x[1]).value * 16 + HexValue(x[2]).value
      {
        assert source[src] == x[1 + j];
        v := v * 16 % 256;
        var digit := TakeDigit(source[src]);
        if digit.None? {
          valid := false;
          return 0;
        }
        v := v + digit.value;
        src := src + 1;
        j := j + 1;
      }
      c := v;
    }
  }

  /** An empty source with a fragment's hash behind it, and no solidus after that. */
  predicate Misread(source: bytes, behind: bytes) {
    source == [] && At(behind, 0) == HASH && At(behind, 1) != SLASH
  }

  /** GenericPointer: the tokens and the one buffer that holds all their names, each
      followed by a terminator. */
  class Pointer {
    var nameBuffer: array<byte>
    var spans: array<Span>
    var tokenCount: nat
    var error: Option<ParseError>
    var errorOffset: nat

    ghost predicate Valid()
      reads this, nameBuffer, spans
    {
      tokenCount <= spans.Length &&
      forall i :: 0 <= i < tokenCount ==> spans[i].start + spans[i].length <= nameBuffer.Length
    }

    /** The tokens, with their names. */
    ghost function TokenList(): seq<Token>
      reads this, nameBuffer, spans
      requires Valid()
    {
      ListOf(nameBuffer[..], spans[..tokenCount])
    }

    constructor ()
      ensures Valid() && tokenCount == 0 && fresh(nameBuffer) && fresh(spans)
    {
      nameBuffer := new byte[0];
      spans := new Span[0];
      tokenCount, error, errorOffset := 0, None, 0;
    }

    method CountSolidi(source: bytes) returns (n: nat)
      ensures n == Solidi(source)
    {
      n := 0;
      assert source[0..] == source;
      for i := 0 to |source|
        invariant n + Solidi(source[i..]) == Solidi(source)
      {
        assert source[i..][1..] == source[i + 1..];
        if source[i] == SLASH { n := n + 1; }
      }
    }

    /** The trail octets of a character whose first octet is at name. */
    method TakeTrail(input: PercentDecodeStream, masks: seq<bv8>, ghost i: nat, name: nat) returns (ok: bool)
      requires input.valid && input.src == i + 3 <= |input.source| && |masks| <= 3 && name + 4 <= nameBuffer.Length
      requires Triplets(input.source[i..], 1) == Some([nameBuffer[name]])
      modifies nameBuffer, input
      ensures nameBuffer[..name + 1] == old(nameBuffer[..name + 1])
      ensures Triplets(input.source[i..], 1 + |masks|)
        == if input.valid then Some(nameBuffer[name..name + 1 + |masks|]) else None
      ensures ok <==> forall k :: 0 <= k < |masks| ==> Utf.Hits(nameBuffer[name + 1 + k], masks[k])
    {
      hide Triplets, Triplet, Utf.Hits;
      ghost var x := input.source[i..];
      var len := 1;
      ok := true;
      assert nameBuffer[name..name + 1] == [nameBuffer[name]];
      while len < 1 + |masks|
        invariant 1 <= len <= 1 + |masks| && i <= input.src <= |input.source|
        invariant nameBuffer[..name + 1] == old(nameBuffer[..name + 1])
        invariant input.valid ==> input.src == i + 3 * len
        invariant Triplets(x, len) == if input.valid then Some(nameBuffer[name..name + len]) else None
        invariant ok <==> forall k :: 0 <= k < len - 1 ==> Utf.Hits(nameBuffer[name + 1 + k], masks[k])
      {
        TripletsSnoc(x, len);
        if input.valid { assert x[3 * len..] == input.source[input.src..]; }
        ghost var had := nameBuffer[name..name + len];
        var c := input.Take();
        nameBuffer[name + len] := c;
        ok := ok && Utf.Hits(c, masks[len - 1]);
        len := len + 1;
        assert nameBuffer[name..name + len] == had + [c];
      }
    }

    /** One percent-encoded UTF-8 character, decoded into the name buffer at name. */
    method PercentValidate(source: bytes, i: nat, name: nat) returns (ok: bool, len: nat)
      requires i < |source| && name < nameBuffer.Length
      requires Triplet(source[i..]).Some? ==> name + 4 <= nameBuffer.Length
      modifies nameBuffer
      ensures ok <==> PercentChar(source[i..]).Some?
      ensures ok ==> name + len <= nameBuffer.Length && PercentChar(source[i..]) == Some(nameBuffer[name..name + len])
      ensures nameBuffer[..name] == old(nameBuffer[..name])
    {
      hide Utf.DecodeOne, Utf.Hits, Utf.TrailMasks, Utf.GetRange, Triplet, Triplets, PercentChar;
      ghost var x := source[i..];
      var input := new PercentDecodeStream(source, i);
      var c := input.Take();
      nameBuffer[name] := c;
      assert nameBuffer[name..name + 1] == [c];
      TripletsOne(x);
      PercentCharCases(x);
      var masks := Utf.TrailMasks(Utf.GetRange(c));
      if c < 0x80 { return input.valid, 1; }
      if |masks| == 0 { return false, 1; }
      MaskCount(c);
      ghost var kept := nameBuffer[..name + 1];
      ok := TakeTrail(input, masks, i, name);
      len := 1 + |masks|;
      assert nameBuffer[..name] == kept[..name] && nameBuffer[name] == kept[name];
      ghost var bs := nameBuffer[name..name + len];
      assert forall k :: 0 <= k < |masks| ==>
        Utf.Hits(bs[k + 1], masks[k]) == Utf.Hits(nameBuffer[name + 1 + k], masks[k]);
      ok := ok && input.valid;
    }

    /** The escape, if the character just read starts one, and the write to the name. */
    method PutUnescaped(source: bytes, i: nat, c: byte, name: nat) returns (e: Option<ParseError>, i': nat, name': nat)
      requires i <= |source| && name < nameBuffer.Length
      modifies nameBuffer
      ensures nameBuffer[..name] == old(nameBuffer[..name]) && i <= i' <= |source|
      ensures match Unescaped(c, source[i..])
        case BadChar(error, rest) => e == Some(error) && source[i'..] == rest
        case GoodChar(bs, rest) =>
          e == None && source[i'..] == rest && |rest| <= |source| - i && name' == name + 1 && bs == [nameBuffer[name]]
    {
      var ch := c;
      i', name' := i, name;
      if ch == TILDE {
        if i' < |source| {
          ch := source[i'];
          assert source[i..][0] == ch && source[i..][1..] == source[i + 1..];
          if ch == 48 { ch := TILDE; }
          else if ch == 49 { ch := SLASH; }
          else { return Some(InvalidEscape), i', name; }
          i' := i' + 1;
        } else {
          return Some(InvalidEscape), i', name;
        }
      }
      nameBuffer[name] := ch;
      return None, i', name + 1;
    }

    /** A percent-encoded character; of one octet it can be the tilde of an escape. */
    method ReadPercent(source: bytes, i: nat, name: nat) returns (e: Option<ParseError>, i': nat, name': nat)
      requires i < |source| == nameBuffer.Length && name + 2 <= i && source[i] == PERCENT
      modifies nameBuffer
      ensures nameBuffer[..name] == old(nameBuffer[..name]) && i' <= |source|
      ensures match Char(true, source[i..])
        case BadChar(error, rest) => e == Some(error) && source[i'..] == rest
        case GoodChar(bs, rest) =>
          && e == None && i < i' && source[i'..] == rest && name' == name + |bs| <= nameBuffer.Length
          && name' + i <= name + i' && nameBuffer[name..name'] == bs
    {
      hide PercentChar, Unescaped;
      ghost var x := source[i..];
      var ok, len := PercentValidate(source, i, name);
      if !ok { return Some(InvalidPercentEncoding), i, name; }
      assert x[3 * len..] == source[i + 3 * len..];
      if len != 1 { return None, i + 3 * len, name + len; }
      assert nameBuffer[name..name + 1] == [nameBuffer[name]];
      e, i', name' := PutUnescaped(source, i + 3, nameBuffer[name], name);
      assert e == None ==> nameBuffer[name..name'] == [nameBuffer[name]];
    }

    /** One turn of the loop over a token's characters. */
    method ReadChar(uri: bool, source: bytes, i: nat, name: nat) returns (e: Option<ParseError>, i': nat, name': nat)
      requires i < |source| == nameBuffer.Length && name + (if uri then 2 else 1) <= i
      modifies nameBuffer
      ensures nameBuffer[..name] == old(nameBuffer[..name]) && i' <= |source|
      ensures match Char(uri, source[i..])
        case BadChar(error, rest) => e == Some(error) && source[i'..] == rest
        case GoodChar(bs, rest) =>
          && e == None && i < i' && source[i'..] == rest && name' == name + |bs| <= nameBuffer.Length
          && name' + i <= name + i' && nameBuffer[name..name'] == bs
    {
      hide PercentChar, Unescaped;
      var c := source[i];
      assert source[i..][1..] == source[i + 1..];
      if uri {
        if c == PERCENT {
          e, i', name' := ReadPercent(source, i, name);
          return;
        } else if NeedPercentEncode(c) {
          return Some(CharacterMustPercentEncode), i, name;
        }
      }
      e, i', name' := PutUnescaped(source, i + 1, c, name);
      assert e == None ==> nameBuffer[name..name'] == [nameBuffer[name]];
    }

    /** One more character of the name that starts at name. */
    method AppendChar(uri: bool, source: bytes, i: nat, name: nat, end: nat)
      returns (e: Option<ParseError>, i': nat, end': nat)
      requires i < |source| == nameBuffer.Length && name <= end && end + (if uri then 2 else 1) <= i
      modifies nameBuffer
      ensures nameBuffer[..name] == old(nameBuffer[..name]) && i' <= |source|
      ensures match Char(uri, source[i..])
        case BadChar(error, rest) => e == Some(error) && source[i'..] == rest
        case GoodChar(bs, rest) =>
          && e == None && i < i' && source[i'..] == rest && end' == end + |bs| <= nameBuffer.Length
          && end' + i <= end + i' && nameBuffer[name..end'] == old(nameBuffer[name..end]) + bs
    {
      hide Char;
      ghost var all, had := nameBuffer[..end], nameBuffer[name..end];
      e, i', end' := ReadChar(uri, source, i, end);
      assert nameBuffer[..name] == all[..name] && nameBuffer[name..end] == all[name..] && had == all[name..];
      if e.None? { assert nameBuffer[name..end'] == nameBuffer[name..end] + nameBuffer[end..end']; }
    }

    /** The characters of one token. */
    method ReadName(uri: bool, source: bytes, start: nat, name: nat) returns (e: Option<ParseError>, i: nat, name': nat)
      requires start <= |source| == nameBuffer.Length && name + (if uri then 2 else 1) <= start
      modifies nameBuffer
      ensures nameBuffer[..name] == old(nameBuffer[..name]) && i <= |source|
      ensures match Name(uri, source[start..])
        case BadName(error, rest) => e == Some(error) && source[i..] == rest
        case GoodName(n, rest) =>
          && e == None && start <= i && source[i..] == rest && name' == name + |n| <= nameBuffer.Length
          && name' + start <= name + i && nameBuffer[name..name'] == n
    {
      hide Char;
      i, name', e := start, name, None;
      assert nameBuffer[name..name] == [];
      while i < |source| && source[i] != SLASH
        invariant e == None && start <= i <= |source| && name <= name' <= nameBuffer.Length && name' + start <= name + i
        invariant nameBuffer[..name] == old(nameBuffer[..name])
        invariant Name(uri, source[start..]) == Preceded(nameBuffer[name..name'], Name(uri, source[i..]))
        decreases |source| - i
      {
        ghost var had, x := nameBuffer[name..name'], source[i..];
        var next, more;
        e, next, more := AppendChar(uri, source, i, name, name');
        if e.Some? {
          i := next;
          return;
        }
        PrecededTwice(had, Char(uri, x).bs, Name(uri, source[next..]));
        i, name' := next, more;
      }
      assert Name(uri, source[i..]) == GoodName([], source[i..]);
      assert nameBuffer[name..name'] + [] == nameBuffer[name..name'];
    }

    /** The three checks that turn a name into an array index. */
    method IndexOf(name: nat, length: nat) returns (index: int)
      requires name + length <= nameBuffer.Length
      ensures index == TokenIndex(nameBuffer[name..name + length])
    {
      ghost var text := nameBuffer[name..name + length];
      var isNumber := length > 0;
      var k := 0;
      while k < length && isNumber
        invariant 0 <= k <= length
        invariant isNumber <==> length > 0 && forall j :: 0 <= j < k ==> IsDigit(text[j])
      {
        isNumber := IsDigit(nameBuffer[name + k]);
        assert text[k] == nameBuffer[name + k];
        k := k + 1;
      }
      if isNumber && length > 1 && nameBuffer[name] == 48 { isNumber := false; }
      assert isNumber <==> IsNumber(text);
      var n := 0;
      if isNumber {
        var j := 0;
        assert text[0..] == text;
        while j < length
          invariant 0 <= j <= length && 0 <= n < TWO32
          invariant isNumber ==> Accumulate(0, text) == Accumulate(n, text[j..])
          invariant !isNumber ==> Accumulate(0, text) == None
          decreases length - j, isNumber
        {
          if !isNumber { break; }
          assert text[j] == nameBuffer[name + j] && text[j..][1..] == text[j + 1..];
          var m := (n * 10 + nameBuffer[name + j] - 48) % TWO32;
          if m < n {
            isNumber := false;
          } else {
            n := m;
            j := j + 1;
          }
        }
        assert j == length ==> text[j..] == [];
      }
      return if isNumber then n else INVALID_INDEX;
    }

    /** One token: its characters, a terminator, and its index. */
    method ReadToken(uri: bool, source: bytes, i: nat, name: nat, token: nat)
      returns (e: Option<ParseError>, next: nat, name': nat)
      requires i < |source| == nameBuffer.Length && name + (if uri then 1 else 0) <= i && token < spans.Length
      modifies nameBuffer, spans
      ensures nameBuffer[..name] == old(nameBuffer[..name]) && next <= |source|
      ensures forall k :: 0 <= k < token ==> spans[k] == old(spans[k])
      ensures match Name(uri, source[i + 1..])
        case BadName(error, rest) => e == Some(error) && source[next..] == rest
        case GoodName(n, rest) =>
          && e == None && i < next && source[next..] == rest
          && name' == name + |n| + 1 <= nameBuffer.Length && name' + i <= name + next
          && nameBuffer[name..name + |n|] == n && spans[token] == Span(name, |n|, TokenIndex(n))
    {
      hide Name;
      ghost var done := nameBuffer[..name];
      var end;
      e, next, end := ReadName(uri, source, i + 1, name);
      name' := name;
      if e.Some? { return; }
      ghost var n := nameBuffer[name..end];
      var length := end - name;
      nameBuffer[end] := NUL;
      assert nameBuffer[..name] == done && nameBuffer[name..end] == n && nameBuffer[name..name + length] == n;
      var index := IndexOf(name, length);
      spans[token] := Span(name, length, index);
      name' := end + 1;
    }

    /** ReadToken, as one more token behind those before it. */
    method AddToken(uri: bool, source: bytes, i: nat, name: nat, token: nat)
      returns (e: Option<ParseError>, next: nat, name': nat)
      requires i < |source| == nameBuffer.Length && name + (if uri then 1 else 0) <= i && token < spans.Length
      requires forall k :: 0 <= k < token ==> spans[k].start + spans[k].length <= name
      modifies nameBuffer, spans
      ensures next <= |source|
      ensures var r := Name(uri, source[i + 1..]);
        && (r.BadName? ==> e == Some(r.error) && source[next..] == r.rest)
        && (r.GoodName? ==>
              (e == None && i < next && source[next..] == r.rest && name' <= nameBuffer.Length
                && name' + i <= name + next
               && (forall k :: 0 <= k <= token ==> spans[k].start + spans[k].length <= name')
               && ListOf(nameBuffer[..name'], spans[..token + 1])
                  == old(ListOf(nameBuffer[..name], spans[..token])) + [MakeToken(r.name)]))
    {
      hide Name, TokenIndex, ListOf;
      ghost var done, before := nameBuffer[..name], spans[..token];
      e, next, name' := ReadToken(uri, source, i, name, token);
      if e.Some? { return; }
      ghost var n := Name(uri, source[i + 1..]).name;
      assert nameBuffer[..name'][name..name + |n|] == n && nameBuffer[..name'][..name] == done;
      assert spans[..token + 1] == before + [spans[token]];
      ListOfSnoc(nameBuffer[..name'], done, before, spans[token], n);
    }

    method Fail(e: ParseError, i: nat)
      modifies this`tokenCount, this`error, this`errorOffset
      ensures Valid() && tokenCount == 0 && error == Some(e) && errorOffset == i
    {
      tokenCount := 0;
      errorOffset := i;
      error := Some(e);
    }

    /** The loop over the tokens. */
    method ParseTokens(uri: bool, source: bytes, start: nat)
      requires Valid() && error == None && start <= |source| == nameBuffer.Length
      requires start == (if uri then 1 else 0)
      requires tokenCount == spans.Length == Solidi(source[start..])
      requires source[start..] == [] || source[start] == SLASH
      modifies this`tokenCount, this`error, this`errorOffset, nameBuffer, spans
      ensures Valid()
      ensures match Tokens(uri, source[start..])
        case Parsed(ts) => error == None && tokenCount == |ts| && TokenList() == ts
        case Failed(e, rest) => error == Some(e) && errorOffset == |source| - |rest| && tokenCount == 0
    {
      hide Name, TokenIndex, ListOf, Tokens;
      var i, name, token := start, 0, 0;
      ghost var list: seq<Token> := [];
      ListOfEmpty(nameBuffer[..0]);
      AfterNothing(Tokens(uri, source[start..]));
      while i < |source|
        invariant start <= i <= |source| && 0 <= name && name + start <= i && error == None
        invariant source[i..] == [] || source[i] == SLASH
        invariant token + Solidi(source[i..]) == tokenCount == spans.Length
        invariant forall k :: 0 <= k < token ==> spans[k].start + spans[k].length <= name
        invariant list == ListOf(nameBuffer[..name], spans[..token])
        invariant Tokens(uri, source[start..]) == After(list, Tokens(uri, source[i..]))
        decreases |source| - i
      {
        ghost var x := source[i..];
        assert x[1..] == source[i + 1..] && x[0] == SLASH;
        NameSolidi(uri, x[1..]);
        TokensStep(uri, x, list);
        var e, next, name' := AddToken(uri, source, i, name, token);
        if e.Some? {
          Fail(e.value, next);
          return;
        }
        list := list + [MakeToken(Name(uri, x[1..]).name)];
        token, i, name := token + 1, next, name';
      }
      assert source[i..] == [];
      AfterAll(uri, list);
      assert spans[..tokenCount] == spans[..token] && nameBuffer[..][..name] == nameBuffer[..name];
      ListOfPrefix(nameBuffer[..], name, spans[..token]);
    }

    /** Parse: on success the tokens are what the grammar reads, and the name buffer,
        which is as long as the source, was long enough; on failure the error and its
        offset are the grammar's, and no token is kept. The bytes behind the source
        matter to an empty source alone: it is refused where they are misread. */
    method Parse(source: bytes, behind: bytes)
      requires |source| < TWO32
      modifies this
      ensures Valid() && fresh(nameBuffer) && fresh(spans) && nameBuffer.Length == |source|
      ensures Misread(source, behind) ==>
        && ParseText(source) == Parsed([])
        && error == Some(TokenMustBeginWithSolidus) && errorOffset == 1 && tokenCount == 0
      ensures !Misread(source, behind) ==>
        match ParseText(source)
        case Parsed(ts) => error == None && tokenCount == |ts| && TokenList() == ts
        case Failed(e, rest) => error == Some(e) && errorOffset == |source| - |rest| && tokenCount == 0
    {
      error := None;
      tokenCount := CountSolidi(source);
      nameBuffer := new byte[|source|];
      spans := new Span[tokenCount](_ => Span(0, 0, INVALID_INDEX));
      var memory := source + behind;
      var i := 0;
      var uri := false;
      if At(memory, i) == HASH {
        uri := true;
        i := 1;
      }
      if i != |source| && At(memory, i) != SLASH {
        Fail(TokenMustBeginWithSolidus, i);
        return;
      }
      if i > |source| { return; }
      assert source[i..] == if uri then source[1..] else source;
      ParseTokens(uri, source, i);
    }

    /** PercentEncodeStream */
    method PutPercent(bs: bytes, os: Utf.OutputStream)
      modifies os
      ensures os.out == old(os.out) + PercentEncode(bs)
    {
      assert bs[..0] == [] && os.out + [] == os.out;
      for k := 0 to |bs|
        invariant os.out == old(os.out) + PercentEncode(bs[..k])
      {
        PercentEncodeSnoc(bs[..k], bs[k]);
        assert bs[..k + 1] == bs[..k] + [bs[k]];
        ghost var was := os.out;
        os.Put(PERCENT);
        os.Put(HexDigit(bs[k] / 16));
        os.Put(HexDigit(bs[k] % 16));
        assert os.out == was + PercentByte(bs[k]);
        assert old(os.out) + PercentEncode(bs[..k]) + PercentByte(bs[k])
          == old(os.out) + (PercentEncode(bs[..k]) + PercentByte(bs[k]));
      }
      assert bs[..|bs|] == bs;
    }

    method WriteChar(uri: bool, name: bytes, start: nat, os: Utf.OutputStream) returns (ok: bool, j: nat)
      requires start < |name|
      modifies os
      ensures ok <==> CharText(uri, name[start..]).Some?
      ensures ok ==> var (piece, used) := CharText(uri, name[start..]).value;
        os.out == old(os.out) + piece && j == start + used
    {
      hide PercentEncode, Utf.DecodeOne;
      var c := name[start];
      j := start;
      ok := true;
      if c == TILDE {
        os.Put(TILDE);
        os.Put(48);
      } else if c == SLASH {
        os.Put(TILDE);
        os.Put(49);
      } else if uri && NeedPercentEncode(c) {
        // the octets Validate puts out go through a percent-encoding stream
        ghost var n := name[start..];
        var input := new Utf.InputStream(name[start..]);
        var octets := new Utf.OutputStream();
        ghost var taken;
        ok, taken := Utf.Validate(input, octets);
        assert n[0..] == n;
        if !ok { return; }
        Utf.DecodeThenEncode(n);
        assert [] + Utf.Copied(n, taken) == n[..taken];
        PutPercent(octets.out, os);
        j := j + input.pos - 1;
      } else {
        os.Put(c);
      }
      j := j + 1;
    }

    /** The inner loop of Stringify. */
    method WriteName(uri: bool, name: bytes, os: Utf.OutputStream) returns (ok: bool)
      modifies os
      ensures ok <==> NameText(uri, name).Some?
      ensures ok ==> os.out == old(os.out) + NameText(uri, name).value
    {
      hide CharText;
      var j := 0;
      ghost var body: bytes := [];
      assert name[0..] == name && os.out + body == os.out;
      PrefaceNothing(NameText(uri, name));
      while j < |name|
        invariant 0 <= j <= |name| && os.out == old(os.out) + body
        invariant NameText(uri, name) == Preface(body, NameText(uri, name[j..]))
        decreases |name| - j
      {
        ghost var r := CharText(uri, name[j..]);
        var next;
        ok, next := WriteChar(uri, name, j, os);
        if !ok { return; }
        assert name[j..][r.value.1..] == name[next..];
        PrefaceTwice(body, r.value.0, NameText(uri, name[next..]));
        assert old(os.out) + body + r.value.0 == old(os.out) + (body + r.value.0);
        body := body + r.value.0;
        j := next;
      }
      assert name[j..] == [] && body + [] == body;
      ok := true;
    }

    /** One turn of Stringify's outer loop. */
    method WriteToken(uri: bool, t: nat, os: Utf.OutputStream) returns (ok: bool)
      requires Valid() && t < tokenCount
      modifies os
      ensures var text := NameText(uri, TokenList()[t].name);
        && (ok <==> text.Some?)
        && (ok ==> os.out == old(os.out) + ([SLASH] + text.value))
    {
      hide NameText;
      ghost var was := os.out;
      os.Put(SLASH);
      var name := nameBuffer[spans[t].start..spans[t].start + spans[t].length];
      assert name == TokenList()[t].name;
      ok := WriteName(uri, name, os);
      if ok { Regroup(was, [SLASH], NameText(uri, name).value); }
    }

    /** Stringify (uri false) and StringifyUriFragment (uri true). */
    method Stringify(uri: bool) returns (ok: bool, os: Utf.OutputStream)
      requires Valid()
      ensures fresh(os)
      ensures ok <==> PointerTextOf(uri, TokenList()).Some?
      ensures ok ==> os.out == PointerTextOf(uri, TokenList()).value
    {
      TokensTextEnds(uri);
      hide NameText, TokensText, ListOf;
      os := new Utf.OutputStream();
      if uri { os.Put(HASH); }
      ghost var head := os.out;
      ghost var ts := TokenList();
      var t := 0;
      ok := true;
      ghost var body: bytes := [];
      assert ts[0..] == ts && head + body == head;
      PrefaceNothing(TokensText(uri, ts));
      while t < tokenCount
        invariant 0 <= t <= tokenCount == |ts| && TokenList() == ts
        invariant os.out == head + body && TokensText(uri, ts) == Preface(body, TokensText(uri, ts[t..]))
      {
        ok := WriteToken(uri, t, os);
        assert ts[t..][1..] == ts[t + 1..];
        TokensTextStep(uri, ts[t..], body);
        if !ok { return; }
        ghost var piece := [SLASH] + NameText(uri, ts[t].name).value;
        Regroup(head, body, piece);
        body := body + piece;
        t := t + 1;
      }
      assert ts[t..] == [] && body + [] == body;
    }
  }
}
