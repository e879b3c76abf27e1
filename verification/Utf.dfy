/** The UTF-8 and UTF-16 codecs of rapidjson, on whole strings. Bit operations on
    disjoint fields are written with *, /, % and +. */
module Utf {
  import opened Bytes

  type unit = x: int | 0 <= x < 0x1_0000

  /** A Unicode scalar value: a code point that is not a surrogate. */
  predicate IsScalar(cp: int) { 0 <= cp < 0xD800 || 0xDFFF < cp <= 0x10FFFF }

  // ----- streams; past the end a stream yields NUL -----

  function Advance(x: bytes, pos: nat, n: nat): nat
    requires pos <= |x|
  {
    if pos + n <= |x| then pos + n else |x|
  }

  class InputStream {
    const src: bytes
    var pos: nat

    constructor (src: bytes)
      ensures this.src == src && pos == 0
    {
      this.src := src;
      pos := 0;
    }

    method Take() returns (c: byte)
      requires pos <= |src|
      modifies this
      ensures pos == Advance(src, old(pos), 1) && c == At(src, old(pos))
    {
      if pos == |src| { return NUL; }
      c := src[pos];
      pos := pos + 1;
    }
  }

  class OutputStream {
    var out: bytes

    constructor ()
      ensures out == []
    {
      out := [];
    }

    method Put(c: byte)
      modifies this
      ensures out == old(out) + [c]
    {
      out := out + [c];
    }
  }

  // ----- UTF-8 -----

  /** The character-class table; classes 1, 7 and 9 are the bits 0x10, 0x20, 0x40. */
  function GetRange(c: byte): bv8 {
    if c < 0x80 then 0
    else if c < 0x90 then 0x10
    else if c < 0xA0 then 0x40
    else if c < 0xC0 then 0x20
    else if c < 0xC2 then 8
    else if c < 0xE0 then 2
    else if c == 0xE0 then 10
    else if c == 0xED then 4
    else if c < 0xF0 then 3
    else if c == 0xF0 then 11
    else if c < 0xF4 then 6
    else if c == 0xF4 then 5
    else 8
  }

  predicate Hits(c: byte, mask: bv8) { GetRange(c) & mask != 0 }

  /** The masks the trail bytes of a class must hit; no class starts a one-byte form. */
  function TrailMasks(class_: bv8): seq<bv8> {
    if class_ == 2 then [0x70]
    else if class_ == 3 then [0x70, 0x70]
    else if class_ == 4 then [0x50, 0x70]
    else if class_ == 5 then [0x10, 0x70, 0x70]
    else if class_ == 6 then [0x70, 0x70, 0x70]
    else if class_ == 10 then [0x20, 0x70]
    else if class_ == 11 then [0x60, 0x70, 0x70]
    else []
  }

  /** The lead byte's payload: 0xFF shifted right by the class, and-ed with the byte. */
  function LeadBits(class_: bv8, c: byte): int {
    if class_ == 2 then c % 0x40
    else if class_ == 3 then c % 0x20
    else if class_ == 4 then c % 0x10
    else if class_ == 5 then c % 8
    else if class_ == 6 then c % 4
    else 0
  }

  datatype Decoded = Decoded(ok: bool, codepoint: int, used: nat)

  /** Decode at the front of x. */
  function DecodeOne(x: bytes): Decoded {
    var c := At(x, 0);
    if c < 0x80 then Decoded(true, c, Advance(x, 0, 1))
    else
      var class_ := GetRange(c);
      var masks := TrailMasks(class_);
      if |masks| == 0 then Decoded(false, LeadBits(class_, c), Advance(x, 0, 1))
      else
        var ok1 := Hits(At(x, 1), masks[0]);
        var cp1 := LeadBits(class_, c) * 64 + At(x, 1) % 64;
        if |masks| == 1 then Decoded(ok1, cp1, Advance(x, 0, 2))
        else
          var ok2 := ok1 && Hits(At(x, 2), masks[1]);
          var cp2 := cp1 * 64 + At(x, 2) % 64;
          if |masks| == 2 then Decoded(ok2, cp2, Advance(x, 0, 3))
          else Decoded(ok2 && Hits(At(x, 3), masks[2]), cp2 * 64 + At(x, 3) % 64, Advance(x, 0, 4))
  }

  /** UTF8::Decode; the trail bytes are all taken even after a mismatch. */
  method Decode(input: InputStream) returns (ok: bool, codepoint: int)
    requires input.pos <= |input.src|
    modifies input
    ensures var d := DecodeOne(input.src[old(input.pos)..]);
      ok == d.ok && codepoint == d.codepoint && input.pos == old(input.pos) + d.used
  {
    ghost var x, p := input.src[input.pos..], input.pos;
    assert At(x, 0) == At(input.src, p) && At(x, 1) == At(input.src, p + 1);
    assert At(x, 2) == At(input.src, p + 2) && At(x, 3) == At(input.src, p + 3);
    var c := input.Take();
    if c < 0x80 { return true, c; }
    var class_ := GetRange(c);
    codepoint := LeadBits(class_, c);
    var masks := TrailMasks(class_);
    if |masks| == 0 { return false, codepoint; }
    ok := true;
    c := input.Take();
    codepoint, ok := codepoint * 64 + c % 64, ok && Hits(c, masks[0]);
    if |masks| == 1 { return; }
    c := input.Take();
    codepoint, ok := codepoint * 64 + c % 64, ok && Hits(c, masks[1]);
    if |masks| == 2 { return; }
    c := input.Take();
    codepoint, ok := codepoint * 64 + c % 64, ok && Hits(c, masks[2]);
  }

  /** What Validate copies: as many bytes as it takes, NULs once the input is over. */
  function Copied(x: bytes, n: nat): bytes { seq(n, i requires 0 <= i => At(x, i)) }

  /** UTF8::Validate gives Decode's verdict, takes the same bytes, and puts out a copy
      of every byte it took. */
  method Validate(input: InputStream, output: OutputStream) returns (ok: bool, ghost taken: nat)
    requires input.pos <= |input.src|
    modifies input, output
    ensures var d := DecodeOne(input.src[old(input.pos)..]);
      && ok == d.ok && input.pos == old(input.pos) + d.used
      && (ok && old(input.pos) < |input.src| ==> taken == d.used)
    ensures 1 <= taken <= 4 && output.out == old(output.out) + Copied(input.src[old(input.pos)..], taken)
  {
    ghost var x, p := input.src[input.pos..], input.pos;
    assert At(x, 0) == At(input.src, p) && At(x, 1) == At(input.src, p + 1);
    assert At(x, 2) == At(input.src, p + 2) && At(x, 3) == At(input.src, p + 3);
    var c := input.Take();
    output.Put(c);
    taken := 1;
    assert output.out == old(output.out) + Copied(x, 1);
    if c < 0x80 { return true, 1; }
    var masks := TrailMasks(GetRange(c));
    if |masks| == 0 { return false, 1; }
    c := input.Take();
    output.Put(c);
    taken := 2;
    ok := Hits(c, masks[0]);
    assert output.out == old(output.out) + Copied(x, 2);
    if |masks| == 1 { return; }
    c := input.Take();
    output.Put(c);
    taken := 3;
    ok := ok && Hits(c, masks[1]);
    assert output.out == old(output.out) + Copied(x, 3);
    if |masks| == 2 { return; }
    c := input.Take();
    output.Put(c);
    taken := 4;
    ok := ok && Hits(c, masks[2]);
    assert output.out == old(output.out) + Copied(x, 4);
  }

  /** A code point as UTF-8 octets. */
  function Encode8(cp: int): (r: bytes)
    requires 0 <= cp <= 0x10FFFF
    ensures 1 <= |r| <= 4
  {
    if cp <= 0x7F then [cp]
    else if cp <= 0x7FF then [0xC0 + cp / 64, 0x80 + cp % 64]
    else if cp <= 0xFFFF then [0xE0 + cp / 4096, 0x80 + cp / 64 % 64, 0x80 + cp % 64]
    else [0xF0 + cp / 262144, 0x80 + cp / 4096 % 64, 0x80 + cp / 64 % 64, 0x80 + cp % 64]
  }

  /** UTF8::Encode */
  method Encode(output: OutputStream, cp: int)
    requires 0 <= cp <= 0x10FFFF
    modifies output
    ensures output.out == old(output.out) + Encode8(cp)
  {
    if cp <= 0x7F {
      output.Put(cp);
    } else if cp <= 0x7FF {
      output.Put(0xC0 + cp / 64);
      output.Put(0x80 + cp % 64);
    } else if cp <= 0xFFFF {
      output.Put(0xE0 + cp / 4096);
      output.Put(0x80 + cp / 64 % 64);
      output.Put(0x80 + cp % 64);
    } else {
      output.Put(0xF0 + cp / 262144);
      output.Put(0x80 + cp / 4096 % 64);
      output.Put(0x80 + cp / 64 % 64);
      output.Put(0x80 + cp % 64);
    }
  }

  // ----- the grammar of section 4 of RFC 3629 -----

  predicate Tail(c: byte) { 0x80 <= c <= 0xBF }

  predicate Utf8Char(s: bytes) {
    || (|s| == 1 && s[0] <= 0x7F)
    || (|s| == 2 && 0xC2 <= s[0] <= 0xDF && Tail(s[1]))
    || (|s| == 3 && Tail(s[2]) && (
          || (s[0] == 0xE0 && 0xA0 <= s[1] <= 0xBF)
          || (0xE1 <= s[0] <= 0xEC && Tail(s[1]))
          || (s[0] == 0xED && 0x80 <= s[1] <= 0x9F)
          || (0xEE <= s[0] <= 0xEF && Tail(s[1]))))
    || (|s| == 4 && Tail(s[2]) && Tail(s[3]) && (
          || (s[0] == 0xF0 && 0x90 <= s[1] <= 0xBF)
          || (0xF1 <= s[0] <= 0xF3 && Tail(s[1]))
          || (s[0] == 0xF4 && 0x80 <= s[1] <= 0x8F)))
  }

  /** UTF8-octets: a concatenation of UTF8-chars. */
  ghost predicate Utf8Octets(x: bytes)
    decreases |x|
  {
    x == [] || exists n :: 1 <= n <= 4 && n <= |x| && Utf8Char(x[..n]) && Utf8Octets(x[n..])
  }

  /** Which bytes each trail mask accepts. */
  lemma MaskMeaning(c: byte)
    ensures Hits(c, 0x70) <==> Tail(c)
    ensures Hits(c, 0x50) <==> 0x80 <= c <= 0x9F
    ensures Hits(c, 0x10) <==> 0x80 <= c <= 0x8F
    ensures Hits(c, 0x20) <==> 0xA0 <= c <= 0xBF
    ensures Hits(c, 0x60) <==> 0x90 <= c <= 0xBF
  {
    if c < 0x80 { assert GetRange(c) == 0; }
    else if c < 0x90 { assert GetRange(c) == 0x10; }
    else if c < 0xA0 { assert GetRange(c) == 0x40; }
    else if c < 0xC0 { assert GetRange(c) == 0x20; }
    else {
      var r := GetRange(c);
      assert r == 2 || r == 3 || r == 4 || r == 5 || r == 6 || r == 8 || r == 10 || r == 11;
      assert r & 0x70 == 0;
    }
  }

  predicate MaskAccepts(m: bv8, c: byte) {
    if m == 0x70 then Tail(c)
    else if m == 0x50 then 0x80 <= c <= 0x9F
    else if m == 0x10 then 0x80 <= c <= 0x8F
    else if m == 0x20 then 0xA0 <= c <= 0xBF
    else 0x90 <= c <= 0xBF
  }

  lemma AllMasks(x: bytes)
    ensures forall i: nat, m: bv8 :: i < 4 && (m == 0x70 || m == 0x50 || m == 0x10 || m == 0x20 || m == 0x60) ==>
      (Hits(At(x, i), m) <==> MaskAccepts(m, At(x, i)))
  {
    MaskMeaning(At(x, 0)); MaskMeaning(At(x, 1)); MaskMeaning(At(x, 2)); MaskMeaning(At(x, 3));
  }

  /** Decode accepts exactly the inputs that start with a UTF8-char, and takes it. */
  lemma DecodeIsGrammar(x: bytes)
    requires |x| > 0
    ensures var d := DecodeOne(x);
      && (d.ok ==> 1 <= d.used <= 4 && d.used <= |x| && Utf8Char(x[..d.used]))
      && forall n :: 1 <= n <= 4 && n <= |x| && Utf8Char(x[..n]) ==> d.ok && d.used == n
  {
    AllMasks(x);
    hide Hits;
  }

  /** Payloads joined six bits at a time. */
  function Join2(a: int, b: int): int { a * 64 + b }
  function Join3(a: int, b: int, c: int): int { Join2(Join2(a, b), c) }
  function Join4(a: int, b: int, c: int, d: int): int { Join2(Join3(a, b, c), d) }

  lemma SixBits(a: int, b: int)
    requires 0 <= b < 64
    ensures Join2(a, b) / 64 == a && Join2(a, b) % 64 == b
  {
  }

  lemma ShapeOfThree(x: bytes)
    requires |x| > 0 && DecodeOne(x).ok && 0xE0 <= x[0] <= 0xEF
    ensures var d := DecodeOne(x);
      && d.used == 3 <= |x| && Tail(x[1]) && Tail(x[2])
      && d.codepoint == Join3(x[0] - 0xE0, x[1] - 0x80, x[2] - 0x80)
      && 0x800 <= d.codepoint <= 0xFFFF && IsScalar(d.codepoint)
  {
    AllMasks(x);
    hide Hits;
  }

  lemma ShapeOfFour(x: bytes)
    requires |x| > 0 && DecodeOne(x).ok && 0xF0 <= x[0]
    ensures var d := DecodeOne(x);
      && d.used == 4 <= |x| && x[0] <= 0xF4 && Tail(x[1]) && Tail(x[2]) && Tail(x[3])
      && d.codepoint == Join4(x[0] - 0xF0, x[1] - 0x80, x[2] - 0x80, x[3] - 0x80)
      && 0x1_0000 <= d.codepoint <= 0x10FFFF
  {
    AllMasks(x);
    hide Hits;
  }

  lemma ShapeOfShort(x: bytes)
    requires |x| > 0 && DecodeOne(x).ok && x[0] < 0xE0
    ensures var d := DecodeOne(x);
      && (x[0] <= 0x7F ==> d.used == 1 && d.codepoint == x[0])
      && (x[0] > 0x7F ==>
            (d.used == 2 <= |x| && 0xC2 <= x[0] && Tail(x[1])
             && d.codepoint == Join2(x[0] - 0xC0, x[1] - 0x80) && 0x80 <= d.codepoint <= 0x7FF))
  {
    AllMasks(x);
    hide Hits;
  }

  lemma DivTwice(cp: int)
    requires cp >= 0
    ensures cp / 4096 == cp / 64 / 64 && cp / 262144 == cp / 64 / 64 / 64
  {
  }

  /** Decode followed by Encode gives back the bytes that were taken. */
  lemma DecodeThenEncode(x: bytes)
    requires |x| > 0 && DecodeOne(x).ok
    ensures var d := DecodeOne(x);
      1 <= d.used <= |x| && IsScalar(d.codepoint) && Encode8(d.codepoint) == x[..d.used]
  {
    hide DecodeOne, Join2;
    var d := DecodeOne(x);
    if x[0] < 0xE0 {
      ShapeOfShort(x);
      if x[0] > 0x7F { SixBits(x[0] - 0xC0, x[1] - 0x80); }
    } else if x[0] < 0xF0 {
      ShapeOfThree(x);
      SixBits(x[0] - 0xE0, x[1] - 0x80);
      SixBits(Join2(x[0] - 0xE0, x[1] - 0x80), x[2] - 0x80);
      DivTwice(d.codepoint);
    } else {
      ShapeOfFour(x);
      SixBits(x[0] - 0xF0, x[1] - 0x80);
      SixBits(Join2(x[0] - 0xF0, x[1] - 0x80), x[2] - 0x80);
      SixBits(Join3(x[0] - 0xF0, x[1] - 0x80, x[2] - 0x80), x[3] - 0x80);
      DivTwice(d.codepoint);
    }
  }

  /** Joining the six-bit fields of a code point gives the code point. */
  lemma JoinFields(cp: int)
    requires cp >= 0
    ensures Join2(cp / 64, cp % 64) == cp
    ensures Join3(cp / 4096, cp / 64 % 64, cp % 64) == cp
    ensures Join4(cp / 262144, cp / 4096 % 64, cp / 64 % 64, cp % 64) == cp
  {
    DivTwice(cp);
  }

  lemma DecodeTwo(b0: byte, b1: byte, rest: bytes)
    requires 0xC2 <= b0 <= 0xDF && Tail(b1)
    ensures DecodeOne([b0, b1] + rest) == Decoded(true, Join2(b0 - 0xC0, b1 - 0x80), 2)
  {
    MaskMeaning(b1);
    hide Hits;
  }

  lemma DecodeThree(b0: byte, b1: byte, b2: byte, rest: bytes)
    requires 0xE0 <= b0 <= 0xEF && Tail(b1) && Tail(b2) && (b0 == 0xE0 ==> b1 >= 0xA0)
    ensures b0 != 0xED || b1 <= 0x9F ==>
      DecodeOne([b0, b1, b2] + rest) == Decoded(true, Join3(b0 - 0xE0, b1 - 0x80, b2 - 0x80), 3)
    ensures b0 == 0xED && b1 > 0x9F ==> !DecodeOne([b0, b1, b2] + rest).ok
  {
    MaskMeaning(b1); MaskMeaning(b2);
    hide Hits;
  }

  lemma DecodeFour(b0: byte, b1: byte, b2: byte, b3: byte, rest: bytes)
    requires 0xF0 <= b0 <= 0xF4 && Tail(b1) && Tail(b2) && Tail(b3)
    requires (b0 == 0xF0 ==> b1 >= 0x90) && (b0 == 0xF4 ==> b1 <= 0x8F)
    ensures DecodeOne([b0, b1, b2, b3] + rest) == Decoded(true, Join4(b0 - 0xF0, b1 - 0x80, b2 - 0x80, b3 - 0x80), 4)
  {
    MaskMeaning(b1); MaskMeaning(b2); MaskMeaning(b3);
    hide Hits;
  }

  lemma EncodeDecodeThree(cp: int, rest: bytes)
    requires 0x800 <= cp <= 0xFFFF
    ensures DecodeOne(Encode8(cp) + rest).ok <==> IsScalar(cp)
    ensures IsScalar(cp) ==> DecodeOne(Encode8(cp) + rest) == Decoded(true, cp, 3)
  {
    JoinFields(cp);
    hide DecodeOne, Join2;
    DecodeThree(0xE0 + cp / 4096, 0x80 + cp / 64 % 64, 0x80 + cp % 64, rest);
  }

  lemma EncodeDecodeFour(cp: int, rest: bytes)
    requires 0x1_0000 <= cp <= 0x10FFFF
    ensures DecodeOne(Encode8(cp) + rest) == Decoded(true, cp, 4)
  {
    JoinFields(cp);
    hide DecodeOne, Join2;
    DecodeFour(0xF0 + cp / 262144, 0x80 + cp / 4096 % 64, 0x80 + cp / 64 % 64, 0x80 + cp % 64, rest);
  }

  /** Encode followed by Decode is the identity exactly on scalar values; the three
      octets Encode writes for a surrogate are refused. */
  lemma EncodeThenDecode(cp: int, rest: bytes)
    requires 0 <= cp <= 0x10FFFF
    ensures DecodeOne(Encode8(cp) + rest).ok <==> IsScalar(cp)
    ensures IsScalar(cp) ==> DecodeOne(Encode8(cp) + rest) == Decoded(true, cp, |Encode8(cp)|)
  {
    if cp > 0xFFFF {
      EncodeDecodeFour(cp, rest);
    } else if cp > 0x7FF {
      EncodeDecodeThree(cp, rest);
    } else if cp > 0x7F {
      JoinFields(cp);
      hide DecodeOne, Join2;
      DecodeTwo(0xC0 + cp / 64, 0x80 + cp % 64, rest);
    }
  }

  // ----- whole strings -----

  /** Decode, again and again, until the input is used up. */
  function DecodeAll(x: bytes): Option<seq<int>>
    decreases |x|
  {
    if |x| == 0 then Some([])
    else
      var d := DecodeOne(x);
      if !d.ok then None
      else
        DecodeThenEncode(x);
        match DecodeAll(x[d.used..])
        case None => None
        case Some(cps) => Some([d.codepoint] + cps)
  }

  predicate AllScalars(cps: seq<int>) { forall i :: 0 <= i < |cps| ==> IsScalar(cps[i]) }

  predicate CodePoints(cps: seq<int>) { forall i :: 0 <= i < |cps| ==> 0 <= cps[i] <= 0x10FFFF }

  function EncodeAll(cps: seq<int>): bytes
    requires CodePoints(cps)
  {
    if |cps| == 0 then [] else Encode8(cps[0]) + EncodeAll(cps[1..])
  }

  /** Repeated Decode accepts a byte string exactly when the grammar generates it. */
  lemma {:induction false} DecodeAllIsGrammar(x: bytes)
    ensures DecodeAll(x).Some? <==> Utf8Octets(x)
    decreases |x|
  {
    if |x| > 0 {
      DecodeIsGrammar(x);
      var d := DecodeOne(x);
      hide DecodeOne, Utf8Char;
      if d.ok { DecodeAllIsGrammar(x[d.used..]); }
    }
  }

  lemma DecodeAllUnfolds(x: bytes)
    requires |x| > 0 && DecodeAll(x).Some?
    ensures var d := DecodeOne(x);
      d.ok && d.used <= |x| && DecodeAll(x[d.used..]).Some?
        && DecodeAll(x) == Some([d.codepoint] + DecodeAll(x[d.used..]).value)
  {
    hide DecodeOne;
    DecodeThenEncode(x);
  }

  lemma ScalarsCons(cp: int, cps: seq<int>)
    requires CodePoints(cps) && 0 <= cp <= 0x10FFFF
    ensures CodePoints([cp] + cps) && (AllScalars([cp] + cps) <==> IsScalar(cp) && AllScalars(cps))
    ensures EncodeAll([cp] + cps) == Encode8(cp) + EncodeAll(cps)
  {
    hide IsScalar, Encode8;
    assert ([cp] + cps)[1..] == cps;
    assert ([cp] + cps)[0] == cp;
    forall i | 0 <= i < |cps| ensures cps[i] == ([cp] + cps)[i + 1] {}
  }

  lemma PointIsScalar(cp: int)
    ensures IsScalar(cp) ==> 0 <= cp <= 0x10FFFF
  {
  }

  lemma NothingDecoded()
    ensures DecodeAll([]) == Some([]) && AllScalars([]) && CodePoints([]) && EncodeAll([]) == []
  {
  }

  /** The decoded code points are scalar values and encode to the same bytes. */
  lemma {:induction false} DecodeAllThenEncode(x: bytes)
    requires DecodeAll(x).Some?
    ensures var cps := DecodeAll(x).value; AllScalars(cps) && CodePoints(cps) && EncodeAll(cps) == x
    decreases |x|
  {
    hide DecodeOne, Encode8, IsScalar, AllScalars, CodePoints, EncodeAll, DecodeAll;
    if |x| == 0 {
      NothingDecoded();
    } else {
      DecodeAllUnfolds(x);
      DecodeThenEncode(x);
      PointIsScalar(DecodeOne(x).codepoint);
      var d := DecodeOne(x);
      DecodeAllThenEncode(x[d.used..]);
      var cps := DecodeAll(x[d.used..]).value;
      ScalarsCons(d.codepoint, cps);
      assert x == x[..d.used] + x[d.used..];
    }
  }

  /** Encoding a list of code points and decoding it is the identity exactly when all
      of them are scalar values. */
  lemma {:induction false} EncodeAllThenDecode(cps: seq<int>)
    requires CodePoints(cps)
    ensures DecodeAll(EncodeAll(cps)) == Some(cps) <==> AllScalars(cps)
  {
    if |cps| > 0 {
      var rest := EncodeAll(cps[1..]);
      EncodeThenDecode(cps[0], rest);
      EncodeAllThenDecode(cps[1..]);
      hide DecodeOne, Encode8;
      var x := Encode8(cps[0]) + rest;
      if IsScalar(cps[0]) {
        assert x[|Encode8(cps[0])|..] == rest;
        assert DecodeAll(rest) == Some(cps[1..]) ==> DecodeAll(x) == Some([cps[0]] + cps[1..]);
        assert [cps[0]] + cps[1..] == cps;
        if DecodeAll(x) == Some(cps) {
          assert DecodeAll(rest).Some? && [cps[0]] + DecodeAll(rest).value == cps;
          assert DecodeAll(rest).value == cps[1..];
        }
        assert AllScalars(cps) <==> AllScalars(cps[1..]) by {
          assert forall i :: 1 <= i < |cps| ==> cps[i] == cps[1..][i - 1];
        }
      }
    }
  }

  // ----- UTF-16, section 2 of RFC 2781 -----

  /** The code units of a scalar value. */
  function Encode16(cp: int): (r: seq<unit>)
    requires IsScalar(cp)
    ensures 1 <= |r| <= 2
  {
    if cp <= 0xFFFF then [cp]
    else
      var v := cp - 0x10000;
      [0xD800 + v / 1024, 0xDC00 + v % 1024]
  }

  function UnitAt(x: seq<unit>, i: nat): unit { if i < |x| then x[i] else 0 }

  /** UTF16::Decode at the front of x. */
  function DecodeUnits(x: seq<unit>): Decoded {
    var c := UnitAt(x, 0);
    if c < 0xD800 || c > 0xDFFF then Decoded(true, c, 1)
    else if c <= 0xDBFF then
      var c2 := UnitAt(x, 1);
      Decoded(0xDC00 <= c2 <= 0xDFFF, c % 1024 * 1024 + c2 % 1024 + 0x10000, 2)
    else Decoded(false, 0, 1)
  }

  lemma Utf16RoundTrip(cp: int, rest: seq<unit>)
    requires IsScalar(cp)
    ensures DecodeUnits(Encode16(cp) + rest) == Decoded(true, cp, |Encode16(cp)|)
  {
  }

  /** Transcoder<UTF8, UTF16>, over a whole string */
  function ToUtf16(x: bytes): Option<seq<unit>>
    decreases |x|
  {
    if |x| == 0 then Some([])
    else
      var d := DecodeOne(x);
      if !d.ok then None
      else
        DecodeThenEncode(x);
        match ToUtf16(x[d.used..])
        case None => None
        case Some(us) => Some(Encode16(d.codepoint) + us)
  }

  /** Transcoder<UTF16, UTF8>, over a whole string */
  function ToUtf8(x: seq<unit>): Option<bytes>
    decreases |x|
  {
    if |x| == 0 then Some([])
    else
      var d := DecodeUnits(x);
      if !d.ok then None
      else if d.used > |x| then None
      else
        match ToUtf8(x[d.used..])
        case None => None
        case Some(bs) => Some(Encode8(d.codepoint) + bs)
  }

  /** UTF-8 to UTF-16 succeeds on exactly the strings of the grammar, and going back
      gives the same bytes. */
  lemma {:induction false} ThroughUtf16(x: bytes)
    ensures ToUtf16(x).Some? <==> Utf8Octets(x)
    ensures ToUtf16(x).Some? ==> ToUtf8(ToUtf16(x).value) == Some(x)
    decreases |x|
  {
    hide DecodeOne, Utf8Char, Encode8, Encode16, DecodeUnits;
    if |x| > 0 {
      DecodeIsGrammar(x);
      var d := DecodeOne(x);
      if d.ok {
        DecodeThenEncode(x);
        ThroughUtf16(x[d.used..]);
        if ToUtf16(x[d.used..]).Some? {
          var us := ToUtf16(x[d.used..]).value;
          Utf16RoundTrip(d.codepoint, us);
          assert (Encode16(d.codepoint) + us)[|Encode16(d.codepoint)|..] == us;
          assert x[..d.used] + x[d.used..] == x;
        }
      }
    }
  }

  predicate High(u: unit) { 0xD800 <= u <= 0xDBFF }

  predicate Low(u: unit) { 0xDC00 <= u <= 0xDFFF }

  /** Every high surrogate stands right before a low one, and every low one right behind a
      high one. */
  predicate WellPaired(x: seq<unit>) {
    && (forall i :: 0 <= i < |x| && High(x[i]) ==> i + 1 < |x| && Low(x[i + 1]))
    && (forall i :: 0 <= i < |x| && Low(x[i]) ==> i > 0 && High(x[i - 1]))
  }

  /** The first code units decide whether the rest has to be paired in itself. */
  lemma PairedFront(x: seq<unit>)
    requires |x| > 0
    ensures var d := DecodeUnits(x);
      WellPaired(x) <==> d.ok && d.used <= |x| && WellPaired(x[d.used..])
  {
    var d := DecodeUnits(x);
    if d.ok && d.used <= |x| {
      var rest := x[d.used..];
      assert forall i :: 0 <= i < |rest| ==> rest[i] == x[i + d.used];
      assert forall i :: d.used <= i < |x| ==> x[i] == rest[i - d.used];
    }
  }

  /** A decoded unit or pair is a scalar value and is encoded as it was. */
  lemma UnitsThenEncode(x: seq<unit>)
    requires |x| > 0 && DecodeUnits(x).ok
    ensures var d := DecodeUnits(x);
      d.used <= |x| && IsScalar(d.codepoint) && Encode16(d.codepoint) == x[..d.used]
  {
  }

  lemma NothingPaired(x: seq<unit>)
    requires x == []
    ensures WellPaired(x)
  {
  }

  /** UTF-16 to UTF-8 succeeds on exactly the strings whose surrogates are well paired, and
      going back gives the same code units. */
  lemma {:induction false} ThroughUtf8(x: seq<unit>)
    ensures ToUtf8(x).Some? <==> WellPaired(x)
    ensures ToUtf8(x).Some? ==> ToUtf16(ToUtf8(x).value) == Some(x)
    decreases |x|
  {
    hide DecodeOne, Encode8, Encode16, DecodeUnits, WellPaired;
    if |x| == 0 {
      NothingPaired(x);
    } else {
      PairedFront(x);
      var d := DecodeUnits(x);
      if d.ok {
        UnitsThenEncode(x);
        ThroughUtf8(x[d.used..]);
        if ToUtf8(x[d.used..]).Some? {
          var bs := ToUtf8(x[d.used..]).value;
          EncodeThenDecode(d.codepoint, bs);
          assert (Encode8(d.codepoint) + bs)[|Encode8(d.codepoint)|..] == bs;
          assert x[..d.used] + x[d.used..] == x;
        }
      }
    }
  }

  // ----- the order of characters -----

  /** The first place in which two strings differ decides. */
  ghost predicate Before(x: seq<int>, y: seq<int>) {
    exists i :: 0 <= i < |x| && i < |y| && x[..i] == y[..i] && x[i] < y[i]
  }

  lemma BeforeAt(x: seq<int>, y: seq<int>, i: nat)
    requires i < |x| && i < |y| && (forall j :: 0 <= j < i ==> x[j] == y[j]) && x[i] < y[i]
    ensures Before(x, y)
  {
    assert x[..i] == y[..i];
  }

  lemma FirstOctet(cp: int)
    requires IsScalar(cp)
    ensures var x := Encode8(cp);
      && (cp < 0x80 ==> |x| == 1 && x[0] == cp)
      && (0x80 <= cp < 0x800 ==> |x| == 2 && 0xC0 <= x[0] < 0xE0 && x[0] - 0xC0 == cp / 64 && x[1] - 0x80 == cp % 64)
      && (0x800 <= cp < 0x1_0000 ==>
            |x| == 3 && 0xE0 <= x[0] < 0xF0
              && x[0] - 0xE0 == cp / 64 / 64 && x[1] - 0x80 == cp / 64 % 64 && x[2] - 0x80 == cp % 64)
      && (0x1_0000 <= cp ==>
            |x| == 4 && 0xF0 <= x[0] < 0xF8 && x[0] - 0xF0 == cp / 64 / 64 / 64
              && x[1] - 0x80 == cp / 64 / 64 % 64 && x[2] - 0x80 == cp / 64 % 64 && x[3] - 0x80 == cp % 64)
  {
  }

  lemma Digits64(a: int, b: int)
    requires 0 <= a < b
    ensures a / 64 < b / 64 || (a / 64 == b / 64 && a % 64 < b % 64)
  {
  }

  /** UTF-8 keeps the order of the characters' numbers (section 1 of RFC 3629). */
  lemma EncodeKeepsOrder(a: int, b: int)
    requires IsScalar(a) && IsScalar(b) && a < b
    ensures Before(Encode8(a), Encode8(b))
  {
    FirstOctet(a);
    FirstOctet(b);
    hide Encode8, IsScalar;
    var x, y := Encode8(a), Encode8(b);
    Digits64(a, b);
    if x[0] < y[0] {
      BeforeAt(x, y, 0);
    } else {
      assert |x| == |y| && x[0] == y[0];
      if a / 64 < b / 64 { Digits64(a / 64, b / 64); }
      if a / 64 / 64 < b / 64 / 64 { Digits64(a / 64 / 64, b / 64 / 64); }
      if x[1] < y[1] { BeforeAt(x, y, 1); }
      else if x[2] < y[2] { BeforeAt(x, y, 2); }
      else { BeforeAt(x, y, 3); }
    }
  }

  /** The characters of section 7 of RFC 3629 and of section 3 of RFC 2781. */
  lemma Examples()
    ensures Encode8(0x41) == [0x41] && Encode8(0x391) == [0xCE, 0x91] && Encode8(0x2262) == [0xE2, 0x89, 0xA2]
    ensures Encode8(0x233B4) == [0xF0, 0xA3, 0x8E, 0xB4]
    ensures Encode16(0x2262) == [0x2262] && Encode16(0x12345) == [0xD808, 0xDF45]
  {
  }

  /** Pairs of code units keep the order of the characters they stand for. */
  lemma PairsKeepOrder(a: int, b: int)
    requires 0x1_0000 <= a < b <= 0x10FFFF
    ensures |Encode16(a)| == |Encode16(b)| == 2 && Before(Encode16(a), Encode16(b))
  {
    var x, y := Encode16(a), Encode16(b);
    if x[0] < y[0] { BeforeAt(x, y, 0); } else { BeforeAt(x, y, 1); }
  }
}
