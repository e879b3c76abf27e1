/** The wire forms of RESP2 and RESP3, each by the character that announces it: what the
    grammar makes of a line of any content. */
module RespWire {
  import opened Bytes
  import opened Decimal
  import opened RespGrammar

  function OnLine(c: char, t: bytes, z: bytes): bytes
    requires c as int < 128
  {
    [c as int] + (t + (Ascii("\r\n") + z))
  }

  /** No line end inside. */
  predicate OneLine(t: bytes) {
    forall i :: 0 <= i < |t| - 1 ==> !(t[i] == '\r' as int && t[i + 1] == '\n' as int)
  }

  /** The text of a 64-bit integer. */
  predicate Denotes(t: bytes, v: int) { -0x8000_0000_0000_0000 <= v < 0x8000_0000_0000_0000 && t == DecInt(v) }

  ghost predicate NoInteger(t: bytes) { forall v :: !Denotes(t, v) }

  lemma OneDigit(d: nat)
    requires d < 10
    ensures "0123456789"[d] as int == ZERO + d
  {
  }

  lemma LastDigit(n: nat)
    ensures "0123456789"[n % 10] as int == ZERO + n % 10
  {
    OneDigit(n % 10);
  }

  /** Decimal digits by their characters. */
  lemma Digits(n: nat)
    ensures n < 10 ==> Dec(n) == ["0123456789"[n] as int]
    ensures n >= 10 ==> Dec(n) == Dec(n / 10) + ["0123456789"[n % 10] as int]
  {
    LastDigit(n);
  }

  lemma Negative(n: nat)
    requires n > 0
    ensures DecInt(n) == Dec(n) && DecInt(0 - n) == Ascii("-") + Dec(n)
  {
    hide Dec;
    assert Ascii("-") == [MINUS];
  }

  lemma LineIs(c: char, t: bytes, z: bytes)
    requires c as int < 128 && OneLine(t)
    ensures var x := OnLine(c, t, z)[1..];
      && Newline(x) == Some(|t|) && x[..|t|] == t && x[|t| + 2..] == z
      && OnLine(c, t, z)[0] == c as int && |x| > 0 && x[0] == if |t| > 0 then t[0] else '\r' as int
  {
    assert Ascii("\r\n") == CRLF;
    NewlineAfter(t, z);
    Regroup(t, CRLF, z);
    assert OnLine(c, t, z)[1..] == Line(t, z);
    hide Newline;
  }

  lemma IntegerIs(t: bytes, v: int)
    ensures Denotes(t, v) ==> ReadLL(t) == Some(v)
    ensures ReadLL(t) == Some(v) ==> Denotes(t, v)
  {
    ReadLLInvertsDec(t, v);
    hide ReadLL;
  }

  lemma NoIntegerIs(t: bytes)
    ensures NoInteger(t) <==> ReadLL(t) == None
  {
    forall v ensures Denotes(t, v) <==> ReadLL(t) == Some(v) { IntegerIs(t, v); }
    hide ReadLL;
    if ReadLL(t).Some? { assert Denotes(t, ReadLL(t).value); }
  }

  /** What the grammar makes of an item. */
  function Finished(dbl: bytes -> bool, it: Item): Parsed {
    match it
    case Incomplete => More
    case Refused(f) => Bad(f)
    case Leaf(r, rest) => Got(r, rest)
    case Opened(agg, n, rest) =>
      match ParseMany(dbl, n, rest, agg.Push?, 0)
      case MoreMany => More
      case BadMany(f) => Bad(f)
      case GotMany(rs, rest') => Got(Aggregate(agg, rs), rest')
  }

  lemma LineNotEmpty(c: char, t: bytes, z: bytes)
    requires c as int < 128
    ensures |OnLine(c, t, z)| > 0
  {
  }

  lemma ItemForm(dbl: bytes -> bool, c: char, ty: ItemType, t: bytes, z: bytes, inPush: bool)
    requires c as int < 128 && TypeOf(c as int) == Some(ty) && OneLine(t)
    ensures ParseReply(dbl, OnLine(c, t, z), inPush) ==
      Finished(dbl, ItemOf(dbl, ty, t, if |t| > 0 then t[0] else '\r' as int, z, inPush))
  {
    hide Newline, TypeOf, ItemOf, OneLine, OnLine, ParseMany;
    LineIs(c, t, z);
    LineNotEmpty(c, t, z);
  }

  /** Status (+) and error (-) texts. */
  lemma TextForms(dbl: bytes -> bool, t: bytes, z: bytes, inPush: bool)
    requires OneLine(t)
    ensures ParseReply(dbl, OnLine('+', t, z), inPush) == Got(Text(Status, t), z)
    ensures ParseReply(dbl, OnLine('-', t, z), inPush) == Got(Text(Error, t), z)
  {
    hide ParseReply, OnLine, OneLine;
    ItemForm(dbl, '+', LineText(Status), t, z, inPush);
    ItemForm(dbl, '-', LineText(Error), t, z, inPush);
  }

  /** Nil (_), booleans (#) and doubles (,), which no push may hold directly. */
  lemma ScalarForms(dbl: bytes -> bool, t: bytes, z: bytes, inPush: bool)
    requires OneLine(t)
    ensures ParseReply(dbl, OnLine('_', t, z), inPush) == if inPush then Bad(NilInPush) else Got(Nil, z)
    ensures ParseReply(dbl, OnLine('#', t, z), inPush) ==
      if inPush then Bad(NilInPush) else Got(Bool(|t| > 0 && (t[0] == 't' as int || t[0] == 'T' as int)), z)
    ensures ParseReply(dbl, OnLine(',', t, z), inPush) ==
      if |t| > 325 then Bad(DoubleTooLong)
      else if !dbl(t) then Bad(BadDouble)
      else if inPush then Bad(NilInPush)
      else Got(Double(t), z)
  {
    hide ParseReply, OnLine, OneLine;
    ItemForm(dbl, '_', LineNil, t, z, inPush);
    ItemForm(dbl, '#', LineBool, t, z, inPush);
    ItemForm(dbl, ',', LineDouble, t, z, inPush);
  }

  /** Integers (:). */
  lemma IntegerForms(dbl: bytes -> bool, t: bytes, v: int, z: bytes, inPush: bool)
    requires OneLine(t)
    ensures Denotes(t, v) ==> ParseReply(dbl, OnLine(':', t, z), inPush) == Got(Integer(v), z)
    ensures NoInteger(t) ==> ParseReply(dbl, OnLine(':', t, z), inPush) == Bad(BadInteger)
  {
    hide ParseReply, OnLine, OneLine, ReadLL, Denotes, NoInteger;
    ItemForm(dbl, ':', LineInteger, t, z, inPush);
    NoIntegerIs(t);
    IntegerIs(t, v);
  }

  /** Bulk strings ($) and verbatim strings (=): the length, and what follows its line. */
  lemma BulkForms(dbl: bytes -> bool, verb: bool, t: bytes, n: int, z: bytes, inPush: bool)
    requires OneLine(t)
    ensures var r := ParseReply(dbl, OnLine(if verb then '=' else '$', t, z), inPush);
      && (NoInteger(t) ==> r == Bad(BadBulkLength))
      && (Denotes(t, n) ==>
            r == if n < -1 then Bad(BulkLengthOutOfRange)
            else if n == -1 then (if inPush then Bad(NilInPush) else Got(Nil, z))
            else if |z| < n + 2 then More
            else if !verb then Got(Text(String, z[..n]), z[n + 2..])
            else if n < 4 || z[3] != ':' as int then Bad(BadVerbatim)
            else Got(Verb(z[..3], z[4..n]), z[n + 2..]))
  {
    hide ParseReply, OnLine, OneLine, ReadLL, Denotes, NoInteger;
    ItemForm(dbl, if verb then '=' else '$', Bulk(verb), t, z, inPush);
    NoIntegerIs(t);
    IntegerIs(t, n);
  }

  function KindOf(c: char): Option<AggKind> {
    if c == '*' then Some(Array) else if c == '%' then Some(Map) else if c == '~' then Some(Set)
    else if c == '>' then Some(Push) else None
  }

  /** Arrays (*), maps (%), sets (~) and pushes (>): the count, and the elements, of which a
      map has two for each. */
  lemma CountForms(dbl: bytes -> bool, c: char, t: bytes, n: int, z: bytes, inPush: bool)
    requires OneLine(t) && KindOf(c).Some?
    ensures var r := ParseReply(dbl, OnLine(c, t, z), inPush);
      && (NoInteger(t) ==> r == Bad(BadMultiBulkLength))
      && (Denotes(t, n) && (n < -1 || n > 4294967295) ==> r == Bad(MultiBulkLengthOutOfRange))
      && (Denotes(t, n) && n == -1 ==> r == if inPush then Bad(NilInPush) else Got(Nil, z))
      && (Denotes(t, n) && n == 0 ==> r == Got(Aggregate(KindOf(c).value, []), z))
      && (Denotes(t, n) && 0 < n <= 4294967295 ==>
            match ParseMany(dbl, if c == '%' then n + n else n, z, c == '>', 0)
            case MoreMany => r == More
            case BadMany(f) => r == Bad(f)
            case GotMany(rs, rest) => r == Got(Aggregate(KindOf(c).value, rs), rest))
  {
    hide ParseReply, ParseMany, OnLine, OneLine, ReadLL, Denotes, NoInteger;
    ItemForm(dbl, c, Counted(KindOf(c).value), t, z, inPush);
    NoIntegerIs(t);
    IntegerIs(t, n);
  }

  predicate Announces(b: byte) {
    || b == '+' as int || b == '-' as int || b == ':' as int || b == ',' as int || b == '_' as int || b == '#' as int
    || b == '$' as int || b == '=' as int || b == '*' as int || b == '%' as int || b == '~' as int || b == '>' as int
  }

  lemma AnnouncesIff(b: byte)
    ensures Announces(b) <==> TypeOf(b).Some?
  {
  }

  /** Every other byte is refused, and of no byte, or no line end behind one of these,
      nothing is made. */
  lemma OtherForms(dbl: bytes -> bool, x: bytes, inPush: bool)
    ensures |x| > 0 && !Announces(x[0]) ==> ParseReply(dbl, x, inPush) == Bad(UnknownTypeByte(x[0]))
    ensures |x| == 0 || (Announces(x[0]) && OneLine(x[1..])) ==> ParseReply(dbl, x, inPush) == More
  {
    hide ParseMany;
    if |x| > 0 {
      AnnouncesIff(x[0]);
      if OneLine(x[1..]) { assert Newline(x[1..]) == None; }
    }
    hide Newline, TypeOf, Announces;
  }
}
