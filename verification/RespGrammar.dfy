/** The Redis serialization protocol (RESP2 and RESP3) as a recursive grammar:
    replies, their printed form, a recursive-descent reader, and the round trip. */
module RespGrammar {
  import opened Bytes
  import opened Decimal

  datatype TextKind = Error | Status | String
  datatype AggKind = Array | Map | Set | Push

  datatype Reply =
    | Text(kind: TextKind, text: bytes)
    | Verb(vtype: bytes, text: bytes)
    | Integer(value: int)
    | Double(text: bytes)
    | Nil
    | Bool(b: bool)
    | Aggregate(agg: AggKind, elements: seq<Reply>)

  /** What a type byte announces. */
  datatype ItemType =
    | LineText(kind: TextKind) | LineInteger | LineDouble | LineNil | LineBool
    | Bulk(verb: bool)
    | Counted(agg: AggKind)

  /** Why reading stops for good. NilInPush stands for the assertions in the object
      constructors that refuse a nil, boolean or double directly inside a push, and
      IndexOverflow for counting an aggregate's elements beyond the range of C's int. */
  datatype Fault =
    | UnknownTypeByte(b: byte)
    | BadInteger
    | DoubleTooLong
    | BadDouble
    | BadBulkLength
    | BulkLengthOutOfRange
    | BadVerbatim
    | BadMultiBulkLength
    | MultiBulkLengthOutOfRange
    | NilInPush
    | IndexOverflow

  /** The default element limit of a reader. */
  const MAX_ELEMENTS: int := 0xFFFF_FFFF
  /** Size of the buffer a double is copied to before conversion. */
  const DOUBLE_BUFFER: nat := 326

  function TypeOf(b: byte): Option<ItemType> {
    if b == 45 then Some(LineText(Error))            // -
    else if b == 43 then Some(LineText(Status))      // +
    else if b == 58 then Some(LineInteger)           // :
    else if b == 44 then Some(LineDouble)            // ,
    else if b == 95 then Some(LineNil)               // _
    else if b == 36 then Some(Bulk(false))           // $
    else if b == 42 then Some(Counted(Array))        // *
    else if b == 37 then Some(Counted(Map))          // %
    else if b == 126 then Some(Counted(Set))         // ~
    else if b == 35 then Some(LineBool)              // #
    else if b == 61 then Some(Bulk(true))            // =
    else if b == 62 then Some(Counted(Push))         // >
    else None
  }

  predicate NewlineAt(x: bytes, i: int) { 0 <= i < |x| - 1 && x[i] == CR && x[i + 1] == LF }

  /** Index of the first CR LF pair. */
  function Newline(x: bytes): (r: Option<nat>)
    ensures r.Some? ==> NewlineAt(x, r.value) && forall j :: 0 <= j < r.value ==> !NewlineAt(x, j)
    ensures r.None? ==> forall j :: 0 <= j < |x| ==> !NewlineAt(x, j)
  {
    if |x| < 2 then None
    else if NewlineAt(x, 0) then Some(0)
    else
      var r := Newline(x[1..]);
      assert forall j :: 1 <= j < |x| ==> (NewlineAt(x, j) <==> NewlineAt(x[1..], j - 1));
      if r.Some? then Some(r.value + 1) else None
  }

  /** One item after its type byte. */
  datatype Item =
    | Incomplete
    | Refused(fault: Fault)
    | Leaf(reply: Reply, rest: bytes)
    | Opened(agg: AggKind, count: nat, rest: bytes)

  /** A nil, boolean or double is refused inside a push. */
  function Scalar(r: Reply, inPush: bool, rest: bytes): Item {
    if inPush then Refused(NilInPush) else Leaf(r, rest)
  }

  function LineItem(dbl: bytes -> bool, ty: ItemType, line: bytes, first: byte, rest: bytes, inPush: bool): Item
    requires !ty.Bulk? && !ty.Counted?
  {
    match ty
    case LineText(kind) => Leaf(Text(kind, line), rest)
    case LineInteger => (match ReadLL(line) case None => Refused(BadInteger) case Some(v) => Leaf(Integer(v), rest))
    case LineDouble =>
      if |line| >= DOUBLE_BUFFER then Refused(DoubleTooLong)
      else if !dbl(line) then Refused(BadDouble)
      else Scalar(Double(line), inPush, rest)
    case LineNil => Scalar(Nil, inPush, rest)
    case LineBool => Scalar(Bool(first == 116 || first == 84), inPush, rest)
  }

  function BulkItem(verb: bool, header: bytes, after: bytes, inPush: bool): Item {
    match ReadLL(header)
    case None => Refused(BadBulkLength)
    case Some(len) =>
      if len < -1 then Refused(BulkLengthOutOfRange)
      else if len == -1 then Scalar(Nil, inPush, after)
      else if |after| < len + 2 then Incomplete
      else if verb && (len < 4 || after[3] != COLON) then Refused(BadVerbatim)
      else if verb then Leaf(Verb(after[..3], after[4..len]), after[len + 2..])
      else Leaf(Text(String, after[..len]), after[len + 2..])
  }

  function CountedItem(agg: AggKind, header: bytes, after: bytes, inPush: bool): Item {
    match ReadLL(header)
    case None => Refused(BadMultiBulkLength)
    case Some(n) =>
      if n < -1 || n > MAX_ELEMENTS then Refused(MultiBulkLengthOutOfRange)
      else if n == -1 then Scalar(Nil, inPush, after)
      else if n == 0 then Leaf(Aggregate(agg, []), after)
      else Opened(agg, if agg.Map? then 2 * n else n, after)
  }

  /** The item announced by ty, given its first line and what follows the line. */
  function ItemOf(dbl: bytes -> bool, ty: ItemType, line: bytes, first: byte, rest: bytes, inPush: bool): Item {
    match ty
    case Bulk(verb) => BulkItem(verb, line, rest, inPush)
    case Counted(agg) => CountedItem(agg, line, rest, inPush)
    case _ => LineItem(dbl, ty, line, first, rest, inPush)
  }

  function ReadItem(dbl: bytes -> bool, ty: ItemType, x: bytes, inPush: bool): Item {
    match Newline(x)
    case None => Incomplete
    case Some(i) => ItemOf(dbl, ty, x[..i], x[0], x[i + 2..], inPush)
  }

  lemma ItemConsumes(dbl: bytes -> bool, ty: ItemType, x: bytes, inPush: bool)
    ensures var it := ReadItem(dbl, ty, x, inPush);
      && (it.Leaf? || it.Opened? ==> |it.rest| < |x|)
      && (it.Opened? ==> it.count > 0)
  {
  }

  datatype Parsed = More | Bad(fault: Fault) | Got(reply: Reply, rest: bytes)
  datatype ParsedMany = MoreMany | BadMany(fault: Fault) | GotMany(replies: seq<Reply>, rest: bytes)

  /** The recursive grammar, read from the front of x. */
  function ParseReply(dbl: bytes -> bool, x: bytes, inPush: bool): (p: Parsed)
    ensures p.Got? ==> |p.rest| < |x|
    decreases |x|, 0
  {
    if |x| == 0 then More
    else match TypeOf(x[0])
      case None => Bad(UnknownTypeByte(x[0]))
      case Some(ty) =>
        ItemConsumes(dbl, ty, x[1..], inPush);
        match ReadItem(dbl, ty, x[1..], inPush)
        case Incomplete => More
        case Refused(f) => Bad(f)
        case Leaf(r, rest) => Got(r, rest)
        case Opened(agg, n, rest) =>
          match ParseMany(dbl, n, rest, agg.Push?, 0)
          case MoreMany => More
          case BadMany(f) => Bad(f)
          case GotMany(rs, rest') => Got(Aggregate(agg, rs), rest')
  }

  /** The n elements of an aggregate from number i on. */
  function ParseMany(dbl: bytes -> bool, n: nat, x: bytes, inPush: bool, i: nat): (p: ParsedMany)
    ensures p.GotMany? ==> |p.rest| <= |x| && |p.replies| == n
    decreases |x|, 1
  {
    if n == 0 then GotMany([], x)
    else match ParseReply(dbl, x, inPush)
      case More => MoreMany
      case Bad(f) => BadMany(f)
      case Got(r, rest) =>
        if n > 1 && i >= INT_MAX then BadMany(IndexOverflow) else
        match ParseMany(dbl, n - 1, rest, inPush, i + 1)
        case MoreMany => MoreMany
        case BadMany(f) => BadMany(f)
        case GotMany(rs, rest') => GotMany([r] + rs, rest')
  }

  // ----- printing -----

  function TextByte(kind: TextKind): byte {
    match kind case Error => 45 case Status => 43 case String => DOLLAR
  }

  function AggByte(agg: AggKind): byte {
    match agg case Array => STAR case Map => PERCENT case Set => TILDE case Push => 62
  }

  /** A line of text followed by z. */
  function Line(t: bytes, z: bytes): bytes { t + CRLF + z }

  /** The printed form of a reply, followed by z. */
  function EncodeOnto(r: Reply, z: bytes): bytes
    decreases r, 0
  {
    match r
    case Text(String, t) => [DOLLAR] + Line(Dec(|t|), Line(t, z))
    case Text(kind, t) => [TextByte(kind)] + Line(t, z)
    case Verb(v, t) => [61] + Line(Dec(|v + [COLON] + t|), Line(v + [COLON] + t, z))
    case Integer(v) => [COLON] + Line(DecInt(v), z)
    case Double(t) => [COMMA] + Line(t, z)
    case Nil => [95] + Line([], z)
    case Bool(b) => [HASH] + Line([if b then 116 else 102], z)
    case Aggregate(agg, es) =>
      [AggByte(agg)] + Line(Dec(if agg.Map? then |es| / 2 else |es|), EncodeManyOnto(es, z))
  }

  function EncodeManyOnto(rs: seq<Reply>, z: bytes): bytes
    decreases rs, 1
  {
    if |rs| == 0 then z else EncodeOnto(rs[0], EncodeManyOnto(rs[1..], z))
  }

  /** The printed form of a reply. */
  function Encode(r: Reply): bytes { EncodeOnto(r, []) }

  lemma LineAppend(t: bytes, y: bytes, z: bytes)
    ensures Line(t, y + z) == Line(t, y) + z
  {
  }

  lemma LeadAppend(b: byte, y: bytes, z: bytes)
    ensures [b] + (y + z) == ([b] + y) + z
  {
  }

  /** Printing in front of z is printing and then appending z. */
  lemma {:induction false} EncodeAppend(r: Reply, y: bytes, z: bytes)
    ensures EncodeOnto(r, y + z) == EncodeOnto(r, y) + z
    decreases r, 0
  {
    match r {
      case Text(kind, t) =>
        LineAppend(t, y, z);
        if kind == String {
          LineAppend(Dec(|t|), Line(t, y), z);
          LeadAppend(DOLLAR, Line(Dec(|t|), Line(t, y)), z);
        } else {
          LeadAppend(TextByte(kind), Line(t, y), z);
        }
      case Verb(v, t) =>
        var body := v + [COLON] + t;
        LineAppend(body, y, z);
        LineAppend(Dec(|body|), Line(body, y), z);
        LeadAppend(61, Line(Dec(|body|), Line(body, y)), z);
      case Integer(v) => LineAppend(DecInt(v), y, z); LeadAppend(COLON, Line(DecInt(v), y), z);
      case Double(t) => LineAppend(t, y, z); LeadAppend(COMMA, Line(t, y), z);
      case Nil => LineAppend([], y, z); LeadAppend(95, Line([], y), z);
      case Bool(b) =>
        LineAppend([if b then 116 else 102], y, z);
        LeadAppend(HASH, Line([if b then 116 else 102], y), z);
      case Aggregate(agg, es) =>
        var n := Dec(if agg.Map? then |es| / 2 else |es|);
        EncodeManyAppend(es, y, z);
        LineAppend(n, EncodeManyOnto(es, y), z);
        LeadAppend(AggByte(agg), Line(n, EncodeManyOnto(es, y)), z);
    }
  }

  lemma {:induction false} EncodeManyAppend(rs: seq<Reply>, y: bytes, z: bytes)
    ensures EncodeManyOnto(rs, y + z) == EncodeManyOnto(rs, y) + z
    decreases rs, 1
  {
    if |rs| > 0 {
      EncodeManyAppend(rs[1..], y, z);
      EncodeAppend(rs[0], EncodeManyOnto(rs[1..], y), z);
    }
  }

  predicate NoNewline(t: bytes) { forall i :: 0 <= i < |t| ==> !NewlineAt(t, i) }

  /** What the protocol can carry: single-line texts hold no CR LF, doubles are
      accepted by the number reader, counts and lengths are in range. */
  predicate Printable(dbl: bytes -> bool, r: Reply)
    decreases r, 0
  {
    match r
    case Text(String, t) => |t| <= LLONG_MAX
    case Text(kind, t) => NoNewline(t)
    case Verb(v, t) => |v| == 3 && |t| + 4 <= LLONG_MAX
    case Integer(v) => InLL(v)
    case Double(t) => NoNewline(t) && |t| < DOUBLE_BUFFER && dbl(t)
    case Nil => true
    case Bool(b) => true
    case Aggregate(agg, es) =>
      && (if agg.Map? then |es| % 2 == 0 && |es| / 2 <= MAX_ELEMENTS else |es| <= MAX_ELEMENTS)
      && PrintableMany(dbl, es)
  }

  predicate PrintableMany(dbl: bytes -> bool, rs: seq<Reply>)
    decreases rs, 1
  {
    |rs| == 0 || (Printable(dbl, rs[0]) && PrintableMany(dbl, rs[1..]))
  }

  /** No nil, boolean or double directly inside a push. */
  predicate PushSafe(r: Reply, inPush: bool)
    decreases r, 0
  {
    match r
    case Aggregate(agg, es) => PushSafeMany(es, agg.Push?)
    case Nil => !inPush
    case Bool(_) => !inPush
    case Double(_) => !inPush
    case _ => true
  }

  predicate PushSafeMany(rs: seq<Reply>, inPush: bool)
    decreases rs, 1
  {
    |rs| == 0 || (PushSafe(rs[0], inPush) && PushSafeMany(rs[1..], inPush))
  }

  /** Every aggregate has at most 2^31 elements, so that int numbers them all. */
  predicate Indexed(r: Reply)
    decreases r, 0
  {
    r.Aggregate? ==> |r.elements| <= INT_MAX + 1 && IndexedMany(r.elements)
  }

  predicate IndexedMany(rs: seq<Reply>)
    decreases rs, 1
  {
    |rs| == 0 || (Indexed(rs[0]) && IndexedMany(rs[1..]))
  }

  /** The first thing in reading order that the reader does not survive. */
  function Refusal(r: Reply, inPush: bool): Option<Fault>
    decreases r, 0
  {
    match r
    case Aggregate(agg, es) => RefusalMany(es, agg.Push?, 0)
    case Nil => if inPush then Some(NilInPush) else None
    case Bool(_) => if inPush then Some(NilInPush) else None
    case Double(_) => if inPush then Some(NilInPush) else None
    case _ => None
  }

  function RefusalMany(rs: seq<Reply>, inPush: bool, i: nat): Option<Fault>
    decreases rs, 1
  {
    if |rs| == 0 then None
    else if Refusal(rs[0], inPush).Some? then Refusal(rs[0], inPush)
    else if |rs| > 1 && i >= INT_MAX then Some(IndexOverflow)
    else RefusalMany(rs[1..], inPush, i + 1)
  }

  /** Nothing is refused if and only if no nil, boolean or double sits directly in a push
      and no aggregate has more than 2^31 elements. */
  lemma {:induction false} RefusalIff(r: Reply, inPush: bool)
    ensures Refusal(r, inPush) == None <==> PushSafe(r, inPush) && Indexed(r)
    decreases r, 0
  {
    if r.Aggregate? { RefusalManyIff(r.elements, r.agg.Push?, 0); }
  }

  lemma {:induction false} RefusalManyIff(rs: seq<Reply>, inPush: bool, i: nat)
    ensures RefusalMany(rs, inPush, i) == None <==>
            PushSafeMany(rs, inPush) && IndexedMany(rs) && (|rs| <= 1 || i + |rs| <= INT_MAX + 1)
    decreases rs, 1
  {
    if |rs| > 0 {
      RefusalIff(rs[0], inPush);
      RefusalManyIff(rs[1..], inPush, i + 1);
    }
  }

  // ----- round trip -----

  lemma NewlineAfter(t: bytes, z: bytes)
    requires NoNewline(t)
    ensures Newline(Line(t, z)) == Some(|t|)
    ensures Line(t, z)[..|t|] == t && Line(t, z)[|t| + 2..] == z
  {
    var x := Line(t, z);
    assert NewlineAt(x, |t|);
    forall j | 0 <= j < |t| ensures !NewlineAt(x, j) {
      if j + 1 < |t| { assert !NewlineAt(t, j); }
    }
  }

  /** An item whose first line holds no CR LF is read from that line. */
  lemma ReadLineItem(dbl: bytes -> bool, ty: ItemType, t: bytes, z: bytes, inPush: bool)
    requires NoNewline(t)
    ensures ReadItem(dbl, ty, Line(t, z), inPush) == ItemOf(dbl, ty, t, Line(t, z)[0], z, inPush)
  {
    NewlineAfter(t, z);
  }

  /** A decimal header line is read back as its number. */
  lemma HeaderLine(v: int)
    requires InLL(v)
    ensures NoNewline(DecInt(v)) && ReadLL(DecInt(v)) == Some(v)
  {
    PrintThenRead(v);
    DecCanonical(if v < 0 then -v else v);
  }

  lemma BulkBody(verb: bool, header: bytes, body: bytes, z: bytes, inPush: bool)
    requires ReadLL(header) == Some(|body|)
    requires verb ==> |body| >= 4 && body[3] == COLON
    ensures BulkItem(verb, header, Line(body, z), inPush)
      == Leaf(if verb then Verb(body[..3], body[4..]) else Text(String, body), z)
  {
    var after := Line(body, z);
    assert after[..|body|] == body && after[|body| + 2..] == z;
    if verb { assert after[..3] == body[..3] && after[4..|body|] == body[4..]; }
  }

  lemma BulkRoundTrip(dbl: bytes -> bool, verb: bool, body: bytes, z: bytes, inPush: bool)
    requires |body| <= LLONG_MAX
    requires verb ==> |body| >= 4 && body[3] == COLON
    ensures ReadItem(dbl, Bulk(verb), Line(Dec(|body|), Line(body, z)), inPush)
      == Leaf(if verb then Verb(body[..3], body[4..]) else Text(String, body), z)
  {
    HeaderLine(|body|);
    ReadLineItem(dbl, Bulk(verb), Dec(|body|), Line(body, z), inPush);
    BulkBody(verb, Dec(|body|), body, z, inPush);
  }

  /** What the grammar makes of a type byte and the item after it. */
  lemma ParseLead(dbl: bytes -> bool, b: byte, ty: ItemType, y: bytes, inPush: bool)
    requires TypeOf(b) == Some(ty)
    ensures var p := ParseReply(dbl, [b] + y, inPush);
      match ReadItem(dbl, ty, y, inPush)
      case Incomplete => p == More
      case Refused(f) => p == Bad(f)
      case Leaf(r, rest) => p == Got(r, rest)
      case Opened(agg, n, rest) =>
        match ParseMany(dbl, n, rest, agg.Push?, 0)
        case MoreMany => p == More
        case BadMany(f) => p == Bad(f)
        case GotMany(rs, rest') => p == Got(Aggregate(agg, rs), rest')
  {
    assert ([b] + y)[1..] == y;
  }

  lemma RoundTripVerb(dbl: bytes -> bool, v: bytes, t: bytes, z: bytes, inPush: bool)
    requires Printable(dbl, Verb(v, t))
    ensures ParseReply(dbl, EncodeOnto(Verb(v, t), z), inPush) == Got(Verb(v, t), z)
  {
    hide ReadItem, Newline, ParseReply, ParseMany, Line, Dec;
    var body := v + [COLON] + t;
    ParseLead(dbl, 61, Bulk(true), Line(Dec(|body|), Line(body, z)), inPush);
    BulkRoundTrip(dbl, true, body, z, inPush);
    assert body[..3] == v && body[4..] == t;
  }

  lemma {:induction false} ReadsUpToRefusal(dbl: bytes -> bool, r: Reply, z: bytes, inPush: bool)
    requires Printable(dbl, r)
    ensures ParseReply(dbl, EncodeOnto(r, z), inPush)
      == match Refusal(r, inPush) case None => Got(r, z) case Some(f) => Bad(f)
    decreases r, 1
  {
    hide ReadItem, Newline, ParseReply, ParseMany, Dec;
    match r {
      case Text(String, t) =>
        ParseLead(dbl, DOLLAR, Bulk(false), Line(Dec(|t|), Line(t, z)), inPush);
        BulkRoundTrip(dbl, false, t, z, inPush);
      case Text(kind, t) =>
        ParseLead(dbl, TextByte(kind), LineText(kind), Line(t, z), inPush);
        ReadLineItem(dbl, LineText(kind), t, z, inPush);
      case Verb(v, t) => RoundTripVerb(dbl, v, t, z, inPush);
      case Integer(v) =>
        ParseLead(dbl, COLON, LineInteger, Line(DecInt(v), z), inPush);
        HeaderLine(v);
        ReadLineItem(dbl, LineInteger, DecInt(v), z, inPush);
      case Double(t) =>
        ParseLead(dbl, COMMA, LineDouble, Line(t, z), inPush);
        ReadLineItem(dbl, LineDouble, t, z, inPush);
      case Nil =>
        ParseLead(dbl, 95, LineNil, Line([], z), inPush);
        ReadLineItem(dbl, LineNil, [], z, inPush);
      case Bool(b) =>
        ParseLead(dbl, HASH, LineBool, Line([if b then 116 else 102], z), inPush);
        ReadLineItem(dbl, LineBool, [if b then 116 else 102], z, inPush);
      case Aggregate(agg, es) => RoundTripAggregate(dbl, agg, es, z, inPush);
    }
  }

  /** Reading what was printed gives back exactly that reply and leaves exactly the
      bytes that follow it, if and only if no nil, boolean or double sits directly
      in a push and no aggregate has more than 2^31 elements; otherwise reading stops
      at the first of these, with its fault. */
  lemma RoundTrip(dbl: bytes -> bool, r: Reply, z: bytes, inPush: bool)
    requires Printable(dbl, r)
    ensures var p := ParseReply(dbl, EncodeOnto(r, z), inPush);
      if PushSafe(r, inPush) && Indexed(r) then p == Got(r, z)
      else Refusal(r, inPush).Some? && p == Bad(Refusal(r, inPush).value)
  {
    RefusalIff(r, inPush);
    ReadsUpToRefusal(dbl, r, z, inPush);
  }

  lemma {:induction false} RoundTripAggregate(dbl: bytes -> bool, agg: AggKind, es: seq<Reply>, z: bytes, inPush: bool)
    requires Printable(dbl, Aggregate(agg, es))
    ensures ParseReply(dbl, EncodeOnto(Aggregate(agg, es), z), inPush)
      == match RefusalMany(es, agg.Push?, 0) case None => Got(Aggregate(agg, es), z) case Some(f) => Bad(f)
    decreases Aggregate(agg, es), 0
  {
    hide ReadItem, Newline, ParseReply, ParseMany, Line, Dec;
    var n := if agg.Map? then |es| / 2 else |es|;
    ParseLead(dbl, AggByte(agg), Counted(agg), Line(Dec(n), EncodeManyOnto(es, z)), inPush);
    HeaderLine(n);
    ReadLineItem(dbl, Counted(agg), Dec(n), EncodeManyOnto(es, z), inPush);
    if |es| == 0 { assert es == []; } else { RoundTripMany(dbl, es, z, agg.Push?, 0); }
  }

  lemma {:induction false} RoundTripMany(dbl: bytes -> bool, rs: seq<Reply>, z: bytes, inPush: bool, i: nat)
    requires PrintableMany(dbl, rs)
    ensures ParseMany(dbl, |rs|, EncodeManyOnto(rs, z), inPush, i)
      == match RefusalMany(rs, inPush, i) case None => GotMany(rs, z) case Some(f) => BadMany(f)
    decreases rs, 2
  {
    hide ParseReply, EncodeOnto;
    if |rs| > 0 {
      ReadsUpToRefusal(dbl, rs[0], EncodeManyOnto(rs[1..], z), inPush);
      RoundTripMany(dbl, rs[1..], z, inPush, i + 1);
      assert rs == [rs[0]] + rs[1..];
    }
  }

  /** A push of one nil: a well-formed RESP3 message the reader does not survive. */
  lemma NilInPushIsRefused(dbl: bytes -> bool)
    ensures var r := Aggregate(Push, [Nil]);
      Printable(dbl, r) && ParseReply(dbl, Encode(r), false) == Bad(NilInPush)
  {
    var r := Aggregate(Push, [Nil]);
    assert PrintableMany(dbl, [Nil]) && RefusalMany([Nil], true, 0) == Some(NilInPush);
    RoundTrip(dbl, r, [], false);
  }

  lemma {:induction false} ZerosPrintable(dbl: bytes -> bool, rs: seq<Reply>)
    requires forall j :: 0 <= j < |rs| ==> rs[j] == Integer(0)
    ensures PrintableMany(dbl, rs)
  {
    if |rs| > 0 { ZerosPrintable(dbl, rs[1..]); }
  }

  lemma {:induction false} ZerosOverflow(dbl: bytes -> bool, rs: seq<Reply>, i: nat)
    requires (forall j :: 0 <= j < |rs| ==> rs[j] == Integer(0)) && i <= INT_MAX
    ensures PrintableMany(dbl, rs)
    ensures RefusalMany(rs, false, i) == if i + |rs| > INT_MAX + 1 then Some(IndexOverflow) else None
  {
    if |rs| > 0 && i < INT_MAX { ZerosOverflow(dbl, rs[1..], i + 1); }
    if |rs| > 0 { ZerosPrintable(dbl, rs[1..]); }
  }

  /** An array of 2^31 + 1 zeros is within the limit of elements and yet not read. */
  lemma LongArrayIsRefused(dbl: bytes -> bool)
    ensures var r := Aggregate(Array, seq(0x8000_0001, _ => Integer(0)));
      Printable(dbl, r) && ParseReply(dbl, Encode(r), false) == Bad(IndexOverflow)
  {
    var es: seq<Reply> := seq(0x8000_0001, _ => Integer(0));
    ZerosOverflow(dbl, es, 0);
    hide ParseReply, EncodeOnto, RefusalMany, PrintableMany;
    RoundTrip(dbl, Aggregate(Array, es), [], false);
  }
}
