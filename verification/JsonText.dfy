/** Reading JSON text, after RFC 8259 and not after any code of the library. Character codes
    are written as characters. */
module JsonText {
  import opened Bytes
  import opened JsonValue
  import Utf

  /** Numbers are kept as their text. */
  type Json = Value<bytes, bytes>

  function HexDigitValue(c: byte): (v: Option<int>)
    ensures v.Some? ==> 0 <= v.value < 16
  {
    if '0' as int <= c <= '9' as int then Some(c - '0' as int)
    else if 'a' as int <= c <= 'f' as int then Some(c - 'a' as int + 10)
    else if 'A' as int <= c <= 'F' as int then Some(c - 'A' as int + 10)
    else None
  }

  predicate Whitespace(c: byte) { c == ' ' as int || c == '\t' as int || c == '\n' as int || c == '\r' as int }

  /** The code unit of \uXXXX, from its four hexadecimal digits at i. */
  function UnitAt(t: bytes, i: nat): (u: Option<int>)
    ensures u.Some? ==> 0 <= u.value <= 0xFFFF
  {
    var a, b, c, d := HexDigitValue(At(t, i)), HexDigitValue(At(t, i + 1)), HexDigitValue(At(t, i + 2)),
      HexDigitValue(At(t, i + 3));
    if a.None? || b.None? || c.None? || d.None? then None
    else Some(a.value * 4096 + b.value * 256 + c.value * 16 + d.value)
  }

  /** An escape sequence of section 7: the octets it stands for and its length. */
  function ReadEscape(t: bytes): (r: Option<(bytes, nat)>)
    ensures r.Some? ==> r.value.1 >= 2
  {
    var c := At(t, 1);
    if c == '"' as int || c == '\\' as int || c == '/' as int then Some(([c], 2))
    else if c == 'b' as int then Some(([8], 2))
    else if c == 'f' as int then Some(([12], 2))
    else if c == 'n' as int then Some((['\n' as int], 2))
    else if c == 'r' as int then Some((['\r' as int], 2))
    else if c == 't' as int then Some((['\t' as int], 2))
    else if c != 'u' as int then None
    else
      var u := UnitAt(t, 2);
      if u.None? || 0xDC00 <= u.value <= 0xDFFF then None
      else if u.value < 0xD800 || u.value > 0xDFFF then Some((Utf.Encode8(u.value), 6))
      else if At(t, 6) != '\\' as int || At(t, 7) != 'u' as int then None
      else
        var l := UnitAt(t, 8);
        if l.None? || !(0xDC00 <= l.value <= 0xDFFF) then None
        else Some((Utf.Encode8(0x10000 + (u.value - 0xD800) * 1024 + (l.value - 0xDC00)), 12))
  }

  /** The rest of a string after its opening quote: its octets, and what follows it. */
  function ReadString(t: bytes): (r: Option<(bytes, bytes)>)
    ensures r.Some? ==> |r.value.1| < |t|
    decreases |t|
  {
    if |t| == 0 || t[0] < 32 then None
    else if t[0] == '"' as int then Some(([], t[1..]))
    else
      var e := if t[0] == '\\' as int then ReadEscape(t) else Some(([t[0]], 1));
      if e.None? || e.value.1 > |t| then None
      else
        var more := ReadString(t[e.value.1..]);
        if more.None? then None else Some((e.value.0 + more.value.0, more.value.1))
  }

  predicate NumberChar(c: byte) {
    || '0' as int <= c <= '9' as int || c == '+' as int || c == '-' as int || c == '.' as int
    || c == 'E' as int || c == 'e' as int
  }

  function NumberEnd(t: bytes): (n: nat)
    ensures n <= |t|
  {
    if |t| == 0 || !NumberChar(t[0]) then 0 else 1 + NumberEnd(t[1..])
  }

  /** A number is kept as its token; its own grammar is not looked into. */
  predicate NumberText(t: bytes) { |t| > 0 && forall i :: 0 <= i < |t| ==> NumberChar(t[i]) }

  predicate StartsWith(t: bytes, w: bytes) { |w| <= |t| && t[..|w|] == w }

  /** What follows the whitespace at the front. */
  function SkipSpace(t: bytes): (r: bytes)
    ensures |r| <= |t|
  {
    if |t| > 0 && Whitespace(t[0]) then SkipSpace(t[1..]) else t
  }

  function ReadValue(t: bytes): (r: Option<(Json, bytes)>)
    ensures r.Some? ==> |r.value.1| < |t|
    decreases |t|, 0
  {
    if |t| == 0 then None
    else if t[0] == '"' as int then
      var s := ReadString(t[1..]);
      if s.None? then None else Some((String(s.value.0), s.value.1))
    else if t[0] == '[' as int then
      var es := ReadElements(t[1..], true);
      if es.None? then None else Some((Array(es.value.0), es.value.1))
    else if t[0] == '{' as int then
      var ms := ReadMembers(t[1..], true);
      if ms.None? then None else Some((Object(ms.value.0), ms.value.1))
    else if StartsWith(t, Ascii("null")) then Some((Null, t[4..]))
    else if StartsWith(t, Ascii("true")) then Some((Bool(true), t[4..]))
    else if StartsWith(t, Ascii("false")) then Some((Bool(false), t[5..]))
    else
      var n := NumberEnd(t);
      if n == 0 then None else Some((Number(t[..n]), t[n..]))
  }

  /** The elements up to the closing bracket; all but the first come after a comma.
      Whitespace may stand around every bracket, comma and colon (section 2). */
  function ReadElements(t: bytes, first: bool): (r: Option<(seq<Json>, bytes)>)
    ensures r.Some? ==> |r.value.1| < |t|
    decreases |t|, 1
  {
    var u := SkipSpace(t);
    if |u| == 0 then None
    else if u[0] == ']' as int then Some(([], u[1..]))
    else if !first && u[0] != ',' as int then None
    else
      var v := ReadValue(if first then u else SkipSpace(u[1..]));
      if v.None? then None
      else
        var more := ReadElements(v.value.1, false);
        if more.None? then None else Some(([v.value.0] + more.value.0, more.value.1))
  }

  function ReadMembers(t: bytes, first: bool): (r: Option<(seq<Member<bytes, bytes>>, bytes)>)
    ensures r.Some? ==> |r.value.1| < |t|
    decreases |t|, 1
  {
    var u := SkipSpace(t);
    if |u| == 0 then None
    else if u[0] == '}' as int then Some(([], u[1..]))
    else if !first && u[0] != ',' as int then None
    else
      var m := ReadMember(if first then u else SkipSpace(u[1..]));
      if m.None? then None
      else
        var more := ReadMembers(m.value.1, false);
        if more.None? then None else Some(([m.value.0] + more.value.0, more.value.1))
  }

  function ReadMember(t: bytes): (r: Option<(Member<bytes, bytes>, bytes)>)
    ensures r.Some? ==> |r.value.1| < |t|
    decreases |t|, 0
  {
    if |t| == 0 || t[0] != '"' as int then None
    else
      var name := ReadString(t[1..]);
      if name.None? then None
      else
        var u := SkipSpace(name.value.1);
        if At(u, 0) != ':' as int then None
        else
          var v := ReadValue(SkipSpace(u[1..]));
          if v.None? then None else Some((Member(name.value.0, v.value.0), v.value.1))
  }

  /** A whole JSON text. */
  function ReadText(t: bytes): Option<Json> {
    match ReadValue(SkipSpace(t))
    case None => None
    case Some((v, rest)) => if SkipSpace(rest) == [] then Some(v) else None
  }
}
