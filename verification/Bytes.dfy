/** Bytes, the character codes the protocols use, and small sequence helpers. */
module Bytes {

  type byte = x: int | 0 <= x < 256
  type bytes = seq<byte>

  datatype Option<+T> = None | Some(value: T)

  /** A C int of 32 bits. */
  const INT_MAX: int := 0x7FFF_FFFF
  type int32 = x: int | -INT_MAX - 1 <= x <= INT_MAX
  type uint32 = x: int | 0 <= x < 0x1_0000_0000

  /** The conversion of an unsigned number to int. */
  function ToInt(n: nat): int32 {
    var w := n % 0x1_0000_0000;
    if w < 0x8000_0000 then w else w - 0x1_0000_0000
  }

  const NUL: byte := 0
  const CR: byte := 13
  const LF: byte := 10
  const CRLF: bytes := [CR, LF]
  const SPACE: byte := 32
  const QUOTE: byte := 34
  const HASH: byte := 35
  const DOLLAR: byte := 36
  const PERCENT: byte := 37
  const STAR: byte := 42
  const COMMA: byte := 44
  const MINUS: byte := 45
  const SLASH: byte := 47
  const ZERO: byte := 48
  const COLON: byte := 58
  const BACKSLASH: byte := 92
  const TILDE: byte := 126

  /** The bytes of an ASCII text. */
  function Ascii(s: string): (r: bytes)
    requires forall i :: 0 <= i < |s| ==> s[i] as int < 128
    ensures |r| == |s| && forall i :: 0 <= i < |s| ==> r[i] == s[i] as int
  {
    seq(|s|, i requires 0 <= i < |s| => s[i] as int)
  }

  predicate IsDigit(c: byte) { 48 <= c <= 57 }

  /** An upper-case hexadecimal digit. */
  function HexDigit(v: int): byte
    requires 0 <= v < 16
  {
    if v < 10 then 48 + v else 55 + v
  }

  /** The value of a hexadecimal digit of either case. */
  function HexValue(c: byte): (r: Option<int>)
    ensures r.Some? ==> 0 <= r.value < 16
  {
    if IsDigit(c) then Some(c - 48)
    else if 65 <= c <= 70 then Some(c - 55)
    else if 97 <= c <= 102 then Some(c - 87)
    else None
  }

  /** Digits of both cases, by their characters, and nothing else. */
  lemma HexDigits(v: int)
    requires 0 <= v < 16
    ensures HexDigit(v) == "0123456789ABCDEF"[v] as int
    ensures HexValue("0123456789ABCDEF"[v] as int) == HexValue("0123456789abcdef"[v] as int) == Some(v)
    ensures forall c: byte :: HexValue(c) == Some(v) ==>
      c == "0123456789ABCDEF"[v] as int || c == "0123456789abcdef"[v] as int
  {
  }

  /** The byte at an offset, and NUL past the end. */
  function At(x: bytes, i: nat): byte { if i < |x| then x[i] else NUL }

  function Repeat(c: byte, n: nat): (s: bytes)
    ensures |s| == n
  {
    if n == 0 then [] else [c] + Repeat(c, n - 1)
  }

  lemma Regroup<T>(a: seq<T>, b: seq<T>, c: seq<T>)
    ensures a + (b + c) == (a + b) + c
  {
  }

  /** Concatenation of a list of byte strings, first to last. */
  function Flatten(parts: seq<bytes>): bytes {
    if |parts| == 0 then [] else parts[0] + Flatten(parts[1..])
  }

  lemma {:induction false} FlattenAppend(xs: seq<bytes>, ys: seq<bytes>)
    ensures Flatten(xs + ys) == Flatten(xs) + Flatten(ys)
  {
    if |xs| == 0 {
      assert xs + ys == ys;
    } else {
      assert (xs + ys)[1..] == xs[1..] + ys;
      FlattenAppend(xs[1..], ys);
    }
  }

  /** A snoc view of Flatten, for loops that append one part at a time. */
  lemma FlattenSnoc(xs: seq<bytes>, y: bytes)
    ensures Flatten(xs + [y]) == Flatten(xs) + y
  {
    FlattenAppend(xs, [y]);
    assert Flatten([y]) == y + Flatten([y][1..]);
  }

  /** The pointer at place i of a linked chain: null past its end. */
  function Link(c: seq<nat>, i: nat): Option<nat> { if i < |c| then Some(c[i]) else None }
}
