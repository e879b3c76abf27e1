/** sds: length-prefixed, NUL-terminated strings whose header width follows the
    space allocated. One object stands for the string; reallocation swaps its buffer. */
module Sds {
  import opened Bytes
  import opened Decimal

  datatype HeaderType = Type5 | Type8 | Type16 | Type32 | Type64

  const MAX_PREALLOC: nat := 1024 * 1024
  /** Sizes the allocator can serve; sums of two such sizes do not wrap. */
  const SIZE_LIMIT: nat := 0x2000_0000_0000_0000
  const SSIZE_MAX: nat := 0x7FFF_FFFF_FFFF_FFFF

  /** One more than the largest value a length field of this type holds. */
  function Range(t: HeaderType): nat {
    match t
    case Type5 => 32
    case Type8 => 0x100
    case Type16 => 0x1_0000
    case Type32 => 0x1_0000_0000
    case Type64 => 0x1_0000_0000_0000_0000
  }

  /** sdsReqType */
  function RequiredType(size: nat): HeaderType {
    if size < 32 then Type5
    else if size < 0xff then Type8
    else if size < 0xffff then Type16
    else if size < 0xffffffff then Type32
    else Type64
  }

  function ClipLow(i: int, len: nat): nat {
    if i >= 0 then i else if len + i < 0 then 0 else len + i
  }

  /** The substring sdsrange keeps: bounds count from the end when negative, are
      inclusive, and are clipped to the string. */
  function SubRange(s: bytes, start: int, end: int): bytes {
    var from := ClipLow(start, |s|);
    var to := ClipLow(end, |s|);
    if from > to || from >= |s| then [] else s[from..if to >= |s| then |s| else to + 1]
  }

  datatype Arg = StrArg(s: bytes) | NumArg(v: int)

  /** strlen: the bytes before the first NUL, or before the terminator. */
  function StringLength(s: bytes): (n: nat)
    ensures n <= |s| && (n < |s| ==> s[n] == NUL) && forall i :: 0 <= i < n ==> s[i] != NUL
  {
    if |s| == 0 || s[0] == NUL then 0 else
    var n := StringLength(s[1..]) + 1;
    assert forall i :: 1 <= i < n ==> s[i] == s[1..][i - 1];
    n
  }

  lemma {:induction false} StringLengthIs(s: bytes, n: nat)
    requires n <= |s| && (n < |s| ==> s[n] == NUL) && forall i :: 0 <= i < n ==> s[i] != NUL
    ensures StringLength(s) == n
  {
    if n > 0 { StringLengthIs(s[1..], n - 1); }
  }

  method Strlen(s: bytes) returns (n: nat)
    ensures n == StringLength(s)
  {
    n := 0;
    while n < |s| && s[n] != NUL
      invariant n <= |s| && forall i :: 0 <= i < n ==> s[i] != NUL
    {
      n := n + 1;
    }
    StringLengthIs(s, n);
  }

  predicate TakesString(c: byte) { c == 115 || c == 83 }
  predicate TakesSigned(c: byte) { c == 105 || c == 73 }
  predicate TakesUnsigned(c: byte) { c == 117 || c == 85 }
  predicate Takes(c: byte) { TakesString(c) || TakesSigned(c) || TakesUnsigned(c) }

  /** The next argument, if the directive takes one, is what it asks for, in range. */
  predicate Suits(c: byte, args: seq<Arg>) {
    && (Takes(c) ==> |args| > 0)
    && (TakesString(c) ==> args[0].StrArg?)
    && (TakesSigned(c) ==>
          args[0].NumArg? && if c == 105 then -INT_MAX - 1 <= args[0].v <= INT_MAX else InLL(args[0].v))
    && (TakesUnsigned(c) ==> args[0].NumArg? && 0 <= args[0].v <= if c == 117 then 0xFFFF_FFFF else ULLONG_MAX)
  }

  /** The text of a directive, and how many arguments it takes. */
  function ArgumentText(c: byte, args: seq<Arg>): (r: (bytes, nat))
    requires Suits(c, args)
    ensures r.1 == if Takes(c) then 1 else 0
  {
    if c == 115 then (args[0].s[..StringLength(args[0].s)], 1)
    else if c == 83 then (args[0].s, 1)
    else if TakesSigned(c) then (DecInt(args[0].v), 1)
    else if TakesUnsigned(c) then (Dec(args[0].v), 1)
    else ([c], 0)
  }

  /** The format is a C string that does not end in a lone percent sign, and the
      arguments suit its directives. */
  predicate Matches(fmt: bytes, args: seq<Arg>) {
    if |fmt| == 0 then true
    else if fmt[0] == NUL then false
    else if fmt[0] != PERCENT then Matches(fmt[1..], args)
    else
      && |fmt| >= 2 && fmt[1] != NUL && Suits(fmt[1], args)
      && Matches(fmt[2..], if Takes(fmt[1]) then args[1..] else args)
  }

  /** The text of the character or directive at the front of a format, and how many format
      bytes and arguments it takes. */
  function Directive(fmt: bytes, args: seq<Arg>): (r: (bytes, (nat, nat)))
    requires |fmt| > 0 && Matches(fmt, args)
    ensures 0 < r.1.0 <= |fmt| && r.1.1 <= |args|
  {
    if fmt[0] != PERCENT then ([fmt[0]], (1, 0))
    else var (text, n) := ArgumentText(fmt[1], args); (text, (2, n))
  }

  /** The text a format produces. */
  function Format(fmt: bytes, args: seq<Arg>): bytes
    requires Matches(fmt, args)
  {
    if |fmt| == 0 then []
    else
      var (piece, (nf, na)) := Directive(fmt, args);
      piece + Format(fmt[nf..], args[na..])
  }

  /** One directive off the front, by position. */
  lemma FormatStep(fmt: bytes, args: seq<Arg>, f: nat, a: nat)
    requires f < |fmt| && a <= |args| && Matches(fmt[f..], args[a..])
    ensures var (piece, (nf, na)) := Directive(fmt[f..], args[a..]);
      && f + nf <= |fmt| && a + na <= |args|
      && Matches(fmt[f + nf..], args[a + na..])
      && Format(fmt[f..], args[a..]) == piece + Format(fmt[f + nf..], args[a + na..])
      && (nf == 2 ==> fmt[f..][1] == fmt[f + 1]) && (na == 1 ==> args[a..][0] == args[a])
  {
    var (piece, (nf, na)) := Directive(fmt[f..], args[a..]);
    assert fmt[f..][nf..] == fmt[f + nf..] && args[a..][na..] == args[a + na..];
  }

  lemma FormatEnd(args: seq<Arg>)
    ensures Matches([], args) && Format([], args) == []
  {
  }

  /** The header for each allocation: below 2^5, 2^8 - 1, 2^16 - 1, 2^32 - 1, and all others;
      and the values that its fields can hold. */
  lemma HeaderTable(size: nat)
    ensures RequiredType(size).Type5? <==> size < 32
    ensures RequiredType(size).Type8? <==> 32 <= size < 255
    ensures RequiredType(size).Type16? <==> 255 <= size < 65535
    ensures RequiredType(size).Type32? <==> 65535 <= size < 4294967295
    ensures Range(Type5) == 32 && Range(Type8) == 256 && Range(Type16) == 65536 && Range(Type32) == 4294967296
    ensures Range(Type64) == 18446744073709551616
    ensures size < 18446744073709551616 ==> size < Range(RequiredType(size))
  {
  }

  /** The range, index by index. */
  lemma SubRangeIs(s: bytes, start: int, end: int)
    ensures var n, r := |s|, SubRange(s, start, end);
      var from := if start >= 0 then start else if n + start >= 0 then n + start else 0;
      var last := if end >= n then n - 1 else if end >= 0 then end else if n + end >= 0 then n + end else 0;
      && |r| == (if from <= last && from < n then last - from + 1 else 0)
      && forall i :: 0 <= i < |r| ==> r[i] == s[from + i]
  {
  }

  /** Cutting off the first byte. */
  lemma RangeExample()
    ensures SubRange(Ascii("Hello"), 1, -1) == Ascii("ello") && SubRange(Ascii("Hello"), -3, 3) == Ascii("ll")
  {
  }

  lemma DirectiveHead(c: byte, a: Arg, more: bytes, args: seq<Arg>)
    requires Takes(c) && c != NUL
    ensures var fmt, all := Ascii("%") + [c] + more, [a] + args;
      && (Matches(fmt, all) <==> Suits(c, all) && Matches(more, args))
      && (Matches(fmt, all) ==> Format(fmt, all) == ArgumentText(c, all).0 + Format(more, args))
  {
    var fmt, all := Ascii("%") + [c] + more, [a] + args;
    assert fmt[0] == PERCENT && fmt[1] == c && fmt[2..] == more && all[1..] == args;
    hide ArgumentText, Suits;
  }

  /** A string argument up to its first NUL (%s), or whole (%S). */
  lemma StringDirectives(s: bytes, more: bytes, args: seq<Arg>)
    requires Matches(more, args)
    ensures forall c :: c in "sS" ==> Matches(Ascii("%") + [c as int] + more, [StrArg(s)] + args)
    ensures Format(Ascii("%") + ['S' as int] + more, [StrArg(s)] + args) == s + Format(more, args)
    ensures forall k :: 0 <= k <= |s| && (k < |s| ==> s[k] == 0) && (forall i :: 0 <= i < k ==> s[i] != 0) ==>
      Format(Ascii("%") + ['s' as int] + more, [StrArg(s)] + args) == s[..k] + Format(more, args)
  {
    DirectiveHead('s' as int, StrArg(s), more, args);
    DirectiveHead('S' as int, StrArg(s), more, args);
    hide Matches, Format;
    forall k | 0 <= k <= |s| && (k < |s| ==> s[k] == 0) && (forall i :: 0 <= i < k ==> s[i] != 0)
      ensures StringLength(s) == k
    {
      StringLengthIs(s, k);
    }
  }

  /** A number of the width that the directive names, in decimal. */
  lemma NumberDirectives(v: int, more: bytes, args: seq<Arg>)
    requires Matches(more, args)
    ensures Matches(Ascii("%") + ['i' as int] + more, [NumArg(v)] + args) <==> -0x8000_0000 <= v < 0x8000_0000
    ensures Matches(Ascii("%") + ['I' as int] + more, [NumArg(v)] + args) <==>
      -0x8000_0000_0000_0000 <= v < 0x8000_0000_0000_0000
    ensures Matches(Ascii("%") + ['u' as int] + more, [NumArg(v)] + args) <==> 0 <= v < 0x1_0000_0000
    ensures Matches(Ascii("%") + ['U' as int] + more, [NumArg(v)] + args) <==> 0 <= v < 0x1_0000_0000_0000_0000
    ensures forall c :: c in "iIuU" && Matches(Ascii("%") + [c as int] + more, [NumArg(v)] + args) ==>
      Format(Ascii("%") + [c as int] + more, [NumArg(v)] + args) == DecInt(v) + Format(more, args)
  {
    DirectiveHead('i' as int, NumArg(v), more, args);
    DirectiveHead('I' as int, NumArg(v), more, args);
    DirectiveHead('u' as int, NumArg(v), more, args);
    DirectiveHead('U' as int, NumArg(v), more, args);
    hide Matches, Format, Dec;
  }

  /** A percent sign and any other character stand for that character, and so does any
      character without one. */
  lemma PlainTable(c: byte, more: bytes, args: seq<Arg>)
    requires c != 0 && Matches(more, args)
    ensures c != '%' as int ==> Matches([c] + more, args) && Format([c] + more, args) == [c] + Format(more, args)
    ensures (forall d :: d in "sSiIuU" ==> c != d as int) ==>
      Matches(Ascii("%") + [c] + more, args) && Format(Ascii("%") + [c] + more, args) == [c] + Format(more, args)
  {
    var fmt := Ascii("%") + [c] + more;
    assert fmt[0] == PERCENT && fmt[1] == c && fmt[2..] == more && ([c] + more)[1..] == more && args[0..] == args;
    var all := "sSiIuU";
    assert all[0] in all && all[1] in all && all[2] in all && all[3] in all && all[4] in all && all[5] in all;
  }

  class String {
    var ty: HeaderType
    var len: nat
    /** The alloc field; type 5 headers have none. */
    var room: nat
    var buf: array<byte>

    /** sdsalloc */
    function Alloc(): nat reads this { if ty.Type5? then len else room }

    /** The length and the allocation fit their header fields, the contents fit the
        allocation, and the block has room for the terminator. */
    ghost predicate Header()
      reads this
    {
      len <= Alloc() < Range(ty) && Alloc() < buf.Length
    }

    ghost predicate Valid(): (v: bool)
      reads this, buf
      ensures v ==> Header()
    {
      Header() && buf[len] == NUL
    }

    ghost function Contents(): (c: bytes)
      reads this, buf
      requires Header()
      ensures |c| == len
    {
      buf[..len]
    }

    /** sdsavail */
    function Avail(): int
      reads this
    {
      if ty.Type5? then 0 else room - len
    }

    /** sdsnewlen; empty strings get type 8 because they are made to be appended to. */
    constructor (init: bytes)
      requires |init| < SIZE_LIMIT
      ensures Valid() && Contents() == init && fresh(buf)
    {
      var t := RequiredType(|init|);
      if t.Type5? && |init| == 0 { t := Type8; }
      ty := t;
      len := |init|;
      room := |init|;
      buf := new byte[|init| + 1](i => if 0 <= i < |init| then init[i] else NUL);
      new;
      assert buf[..len] == init;
    }

    /** sdssetlen: the cast to the field's width */
    method SetLen(n: nat)
      modifies this`len
      ensures len == n % Range(ty)
      ensures n < Range(ty) ==> len == n
    {
      len := n % Range(ty);
    }

    /** sdsinclen */
    method IncLen(n: nat)
      modifies this`len
      ensures len == (old(len) + n) % Range(ty)
      ensures old(len) + n < Range(ty) ==> len == old(len) + n
    {
      len := (len + n) % Range(ty);
    }

    /** sdssetalloc */
    method SetAlloc(n: nat)
      modifies this`room
      ensures !ty.Type5? ==> room == n % Range(ty) && (n < Range(ty) ==> room == n)
      ensures ty.Type5? ==> room == old(room)
    {
      if !ty.Type5? { room := n % Range(ty); }
    }

    /** sdsMakeRoomFor: greedy growth, never back to a type that cannot remember
        free space. */
    method MakeRoomFor(addlen: nat)
      requires Header() && len + addlen < SIZE_LIMIT
      modifies this
      ensures Header() && Avail() >= addlen && len == old(len) && Contents() == old(Contents())
      ensures buf == old(buf) || fresh(buf)
      ensures old(Valid()) ==> Valid()
      ensures buf != old(buf) ==> !ty.Type5?
      ensures old(Avail()) >= addlen ==> buf == old(buf) && ty == old(ty) && Alloc() == old(Alloc())
      ensures old(Avail()) < addlen ==>
        Alloc() == (old(len) + addlen) + (if old(len) + addlen < 1048576 then old(len) + addlen else 1048576)
    {
      if Avail() >= addlen { return; }
      var newlen := len + addlen;
      if newlen < MAX_PREALLOC { newlen := newlen * 2; } else { newlen := newlen + MAX_PREALLOC; }
      var t := RequiredType(newlen);
      if t.Type5? { t := Type8; }
      // realloc and malloc+memcpy both keep the bytes up to and including s[len]
      var was := buf;
      var newbuf := new byte[newlen + 1](i reads was => if 0 <= i < was.Length then was[i] else NUL);
      assert newbuf[..len] == was[..len];
      buf := newbuf;
      if ty != t {
        var l := len;
        ty := t;
        SetLen(l);
      }
      SetAlloc(newlen);
    }

    /** Writes t at offset at. */
    method Copy(at: nat, t: bytes)
      requires at + |t| <= buf.Length
      modifies buf
      ensures buf[at..at + |t|] == t
      ensures buf[..at] == old(buf[..at]) && buf[at + |t|..] == old(buf[at + |t|..])
    {
      forall i | 0 <= i < |t| { buf[at + i] := t[i]; }
    }

    /** sdscatlen */
    method CatLen(t: bytes)
      requires Valid() && len + |t| < SIZE_LIMIT
      modifies this, buf
      ensures Valid() && Contents() == old(Contents()) + t
      ensures buf == old(buf) || fresh(buf)
    {
      ghost var was := Contents();
      var curlen := len;
      MakeRoomFor(|t|);
      Copy(curlen, t);
      SetLen(curlen + |t|);
      buf[curlen + |t|] := NUL;
      assert buf[..curlen + |t|] == was + t;
    }

    /** The bounds arithmetic of sdsrange. */
    static method Clip(start: int, end: int, len: nat, ghost s: bytes) returns (from: nat, newlen: nat)
      requires |s| == len && len > 0
      ensures from + newlen <= len && s[from..from + newlen] == SubRange(s, start, end)
    {
      var i, j := start, end;
      if i < 0 {
        i := len + i;
        if i < 0 { i := 0; }
      }
      if j < 0 {
        j := len + j;
        if j < 0 { j := 0; }
      }
      var n: int := if i > j then 0 else j - i + 1;
      if n != 0 {
        if i >= len {
          n := 0;
          i := 0;
        } else if j >= len {
          j := len - 1;
          n := if i > j then 0 else j - i + 1;
        }
      } else {
        i := 0;
      }
      from, newlen := i, n;
    }

    /** sdsrange */
    method KeepRange(start: int, end: int) returns (ret: int)
      requires Valid()
      modifies this`len, buf
      ensures Valid() && ret == if old(len) > SSIZE_MAX then -1 else 0
      ensures Contents() == if ret == 0 then SubRange(old(Contents()), start, end) else old(Contents())
    {
      if len > SSIZE_MAX { return -1; }
      ghost var was := Contents();
      if len == 0 {
        assert was == [] && SubRange([], start, end) == [];
        return 0;
      }
      var from, newlen := Clip(start, end, len, was);
      hide SubRange;
      ghost var kept := buf[from..from + newlen];
      assert kept == was[from..from + newlen];
      if from != 0 && newlen != 0 {
        Copy(0, buf[from..from + newlen]);
      }
      assert buf[..newlen] == kept;
      buf[newlen] := NUL;
      SetLen(newlen);
      assert buf[..newlen] == kept;
      return 0;
    }

    // ----- sdscatfmt -----

    /** Appends text at position i, which is the current length. */
    method Put(text: bytes)
      requires Header() && len + |text| < SIZE_LIMIT
      modifies this, buf
      ensures Header() && Contents() == old(Contents()) + text
      ensures buf == old(buf) || fresh(buf)
    {
      ghost var was := Contents();
      var i := len;
      if Avail() < |text| { MakeRoomFor(|text|); }
      Copy(i, text);
      IncLen(|text|);
      assert buf[..i + |text|] == was + text;
    }

    /** The terminator after the contents. */
    method Terminate()
      requires Header()
      modifies buf
      ensures Valid() && Contents() == old(Contents())
    {
      ghost var was := Contents();
      buf[len] := NUL;
      assert buf[..len] == was;
    }

    /** What follows a percent sign. */
    method CatArgument(next: byte, args: seq<Arg>, a: nat) returns (a': nat)
      requires Header() && a <= |args| && Suits(next, args[a..]) && len + |ArgumentText(next, args[a..]).0| <= INT_MAX
      modifies this, buf
      ensures Header() && (buf == old(buf) || fresh(buf))
      ensures var (piece, na) := ArgumentText(next, args[a..]); a' == a + na && Contents() == old(Contents()) + piece
    {
      hide Header, Contents, Dec;
      a' := a + 1;
      if next == 115 || next == 83 {               // %s %S
        assert args[a..][0] == args[a];
        var str := args[a].s;
        var l := |str|;
        if next == 115 { l := Strlen(str); }
        Put(str[..l]);
      } else if next == 105 || next == 73 {        // %i %I
        assert args[a..][0] == args[a];
        var digits := new byte[LLSTR_SIZE];
        var l := Ll2str(digits, args[a].v);
        Put(digits[..l]);
      } else if next == 117 || next == 85 {        // %u %U
        assert args[a..][0] == args[a];
        var digits := new byte[LLSTR_SIZE];
        var l := Ull2str(digits, args[a].v);
        Put(digits[..l]);
      } else {
        Put([next]);
        a' := a;
      }
    }

    /** One round of the loop: a character, or a percent sign and its directive. */
    method CatDirective(fmt: bytes, args: seq<Arg>, f: nat, a: nat) returns (f': nat, a': nat)
      requires Header() && f < |fmt| && a <= |args| && Matches(fmt[f..], args[a..])
      requires len + |Directive(fmt[f..], args[a..]).0| <= INT_MAX
      modifies this, buf
      ensures Header() && (buf == old(buf) || fresh(buf))
      ensures var (piece, (nf, na)) := Directive(fmt[f..], args[a..]);
        f' == f + nf && a' == a + na && Contents() == old(Contents()) + piece
    {
      FormatStep(fmt, args, f, a);
      hide Format;
      // make sure there is always space for at least one character
      if Avail() == 0 { MakeRoomFor(1); }
      f', a' := f + 1, a;
      if fmt[f] != PERCENT {
        Put([fmt[f]]);
        return;
      }
      a' := CatArgument(fmt[f + 1], args, a);
      f' := f + 2;
    }

    /** sdscatfmt, with the variable arguments as a list. */
    method CatFmt(fmt: bytes, args: seq<Arg>)
      requires Valid() && Matches(fmt, args)
      requires len + |Format(fmt, args)| <= INT_MAX
      modifies this, buf
      ensures Valid() && Contents() == old(Contents()) + Format(fmt, args)
      ensures buf == old(buf) || fresh(buf)
    {
      hide Format, Matches, Directive, Header, Contents;
      var f, a := 0, 0;
      ghost var was := Contents();
      assert fmt[0..] == fmt && args[0..] == args;
      ghost var out: bytes := [];
      while f < |fmt|
        invariant f <= |fmt| && a <= |args|
        invariant Header() && (buf == old(buf) || fresh(buf))
        invariant Matches(fmt[f..], args[a..])
        invariant Contents() == was + out && out + Format(fmt[f..], args[a..]) == Format(fmt, args)
        decreases |fmt| - f
      {
        ghost var piece := Directive(fmt[f..], args[a..]).0;
        FormatStep(fmt, args, f, a);
        f, a := CatDirective(fmt, args, f, a);
        Regroup(was, out, piece);
        Regroup(out, piece, Format(fmt[f..], args[a..]));
        out := out + piece;
      }
      assert fmt[f..] == [] && out + [] == out;
      FormatEnd(args[a..]);
      Terminate();
    }
  }
}
