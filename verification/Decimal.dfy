/** Decimal text of 64-bit integers: the strict reader string2ll, the writers
    sdsll2str / sdsull2str, and the digit counter used to size commands. */
module Decimal {
  import opened Bytes

  const LLONG_MAX: int := 0x7FFF_FFFF_FFFF_FFFF
  const LLONG_MIN: int := -0x8000_0000_0000_0000
  const ULLONG_MAX: int := 0xFFFF_FFFF_FFFF_FFFF
  const TWO64: int := 0x1_0000_0000_0000_0000
  /** Bytes reserved for the text of a 64-bit integer, terminator included. */
  const LLSTR_SIZE: nat := 21

  predicate AllDigits(s: bytes) { forall i :: 0 <= i < |s| ==> IsDigit(s[i]) }

  predicate InLL(v: int) { LLONG_MIN <= v <= LLONG_MAX }

  /** The decimal text of a natural number. */
  function Dec(n: nat): bytes {
    if n < 10 then [ZERO + n] else Dec(n / 10) + [ZERO + n % 10]
  }

  /** The decimal text of an integer. */
  function DecInt(v: int): bytes {
    if v < 0 then [MINUS] + Dec(-v) else Dec(v)
  }

  /** The number a string of digits denotes. */
  function Val(s: bytes): nat
    requires AllDigits(s)
  {
    if |s| == 0 then 0 else 10 * Val(s[..|s| - 1]) + (s[|s| - 1] - ZERO)
  }

  /** Digits with no leading zero, except for "0" itself. */
  predicate Canonical(s: bytes) {
    |s| > 0 && AllDigits(s) && (|s| > 1 ==> s[0] != ZERO)
  }

  lemma {:induction false} DecCanonical(n: nat)
    ensures Canonical(Dec(n))
    ensures Val(Dec(n)) == n
    ensures n > 0 ==> Dec(n)[0] != ZERO
  {
    if n >= 10 {
      DecCanonical(n / 10);
      assert Dec(n)[..|Dec(n)| - 1] == Dec(n / 10);
    } else {
      assert Dec(n)[..0] == [];
    }
  }

  lemma {:induction false} CanonicalDec(s: bytes)
    requires Canonical(s)
    ensures Dec(Val(s)) == s
    ensures |s| > 1 ==> Val(s) >= 10
  {
    var t := s[..|s| - 1];
    if |s| == 1 {
      assert t == [];
    } else {
      CanonicalDec(t);
      if |t| == 1 {
        assert t[..0] == [];
        assert Val(t) == t[0] - ZERO;
      }
      assert Val(s) == 10 * Val(t) + (s[|s| - 1] - ZERO);
      assert Val(t) >= 1;
      assert s == t + [s[|s| - 1]];
    }
  }

  /** A longer string of digits denotes a number at least as large. */
  lemma {:induction false} ValPrefix(s: bytes, k: nat)
    requires AllDigits(s) && k <= |s|
    ensures Val(s[..k]) <= Val(s)
  {
    if k < |s| {
      ValPrefix(s[..|s| - 1], k);
      assert s[..|s| - 1][..k] == s[..k];
    } else {
      assert s[..k] == s;
    }
  }

  /** What string2ll accepts and what it returns. */
  function ReadLL(s: bytes): Option<int> {
    if Canonical(s) && Val(s) <= LLONG_MAX then Some(Val(s))
    else if |s| > 1 && s[0] == MINUS && Canonical(s[1..]) && s[1] != ZERO && Val(s[1..]) <= -LLONG_MIN
      then Some(0 - Val(s[1..]))
    else None
  }

  lemma ValPositive(s: bytes)
    requires Canonical(s) && s[0] != ZERO
    ensures Val(s) > 0
  {
    ValPrefix(s, 1);
    assert s[..1][..0] == [];
    assert Val(s[..1]) == s[0] - ZERO;
  }

  lemma ReadThenPrint(s: bytes, v: int)
    requires ReadLL(s) == Some(v)
    ensures InLL(v) && s == DecInt(v)
  {
    if Canonical(s) {
      CanonicalDec(s);
    } else {
      CanonicalDec(s[1..]);
      ValPositive(s[1..]);
      assert s == [MINUS] + s[1..];
    }
  }

  lemma PrintThenRead(v: int)
    requires InLL(v)
    ensures ReadLL(DecInt(v)) == Some(v)
  {
    if v < 0 {
      DecCanonical(-v);
      assert DecInt(v)[1..] == Dec(-v);
      assert !IsDigit(DecInt(v)[0]);
    } else {
      DecCanonical(v);
    }
  }

  /** The accepted strings are exactly the canonical decimal texts of the signed
      64-bit range, and the value is the number that was printed. */
  lemma ReadLLInvertsDec(s: bytes, v: int)
    ensures ReadLL(s) == Some(v) <==> InLL(v) && s == DecInt(v)
  {
    if ReadLL(s) == Some(v) { ReadThenPrint(s, v); }
    if InLL(v) && s == DecInt(v) { PrintThenRead(v); }
  }

  /** A string in which some digit run fails, or runs past 64 bits, is rejected. */
  lemma RejectLong(s: bytes, from: nat, k: nat)
    requires from <= 1 && from < k <= |s| && (from == 1 <==> s[0] == MINUS)
    requires AllDigits(s[from..k]) && Val(s[from..k]) > ULLONG_MAX
    ensures ReadLL(s) == None
  {
    var t := s[from..];
    if AllDigits(t) {
      ValPrefix(t, k - from);
      assert t[..k - from] == s[from..k];
    }
    if from == 0 { assert t == s; }
  }

  /** Accepted exactly when some 64-bit value prints as this text. */
  lemma ReadLLAccepts(s: bytes)
    ensures ReadLL(s).Some? <==> exists v :: InLL(v) && s == DecInt(v)
  {
    if ReadLL(s).Some? { ReadLLInvertsDec(s, ReadLL(s).value); }
    if v :| InLL(v) && s == DecInt(v) { ReadLLInvertsDec(s, v); }
  }

  /** How the verdict follows once the digit loop has stopped. */
  lemma ReadLLFromDigits(s: bytes, from: nat, k: nat)
    requires from <= 1 && from < k <= |s| && (from == 1 <==> s[0] == MINUS)
    requires AllDigits(s[from..k]) && s[from] != ZERO && (k < |s| ==> !IsDigit(s[k]))
    ensures k < |s| ==> ReadLL(s) == None
    ensures k == |s| && from == 0 ==>
      ReadLL(s) == if Val(s[from..k]) <= LLONG_MAX then Some(Val(s[from..k])) else None
    ensures k == |s| && from == 1 ==>
      ReadLL(s) == if Val(s[from..k]) <= -LLONG_MIN then Some(0 - Val(s[from..k])) else None
  {
    if k < |s| {
      assert !IsDigit(s[from..][k - from]);
      if from == 0 { assert s[from..] == s; }
    } else {
      assert s[from..k] == s[from..];
      if from == 0 { assert s[from..] == s; } else { assert !IsDigit(s[0]); }
    }
  }

  lemma ValSnoc(s: bytes, c: byte)
    requires AllDigits(s) && IsDigit(c)
    ensures AllDigits(s + [c]) && Val(s + [c]) == 10 * Val(s) + (c - ZERO)
  {
    assert (s + [c])[..|s|] == s;
  }

  /** The digit loop of string2ll: stops at the first other byte, and gives up
      before the unsigned accumulator would wrap. */
  method DigitRun(s: bytes, from: nat) returns (ok: bool, v: nat, plen: nat)
    requires from <= 1 && from < |s| && (from == 1 <==> s[0] == MINUS)
    requires IsDigit(s[from]) && s[from] != ZERO
    ensures !ok ==> ReadLL(s) == None
    ensures ok ==> from < plen <= |s| && AllDigits(s[from..plen]) && (plen < |s| ==> !IsDigit(s[plen]))
    ensures ok ==> 0 < v <= ULLONG_MAX && v == Val(s[from..plen])
  {
    ok := true;
    v := s[from] - ZERO;
    plen := from + 1;
    ValSnoc([], s[from]);
    assert s[from..plen] == [] + [s[from]];
    while plen < |s| && IsDigit(s[plen])
      invariant from < plen <= |s|
      invariant AllDigits(s[from..plen])
      invariant 0 < v <= ULLONG_MAX && v == Val(s[from..plen])
    {
      ValSnoc(s[from..plen], s[plen]);
      assert s[from..plen + 1] == s[from..plen] + [s[plen]];
      if v > ULLONG_MAX / 10 {
        RejectLong(s, from, plen + 1);
        return false, v, plen;
      }
      v := v * 10;
      if v > ULLONG_MAX - (s[plen] - ZERO) {
        RejectLong(s, from, plen + 1);
        return false, v, plen;
      }
      v := v + (s[plen] - ZERO);
      plen := plen + 1;
    }
  }

  /** string2ll: a strict reader over an unsigned 64-bit accumulator. */
  method String2ll(s: bytes) returns (r: Option<int>)
    ensures r == ReadLL(s)
  {
    var slen := |s|;
    var plen := 0;
    var negative := false;
    if plen == slen { return None; }
    if slen == 1 && s[0] == ZERO {
      PrintThenRead(0);
      assert s == DecInt(0);
      return Some(0);
    }
    if s[0] == MINUS {
      negative := true;
      plen := 1;
      if plen == slen { return None; }
    }
    if !(ZERO + 1 <= s[plen] <= 57) { return None; }
    ghost var from := plen;
    var ok, v;
    ok, v, plen := DigitRun(s, plen);
    if !ok { return None; }
    ReadLLFromDigits(s, from, plen);
    if plen < slen { return None; }
    if negative {
      if v > -(LLONG_MIN + 1) + 1 { return None; }
      // unsigned negation, then reinterpretation as a signed value
      var u := (TWO64 - v) % TWO64;
      return Some(if u > LLONG_MAX then u - TWO64 else u);
    }
    if v > LLONG_MAX { return None; }
    return Some(v);
  }

  /** Number of decimal digits. */
  lemma {:induction false} DecLength(n: nat)
    ensures |Dec(n)| >= 1
    ensures n >= 10 ==> |Dec(n)| == 1 + |Dec(n / 10)|
  {
  }

  /** countDigits strips four digits a round. */
  method CountDigits(value: nat) returns (result: nat)
    ensures result == |Dec(value)|
  {
    var v := value;
    result := 1;
    while true
      invariant result - 1 + |Dec(v)| == |Dec(value)|
      decreases v
    {
      if v < 10 { return result; }
      if v < 100 { DecLength(v); return result + 1; }
      if v < 1000 { DecLength(v); DecLength(v / 10); return result + 2; }
      if v < 10000 { DecLength(v); DecLength(v / 10); DecLength(v / 10 / 10); return result + 3; }
      DecLength(v); DecLength(v / 10); DecLength(v / 100); DecLength(v / 1000);
      assert v / 10 / 10 == v / 100 && v / 100 / 10 == v / 1000 && v / 1000 / 10 == v / 10000;
      v := v / 10000;
      result := result + 4;
    }
  }

  function Reverse(s: bytes): (r: bytes)
    ensures |r| == |s|
    ensures forall i :: 0 <= i < |s| ==> r[i] == s[|s| - 1 - i]
  {
    if |s| == 0 then [] else Reverse(s[1..]) + [s[0]]
  }

  function Pow10(k: nat): nat { if k == 0 then 1 else 10 * Pow10(k - 1) }

  /** A decimal text of an unsigned 64-bit value has at most 20 digits. */
  lemma {:induction false} DecFits(n: nat, digits: nat, bound: nat)
    requires digits >= 1 && n < bound && bound == Pow10(digits)
    ensures |Dec(n)| <= digits
  {
    if n >= 10 {
      assert digits >= 2;
      DecFits(n / 10, digits - 1, Pow10(digits - 1));
    }
  }

  lemma DecFits64(n: nat)
    requires n <= ULLONG_MAX
    ensures |Dec(n)| <= 20
    ensures n <= -LLONG_MIN ==> |Dec(n)| <= 19
  {
    assert Pow10(5) == 100000 by { assert Pow10(2) == 100; assert Pow10(4) == 10000; }
    assert Pow10(10) == 10000000000 by { assert Pow10(7) == 10000000; }
    assert Pow10(15) == 1000000000000000 by { assert Pow10(12) == 1000000000000; }
    assert Pow10(18) == 1000000000000000000;
    assert Pow10(19) == 10000000000000000000;
    assert Pow10(20) == 100000000000000000000;
    DecFits(n, 20, Pow10(20));
    if n <= -LLONG_MIN { DecFits(n, 19, Pow10(19)); }
  }

  lemma ReverseSnoc(s: bytes, c: byte)
    ensures Reverse(s + [c]) == [c] + Reverse(s)
  {
  }

  /** The digit loop: least significant digit first. */
  method WriteBackwards(s: array<byte>, magnitude: nat) returns (p: nat)
    requires s.Length >= |Dec(magnitude)|
    modifies s
    ensures p == |Dec(magnitude)| && Reverse(s[..p]) == Dec(magnitude)
  {
    var v := magnitude;
    p := 0;
    var more := true;
    while more
      invariant more || v == 0
      invariant p + (if more then |Dec(v)| else 0) == |Dec(magnitude)|
      invariant (if more then Dec(v) else []) + Reverse(s[..p]) == Dec(magnitude)
      decreases more, v
    {
      ghost var done := s[..p];
      s[p] := ZERO + v % 10;
      assert s[..p + 1] == done + [ZERO + v % 10];
      ReverseSnoc(done, ZERO + v % 10);
      p := p + 1;
      v := v / 10;
      more := v != 0;
    }
  }

  /** Swaps from both ends towards the middle. */
  method ReverseInPlace(s: array<byte>, l: nat)
    requires 0 < l < s.Length
    modifies s
    ensures s[..l] == Reverse(old(s[..l]))
    ensures s[l..] == old(s[l..])
  {
    var lo, hi := 0, l - 1;
    while lo < hi
      invariant 0 <= lo <= hi + 1 <= l && lo + hi == l - 1
      invariant forall i :: 0 <= i < lo ==> s[i] == old(s[l - 1 - i]) && s[l - 1 - i] == old(s[i])
      invariant forall i :: lo <= i <= hi ==> s[i] == old(s[i])
      invariant s[l..] == old(s[l..])
    {
      s[lo], s[hi] := s[hi], s[lo];
      lo := lo + 1;
      hi := hi - 1;
    }
    ghost var was := old(s[..l]);
    assert forall i :: 0 <= i < l ==> s[i] == was[l - 1 - i];
  }

  /** Writes the digits of `magnitude` backwards from index 0, optionally a minus
      sign, a terminator, and then turns the text round in place. */
  method WriteDigits(s: array<byte>, magnitude: nat, negative: bool) returns (l: nat)
    requires s.Length >= LLSTR_SIZE
    requires magnitude <= if negative then -LLONG_MIN else ULLONG_MAX
    modifies s
    ensures l + 1 <= LLSTR_SIZE
    ensures s[..l] == (if negative then [MINUS] else []) + Dec(magnitude)
    ensures s[l] == NUL
  {
    DecFits64(magnitude);
    var p := WriteBackwards(s, magnitude);
    label AfterDigits:
    if negative {
      ReverseSnoc(s[..p], MINUS);
      s[p] := MINUS;
      p := p + 1;
      assert s[..p] == old@AfterDigits(s[..p - 1]) + [MINUS];
    }
    l := p;
    s[p] := NUL;
    ReverseInPlace(s, l);
  }

  lemma Magnitude(value: int)
    requires InLL(value)
    ensures value < 0 ==> (TWO64 - value) % TWO64 == -value
  {
  }

  /** sdsll2str: text and terminator fit the 21 reserved bytes for every value. */
  method Ll2str(s: array<byte>, value: int) returns (l: nat)
    requires s.Length >= LLSTR_SIZE && InLL(value)
    modifies s
    ensures l + 1 <= LLSTR_SIZE
    ensures s[..l] == DecInt(value) && s[l] == NUL
    ensures ReadLL(s[..l]) == Some(value)
  {
    // -value wraps for the minimum; read as unsigned it is the magnitude
    Magnitude(value);
    hide Dec, ReadLL;
    var v := if value < 0 then (TWO64 - value) % TWO64 else value;
    l := WriteDigits(s, v, value < 0);
    assert value >= 0 ==> [] + Dec(v) == Dec(v);
    ReadLLInvertsDec(s[..l], value);
  }

  /** sdsull2str */
  method Ull2str(s: array<byte>, v: nat) returns (l: nat)
    requires s.Length >= LLSTR_SIZE && v <= ULLONG_MAX
    modifies s
    ensures l + 1 <= LLSTR_SIZE
    ensures s[..l] == Dec(v) && s[l] == NUL
  {
    l := WriteDigits(s, v, false);
  }
}
