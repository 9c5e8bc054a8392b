/**
 Decimal integers as the RESP front end prints and reads them: the two digit printers, the wrapping reader of
 the request parser and the checked reader of the reply scanner.
 */
module Decimal {
  import opened Bytes
  import opened Options

  const TWO63: int := 0x8000_0000_0000_0000
  const TWO64: int := 0x1_0000_0000_0000_0000
  const I64_MAX: int := TWO63 - 1

  /** Two's-complement reduction to 64 bits. */
  function Wrap64(x: int): (w: int)
    ensures -TWO63 <= w < TWO63
    ensures -TWO63 <= x < TWO63 ==> w == x
  {
    (x + TWO63) % TWO64 - TWO63
  }

  // ----- what a decimal numeral means

  predicate IsDigit(b: byte) { ZERO <= b <= ZERO + 9 }

  predicate AllDigits(s: bytes) { forall i :: 0 <= i < |s| ==> IsDigit(s[i]) }

  /** The number an all-digit string denotes; leading zeros are allowed. */
  function Value(s: bytes): nat
    requires AllDigits(s)
  {
    if s == [] then 0 else 10 * Value(s[..|s| - 1]) + (s[|s| - 1] - ZERO) as nat
  }

  predicate Signed(s: bytes) { s != [] && (s[0] == MINUS || s[0] == PLUS) }

  function Unsigned(s: bytes): bytes { if Signed(s) then s[1..] else s }

  predicate IsNumeral(s: bytes) { Unsigned(s) != [] && AllDigits(Unsigned(s)) }

  /** The integer a numeral with an optional sign denotes. */
  function Denotes(s: bytes): int
    requires IsNumeral(s)
  {
    if s[0] == MINUS then -(Value(Unsigned(s)) as int) else Value(Unsigned(s))
  }

  // ----- printing

  function Digits(n: nat): (s: bytes)
    ensures |s| > 0 && AllDigits(s)
  {
    if n < 10 then [ZERO + n as byte] else Digits(n / 10) + [ZERO + (n % 10) as byte]
  }

  /** The canonical decimal form. */
  function Print(n: int): bytes {
    if n < 0 then [MINUS] + Digits(-n) else Digits(n)
  }

  function Pow10(k: nat): nat { if k == 0 then 1 else 10 * Pow10(k - 1) }

  lemma {:induction false} DigitsShort(n: nat, k: nat)
    requires k > 0 && n < Pow10(k)
    ensures |Digits(n)| <= k
    decreases k
  {
    if n >= 10 {
      assert k > 1 by { assert Pow10(1) == 10 * Pow10(0); }
      DigitsShort(n / 10, k - 1);
    }
  }

  lemma I64Fits(n: nat)
    requires n <= I64_MAX
    ensures |Digits(n)| <= 19
  {
    assert Pow10(5) == 100_000;
    assert Pow10(10) == 10_000_000_000;
    assert Pow10(15) == 1_000_000_000_000_000;
    assert Pow10(19) == 10_000_000_000_000_000_000;
    DigitsShort(n, 19);
  }

  lemma {:induction false} ValueOfDigits(n: nat)
    ensures Value(Digits(n)) == n
  {
    if n >= 10 {
      ValueOfDigits(n / 10);
      assert Digits(n)[..|Digits(n)| - 1] == Digits(n / 10);
    }
  }

  /** Printing is a right inverse of the meaning of numerals. */
  lemma PrintDenotes(n: int)
    ensures IsNumeral(Print(n)) && Denotes(Print(n)) == n
    ensures forall i :: 0 <= i < |Print(n)| ==> IsDigit(Print(n)[i]) || Print(n)[i] == MINUS
  {
    if n < 0 {
      ValueOfDigits(-n);
      assert Unsigned(Print(n)) == Digits(-n);
    } else {
      ValueOfDigits(n);
      assert Print(n)[0] != MINUS && Print(n)[0] != PLUS;
    }
  }

  lemma {:induction false} ValueGrows(s: bytes, i: nat)
    requires AllDigits(s) && i <= |s|
    ensures Value(s[..i]) <= Value(s)
    decreases |s|
  {
    if i == |s| {
      assert s[..i] == s;
    } else {
      ValueGrows(s[..|s| - 1], i);
      assert s[..|s| - 1][..i] == s[..i];
    }
  }

  lemma {:induction false} WrapShift(x: int, k: int)
    ensures Wrap64(x + k * TWO64) == Wrap64(x)
    decreases if k < 0 then -k else k
  {
    if k > 0 {
      WrapShift(x + TWO64, k - 1);
    } else if k < 0 {
      WrapShift(x - TWO64, k + 1);
    }
  }

  /** Reducing early or late makes no difference: one step of the wrapping reader. */
  lemma WrapStep(x: int, d: int)
    ensures Wrap64(Wrap64(Wrap64(x) * 10) + d) == Wrap64(10 * x + d)
  {
    var q := (x + TWO63) / TWO64;
    assert Wrap64(x) == x + (-q) * TWO64;
    WrapShift(10 * x, -10 * q);
    assert Wrap64(x) * 10 == 10 * x + (-10 * q) * TWO64;
    var y := 10 * x;
    var p := (y + TWO63) / TWO64;
    assert Wrap64(y) == y + (-p) * TWO64;
    WrapShift(y + d, -p);
  }

  // ----- the readers

  /** The reader of the request parser: any signed numeral, reduced to 64 bits; None is its error. */
  function ParseWrapping(s: bytes): Option<int> {
    if !IsNumeral(s) then None
    else if s[0] == MINUS then Some(Wrap64(-Wrap64(Value(Unsigned(s)))))
    else Some(Wrap64(Value(Unsigned(s))))
  }

  method ParseI64(s: bytes) returns (r: Option<int>)
    ensures r == ParseWrapping(s)
  {
    if s == [] {
      return None;
    }
    var neg, rest := false, s;
    if s[0] == MINUS {
      neg, rest := true, s[1..];
    } else if s[0] == PLUS {
      rest := s[1..];
    }
    assert rest == Unsigned(s);
    if rest == [] {
      return None;
    }
    var n := 0;
    for i := 0 to |rest|
      invariant AllDigits(rest[..i]) && n == Wrap64(Value(rest[..i]))
    {
      if !(ZERO <= rest[i] <= ZERO + 9) {
        return None;
      }
      assert rest[..i + 1][..i] == rest[..i];
      WrapStep(Value(rest[..i]), (rest[i] - ZERO) as int);
      n := Wrap64(Wrap64(n * 10) + (rest[i] - ZERO) as int);
    }
    assert rest[..|rest|] == rest;
    if neg {
      n := Wrap64(-n);
    }
    return Some(n);
  }

  /** The reader of the reply scanner and of command arguments: None on a non-numeral or on overflow. */
  function ParseChecked(s: bytes): Option<int> {
    if IsNumeral(s) && Value(Unsigned(s)) <= I64_MAX then Some(Denotes(s)) else None
  }

  method ParseInt(s: bytes) returns (r: Option<int>)
    ensures r == ParseChecked(s)
  {
    if s == [] {
      return None;
    }
    var neg, rest := false, s;
    if s[0] == MINUS {
      neg, rest := true, s[1..];
    } else if s[0] == PLUS {
      rest := s[1..];
    }
    assert rest == Unsigned(s);
    if rest == [] {
      return None;
    }
    var n := 0;
    for i := 0 to |rest|
      invariant AllDigits(rest[..i]) && n == Value(rest[..i]) <= I64_MAX
    {
      if !(ZERO <= rest[i] <= ZERO + 9) {
        return None;
      }
      assert rest[..i + 1][..i] == rest[..i];
      if AllDigits(rest) {
        ValueGrows(rest, i + 1);
      }
      n := n * 10;
      if n > I64_MAX {
        return None;
      }
      n := n + (rest[i] - ZERO) as int;
      if n > I64_MAX {
        return None;
      }
    }
    assert rest[..|rest|] == rest;
    return Some(if neg then -n else n);
  }

  /** Both readers undo the printer on every 64-bit value but the least one, which the printer cannot negate. */
  lemma ReadersUndoPrint(n: int)
    requires -I64_MAX <= n <= I64_MAX
    ensures ParseWrapping(Print(n)) == Some(n)
    ensures ParseChecked(Print(n)) == Some(n)
  {
    PrintDenotes(n);
  }

  /**
   What the printers write: the decimal form, except that the least 64-bit integer, whose negation wraps around to
   itself, is written as a sign without digits.
   */
  function Written(n: int): bytes {
    if n == -TWO63 then [MINUS] else Print(n)
  }

  /** Each reader recovers what was written exactly for every integer but that one. */
  lemma ReadersUndoWrittenIff(n: int)
    requires -TWO63 <= n <= I64_MAX
    ensures ParseWrapping(Written(n)) == Some(n) <==> n != -TWO63
    ensures ParseChecked(Written(n)) == Some(n) <==> n != -TWO63
  {
    if n != -TWO63 {
      ReadersUndoPrint(n);
    }
  }

  // ----- the printers

  /** A growable byte buffer whose front can be split off. */
  class ByteBuf {
    var data: bytes

    constructor ()
      ensures data == []
    {
      data := [];
    }

    method Extend(s: bytes)
      modifies this
      ensures data == old(data) + s
    {
      data := data + s;
    }

    method SplitTo(at: nat) returns (front: bytes)
      requires at <= |data|
      modifies this
      ensures front == old(data[..at]) && data == old(data[at..])
    {
      front := data[..at];
      data := data[at..];
    }

    method Clear()
      modifies this
      ensures data == []
    {
      data := [];
    }
  }

  /** Fill tmp from its end with the digits of n; they occupy tmp[i..]. */
  method FillDigits(tmp: array<byte>, n: nat) returns (i: nat)
    requires 0 < n <= I64_MAX && tmp.Length == 20
    modifies tmp
    ensures i <= 20 && tmp[i..] == Digits(n)
  {
    i := tmp.Length;
    I64Fits(n);
    var m := n;
    while m > 0
      invariant 0 <= i <= 20 && 0 <= m <= n
      invariant m > 0 ==> Digits(m) + tmp[i..] == Digits(n)
      invariant m == 0 ==> tmp[i..] == Digits(n)
      decreases m
    {
      ghost var tail := tmp[i..];
      assert m > 0 && |Digits(m)| >= 1;
      assert |Digits(n)| <= 19;
      assert |Digits(m) + tail| == |Digits(m)| + (20 - i);
      i := i - 1;
      tmp[i] := ZERO + (m % 10) as byte;
      assert tmp[i..] == [ZERO + (m % 10) as byte] + tail;
      assert m >= 10 ==> Digits(m) + tail == Digits(m / 10) + tmp[i..];
      m := m / 10;
    }
  }

  /** Append what is written for n to b. */
  method WriteInt(b: ByteBuf, n: int)
    requires -TWO63 <= n <= I64_MAX
    modifies b
    ensures b.data == old(b.data) + Written(n)
  {
    hide Digits;
    var buf := new byte[20];
    var i := buf.Length;
    var neg, m := n < 0, if n < 0 then Wrap64(-n) else n;
    NegationWraps(n);
    if m == 0 {
      i := i - 1;
      buf[i] := ZERO;
      ZeroPrints();
    } else if m > 0 {
      i := FillDigits(buf, m);
    }
    assert b.data + [MINUS] + buf[i..] == b.data + ([MINUS] + buf[i..]);
    if neg {
      b.Extend([MINUS]);
    }
    b.Extend(buf[i..]);
  }

  lemma NegationWraps(n: int)
    requires -TWO63 <= n <= I64_MAX
    ensures n < 0 ==> Wrap64(-n) == if n == -TWO63 then n else -n
  {
  }

  lemma ZeroPrints()
    ensures Digits(0) == [ZERO]
  {
  }

  /** Copy src[i..] over dst from position at on. */
  method CopyInto(dst: array<byte>, at: nat, src: array<byte>, i: nat)
    requires dst != src && i <= src.Length && at + (src.Length - i) <= dst.Length
    modifies dst
    ensures dst[..] == old(dst[..at]) + src[i..] + old(dst[at + (src.Length - i)..])
  {
    forall k | at <= k < at + (src.Length - i) {
      dst[k] := src[i + k - at];
    }
  }

  /** Write the same into dst from position off on; returns its length. */
  method FormatIntInto(dst: array<byte>, off: nat, n: int) returns (written: nat)
    requires -TWO63 <= n <= I64_MAX && off + 20 <= dst.Length
    modifies dst
    ensures written == |Written(n)| && written <= 20
    ensures dst[..] == old(dst[..off]) + Written(n) + old(dst[off + written..])
  {
    hide Digits;
    ghost var was := dst[..];
    if n == 0 {
      dst[off] := ZERO;
      ZeroPrints();
      return 1;
    }
    NegationWraps(n);
    var negative, m := n < 0, if n < 0 then Wrap64(-n) else n;
    var tmp := new byte[20];
    var i := 20;
    if m > 0 {
      I64Fits(m);
      i := FillDigits(tmp, m);
    }
    ghost var digits := tmp[i..];
    if negative {
      dst[off] := MINUS;
      assert dst[..off + 1] == was[..off] + [MINUS];
      assert dst[off + 1 + (20 - i)..] == was[off + 1 + (20 - i)..];
      CopyInto(dst, off + 1, tmp, i);
      written := 1 + (20 - i);
      assert was[..off] + [MINUS] + digits == was[..off] + ([MINUS] + digits);
    } else {
      CopyInto(dst, off, tmp, i);
      written := 20 - i;
    }
  }
}
