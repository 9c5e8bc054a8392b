/** Bytes, byte strings and ASCII case, shared by the matcher, the RESP front end and the access rules. */
module Bytes {
  newtype byte = b: int | 0 <= b < 256

  type bytes = seq<byte>

  const CR: byte := 13
  const LF: byte := 10
  const CRLF: bytes := [CR, LF]
  const TAB: byte := 9
  const SPACE: byte := 32
  const DOLLAR: byte := 36 // '$'
  const STAR: byte := 42 // '*'
  const PLUS: byte := 43 // '+'
  const MINUS: byte := 45 // '-'
  const ZERO: byte := 48 // '0'
  const COLON: byte := 58 // ':'
  const QUESTION: byte := 63 // '?'
  const OPEN_BRACKET: byte := 91 // '['
  const CLOSE_BRACKET: byte := 93 // ']'

  const ALL: bytes := [97, 108, 108] // "all"

  // ----- ASCII case

  function LowerByte(c: byte): byte {
    if 65 <= c <= 90 then c + 32 else c
  }

  function UpperByte(c: byte): byte {
    if 97 <= c <= 122 then c - 32 else c
  }

  function Lower(s: bytes): (r: bytes)
    ensures |r| == |s| && forall i :: 0 <= i < |s| ==> r[i] == LowerByte(s[i])
  {
    seq(|s|, i requires 0 <= i < |s| => LowerByte(s[i]))
  }

  function Upper(s: bytes): (r: bytes)
    ensures |r| == |s| && forall i :: 0 <= i < |s| ==> r[i] == UpperByte(s[i])
  {
    seq(|s|, i requires 0 <= i < |s| => UpperByte(s[i]))
  }

  lemma FoldTwice(s: bytes)
    ensures Lower(Lower(s)) == Lower(s) && Upper(Upper(s)) == Upper(s) && Upper(Lower(Upper(s))) == Upper(s)
  {
  }

  /** The same letter, large or small, or the same other byte: 'A' to 'Z' are 65 to 90, 'a' to 'z' are 32 above. */
  predicate SameLetter(a: byte, b: byte) {
    a == b || (65 <= a <= 90 && b == a + 32) || (65 <= b <= 90 && a == b + 32)
  }

  /** The same text but for the case of letters. */
  predicate SameButCase(x: bytes, y: bytes) {
    |x| == |y| && forall i :: 0 <= i < |x| ==> SameLetter(x[i], y[i])
  }

  /** Folding forgets the case of letters and nothing else. */
  lemma FoldIff(x: bytes, y: bytes)
    ensures Upper(x) == Upper(y) <==> SameButCase(x, y)
    ensures Lower(x) == Lower(y) <==> SameButCase(x, y)
  {
    forall i | 0 <= i < |x| && i < |y|
      ensures UpperByte(x[i]) == UpperByte(y[i]) <==> SameLetter(x[i], y[i])
      ensures LowerByte(x[i]) == LowerByte(y[i]) <==> SameLetter(x[i], y[i])
    {
    }
    if Upper(x) == Upper(y) {
      assert |x| == |Upper(x)| == |Upper(y)| == |y|;
      assert forall i :: 0 <= i < |x| ==> Upper(x)[i] == UpperByte(x[i]) && Upper(y)[i] == UpperByte(y[i]);
    }
    if Lower(x) == Lower(y) {
      assert |x| == |Lower(x)| == |Lower(y)| == |y|;
      assert forall i :: 0 <= i < |x| ==> Lower(x)[i] == LowerByte(x[i]) && Lower(y)[i] == LowerByte(y[i]);
    }
  }

  /** And leaves no letter of the other case. */
  lemma FoldedCase(x: bytes)
    ensures SameButCase(Upper(x), x) && forall i :: 0 <= i < |x| ==> !(97 <= Upper(x)[i] <= 122)
    ensures SameButCase(Lower(x), x) && forall i :: 0 <= i < |x| ==> !(65 <= Lower(x)[i] <= 90)
  {
  }
}
