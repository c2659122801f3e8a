/**
 * PHP's urldecode() and rawurldecode(), written out character by character,
 * with urlencode() and rawurlencode() as their inverses.
 * Strings stand for byte strings: a decoded "%XY" is the character with
 * code 0xXY.
 */
module UrlCoding {
  import opened Text

  predicate IsHexDigit(c: char)
  {
    IsDigit(c) || 'a' <= c <= 'f' || 'A' <= c <= 'F'
  }

  function HexValue(c: char): (n: nat)
    requires IsHexDigit(c)
    ensures n < 16
  {
    if IsDigit(c) then DigitValue(c)
    else if 'a' <= c <= 'f' then c as int - 'a' as int + 10
    else c as int - 'A' as int + 10
  }

  /** The upper-case hex digit PHP's encoders emit. */
  function HexChar(n: nat): (c: char)
    requires n < 16
    ensures IsHexDigit(c) && HexValue(c) == n
  {
    if n < 10 then DigitChar(n) else ('A' as int + n - 10) as char
  }

  /** A byte string: every character stands for one byte. */
  predicate IsBytes(s: string)
  {
    forall i :: 0 <= i < |s| ==> s[i] as int < 256
  }

  /**
   * The decoder behind both PHP functions: "%" and two hex digits become
   * that byte; with `plus`, "+" becomes a space; everything else, including
   * a "%" not followed by two hex digits, is copied.
   */
  function Decode(s: string, plus: bool): (r: string)
    ensures |r| <= |s|
  {
    if s == [] then []
    else if s[0] == '%' && 3 <= |s| && IsHexDigit(s[1]) && IsHexDigit(s[2]) then
      [(HexValue(s[1]) * 16 + HexValue(s[2])) as char] + Decode(s[3..], plus)
    else if plus && s[0] == '+' then
      [' '] + Decode(s[1..], plus)
    else
      [s[0]] + Decode(s[1..], plus)
  }

  /** urldecode() */
  function UrlDecode(s: string): string
  {
    Decode(s, true)
  }

  /** rawurldecode() */
  function RawUrlDecode(s: string): string
  {
    Decode(s, false)
  }

  /** The characters each encoder leaves as they are: rawurlencode() also keeps "~". */
  predicate Unreserved(c: char, plus: bool)
  {
    IsAlnum(c) || c == '-' || c == '_' || c == '.' || (!plus && c == '~')
  }

  /** How each encoder writes one byte. */
  function EncodeByte(c: char, plus: bool): (r: string)
    requires c as int < 256
    ensures 1 <= |r| <= 3
  {
    if Unreserved(c, plus) then [c]
    else if plus && c == ' ' then "+"
    else ['%', HexChar(c as int / 16), HexChar(c as int % 16)]
  }

  /** urlencode() (with `plus`: a space becomes "+") and rawurlencode() (without). */
  function Encode(s: string, plus: bool): (r: string)
    requires IsBytes(s)
    ensures |r| >= |s|
  {
    if s == [] then [] else EncodeByte(s[0], plus) + Encode(s[1..], plus)
  }

  /** The two hex digits written for a byte give that byte back. */
  lemma HexPair(n: nat)
    requires n < 256
    ensures HexValue(HexChar(n / 16)) * 16 + HexValue(HexChar(n % 16)) == n
  {
  }

  /** The decoder reads one encoded byte back, whatever follows it. */
  lemma DecodeByte(c: char, plus: bool, rest: string)
    requires c as int < 256
    ensures Decode(EncodeByte(c, plus) + rest, plus) == [c] + Decode(rest, plus)
  {
    var e := EncodeByte(c, plus) + rest;
    if Unreserved(c, plus) {
      assert e[0] == c && c != '%' && c != '+';
      assert e[1..] == rest;
    } else if plus && c == ' ' {
      assert e[0] == '+';
      assert e[1..] == rest;
    } else {
      var hi, lo := HexChar(c as int / 16), HexChar(c as int % 16);
      assert e == ['%', hi, lo] + rest;
      assert e[3..] == rest;
      HexPair(c as int);
      assert (HexValue(e[1]) * 16 + HexValue(e[2])) as char == c;
    }
  }

  /** Decoding undoes encoding: a urlencoded or rawurlencoded byte string decodes to itself. */
  lemma {:induction false} DecodeEncode(s: string, plus: bool)
    requires IsBytes(s)
    ensures Decode(Encode(s, plus), plus) == s
  {
    if s != [] {
      DecodeEncode(s[1..], plus);
      DecodeByte(s[0], plus, Encode(s[1..], plus));
      assert s == [s[0]] + s[1..];
    }
  }

  /** Text with no "%" (and, for urldecode(), no "+") decodes to itself. */
  lemma {:induction false} DecodePlain(s: string, plus: bool)
    requires '%' !in s && (plus ==> '+' !in s)
    ensures Decode(s, plus) == s
  {
    if s != [] {
      assert s[0] in s;
      assert forall c :: c in s[1..] ==> c in s;
      DecodePlain(s[1..], plus);
      assert s == [s[0]] + s[1..];
    }
  }
}
