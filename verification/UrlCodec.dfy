/** Percent encoding (src/Util.cpp). */
module UrlCodec {
  import opened Wrappers
  import opened Bytes

  const SPACE: byte := 0x20
  const PERCENT: byte := 0x25
  const AMPERSAND: byte := 0x26
  const PLUS: byte := 0x2B
  const EQUALS: byte := 0x3D

  predicate Between(lo: byte, c: byte, hi: byte) {
    lo <= c <= hi
  }

  /** The table of bytes that stand for themselves.  The equals sign is one of them. */
  predicate Unreserved(c: byte) {
    || c == 0x2D || c == 0x2E || Between(0x30, c, 0x39) || c == EQUALS
    || Between(0x41, c, 0x5A) || c == 0x5F || Between(0x61, c, 0x7A) || c == 0x7E
  }

  function HexDigit(n: nat): byte
    requires n < 16
  {
    if n < 10 then 0x30 + n else 0x41 + (n - 10)
  }

  /** `isxdigit`: both cases. */
  predicate IsHex(c: byte) {
    Between(0x30, c, 0x39) || Between(0x41, c, 0x46) || Between(0x61, c, 0x66)
  }

  function HexValue(c: byte): (n: nat)
    requires IsHex(c)
    ensures n < 16
  {
    if c <= 0x39 then c - 0x30 else if c <= 0x46 then c - 0x41 + 10 else c - 0x61 + 10
  }

  function EncodedByte(c: byte, plus: bool): (r: bytes)
    ensures |r| > 0
  {
    if Unreserved(c) then [c]
    else if c == SPACE && plus then [PLUS]
    else [PERCENT, HexDigit(c / 16), HexDigit(c % 16)]
  }

  function Encoded(s: bytes, plus: bool): bytes {
    if s == [] then [] else EncodedByte(s[0], plus) + Encoded(s[1..], plus)
  }

  predicate Escape(s: bytes) {
    |s| >= 3 && s[0] == PERCENT && IsHex(s[1]) && IsHex(s[2])
  }

  /** A percent sign that does not start an escape stands for itself. */
  function Decoded(s: bytes, plus: bool): bytes
    decreases |s|
  {
    if s == [] then []
    else if s[0] == PLUS && plus then [SPACE as byte] + Decoded(s[1..], plus)
    else if Escape(s) then [(HexValue(s[1]) * 16 + HexValue(s[2])) as byte] + Decoded(s[3..], plus)
    else [s[0]] + Decoded(s[1..], plus)
  }

  // ---------------------------------------------------------------- the loops

  lemma {:induction false} EncodedAppend(s: bytes, c: byte, plus: bool)
    ensures Encoded(s + [c], plus) == Encoded(s, plus) + EncodedByte(c, plus)
    decreases |s|
  {
    if s == [] {
      assert s + [c] == [c] && [c][1..] == [];
    } else {
      assert (s + [c])[1..] == s[1..] + [c];
      EncodedAppend(s[1..], c, plus);
    }
  }

  lemma EncodedTurn(str: bytes, i: nat, plus: bool)
    requires i < |str|
    ensures Encoded(str[..i + 1], plus) == Encoded(str[..i], plus) + EncodedByte(str[i], plus)
  {
    assert str[..i + 1] == str[..i] + [str[i]];
    EncodedAppend(str[..i], str[i], plus);
  }

  /** What has been produced after `i` bytes: the string, if it has been made, or the text. */
  function Made(ss: Option<bytes>, str: bytes, i: nat): bytes
    requires i <= |str|
  {
    if ss.Some? then ss.value else str[..i]
  }

  /** The result string is made only once a byte needs escaping; until then the encoding of
      what has been passed is the text itself. */
  method UrlEncode(str: bytes, spaceAsPlus: bool) returns (r: bytes)
    ensures r == Encoded(str, spaceAsPlus)
  {
    var ss: Option<bytes> := None;
    for i := 0 to |str|
      invariant Made(ss, str, i) == Encoded(str[..i], spaceAsPlus)
    {
      var c := str[i];
      EncodedTurn(str, i, spaceAsPlus);
      if !Unreserved(c) {
        if ss == None {
          ss := Some(str[..i]);
        }
        if c == SPACE && spaceAsPlus {
          ss := Some(ss.value + [PLUS]);
        } else {
          ss := Some(ss.value + [PERCENT, HexDigit(c / 16), HexDigit(c % 16)]);
        }
      } else if ss.Some? {
        ss := Some(ss.value + [c]);
      } else {
        assert str[..i + 1] == str[..i] + [c];
      }
    }
    assert str[..|str|] == str;
    r := if ss == None then str else ss.value;
  }

  /** One turn of the decoding loop: the byte made, and how much text it was made from. */
  function Turn(str: bytes, i: nat, plus: bool): (byte, nat)
    requires i < |str|
  {
    if str[i] == PLUS && plus then (SPACE, 1)
    else if str[i] == PERCENT && i + 2 < |str| && IsHex(str[i + 1]) && IsHex(str[i + 2]) then
      (HexValue(str[i + 1]) * 16 + HexValue(str[i + 2]), 3)
    else (str[i], 1)
  }

  lemma {:induction false} DecodedStep(str: bytes, i: nat, plus: bool)
    requires i < |str|
    ensures var (c, n) := Turn(str, i, plus);
            i + n <= |str| && Decoded(str[i..], plus) == [c] + Decoded(str[i + n..], plus)
  {
    var rest, n := str[i..], Turn(str, i, plus).1;
    assert rest[n..] == str[i + n..];
    assert n == 3 <==> Escape(rest) && !(rest[0] == PLUS && plus);
  }

  lemma {:induction false} DecodedTurn(str: bytes, i: nat, plus: bool, made: bytes, c: byte, n: nat)
    requires i < |str| && made + Decoded(str[i..], plus) == Decoded(str, plus) && (c, n) == Turn(str, i, plus)
    ensures i + n <= |str| && (made + [c]) + Decoded(str[i + n..], plus) == Decoded(str, plus)
  {
    DecodedStep(str, i, plus);
    assert (made + [c]) + Decoded(str[i + n..], plus) == made + ([c] + Decoded(str[i + n..], plus));
  }

  /** As above, the result string is made only when it is needed. */
  method UrlDecode(str: bytes, spaceAsPlus: bool) returns (r: bytes)
    ensures r == Decoded(str, spaceAsPlus)
  {
    var ss: Option<bytes> := None;
    var i := 0;
    while i < |str|
      invariant i <= |str| && Made(ss, str, i) + Decoded(str[i..], spaceAsPlus) == Decoded(str, spaceAsPlus)
    {
      var c := str[i];
      ghost var (x, n) := Turn(str, i, spaceAsPlus);
      ghost var made := Made(ss, str, i);
      DecodedTurn(str, i, spaceAsPlus, made, x, n);
      if c == PLUS && spaceAsPlus {
        ss := Some((if ss == None then str[..i] else ss.value) + [SPACE]);
        i := i + 1;
      } else if c == PERCENT && i + 2 < |str| && IsHex(str[i + 1]) && IsHex(str[i + 2]) {
        ss := Some((if ss == None then str[..i] else ss.value) + [HexValue(str[i + 1]) * 16 + HexValue(str[i + 2])]);
        i := i + 3;
      } else {
        if ss.Some? {
          ss := Some(ss.value + [c]);
        }
        TextGrows(str, i);
        i := i + 1;
      }
      assert Made(ss, str, i) == made + [x];
    }
    NothingLeft(str, spaceAsPlus, Made(ss, str, i));
    r := if ss == None then str else ss.value;
  }

  lemma TextGrows(str: bytes, i: nat)
    requires i < |str|
    ensures str[..i + 1] == str[..i] + [str[i]]
  {
  }

  lemma {:induction false} NothingLeft(str: bytes, plus: bool, made: bytes)
    ensures made + Decoded(str[|str|..], plus) == made && str[..|str|] == str
  {
  }

  // ---------------------------------------------------------------- round trip

  lemma EncodedByteDecodes(c: byte, rest: bytes, enc: bool, dec: bool)
    ensures Decoded(EncodedByte(c, enc) + rest, dec)
         == [if c == SPACE && enc && !dec then PLUS else c] + Decoded(rest, dec)
  {
    var e := EncodedByte(c, enc);
    var s := e + rest;
    if |e| == 3 {
      assert s[1] == HexDigit(c / 16) && s[2] == HexDigit(c % 16);
      assert s[3..] == rest;
    } else {
      assert s[1..] == rest;
    }
  }

  /** Decoding inverts encoding, for all byte strings and whatever the two plus flags, except
      when spaces were turned into plus signs and there is a space. */
  lemma {:induction false} DecodeInvertsIff(s: bytes, enc: bool, dec: bool)
    ensures Decoded(Encoded(s, enc), dec) == s <==> !(enc && !dec && SPACE in s)
    decreases |s|
  {
    if s != [] {
      DecodeInvertsIff(s[1..], enc, dec);
      EncodedByteDecodes(s[0], Encoded(s[1..], enc), enc, dec);
      assert s == [s[0]] + s[1..];
      var r := Decoded(Encoded(s, enc), dec);
      assert r[1..] == Decoded(Encoded(s[1..], enc), dec);
    }
  }

  /** In particular when plus signs are decoded, as they are by default. */
  lemma DecodeInverts(s: bytes, enc: bool)
    ensures Decoded(Encoded(s, enc), true) == s
  {
    DecodeInvertsIff(s, enc, true);
  }

  predicate Free(s: bytes, c: byte) {
    forall i :: 0 <= i < |s| ==> s[i] != c
  }

  /** An encoding has no ampersand in it. */
  lemma {:induction false} EncodedHasNoAmpersand(s: bytes, plus: bool)
    ensures Free(Encoded(s, plus), AMPERSAND)
    decreases |s|
  {
    if s != [] {
      EncodedHasNoAmpersand(s[1..], plus);
      assert Free(EncodedByte(s[0], plus), AMPERSAND);
    }
  }

  // ------------------------------------------------------------------ the alphabet

  const DIGITS := "0123456789ABCDEF"
  const LOWER_DIGITS := "0123456789abcdef"

  lemma {:induction false} DigitIs(n: nat)
    requires n < 16
    ensures HexDigit(n) == DIGITS[n] as int
  {
    if n < 8 {
      assert n == 0 || n == 1 || n == 2 || n == 3 || n == 4 || n == 5 || n == 6 || n == 7;
    } else {
      assert n == 8 || n == 9 || n == 10 || n == 11 || n == 12 || n == 13 || n == 14 || n == 15;
    }
  }

  /** Letters, digits and five signs, the equals sign among them, stand for themselves; every other
      byte becomes a percent sign and two hexadecimal digits in upper case, but for a space that
      becomes a plus sign where this is asked for. */
  lemma {:induction false} ByteIsEncoded(c: byte, plus: bool)
    ensures var r := Encoded([c], plus);
      if c == '-' as int || c == '.' as int || c == '_' as int || c == '~' as int || c == '=' as int
         || '0' as int <= c <= '9' as int || 'A' as int <= c <= 'Z' as int || 'a' as int <= c <= 'z' as int
      then r == [c]
      else if c == ' ' as int && plus then r == ['+' as int]
      else r == ['%' as int, DIGITS[c / 16] as int, DIGITS[c % 16] as int]
  {
    var none: bytes := [];
    assert [c][1..] == none;
    assert Encoded([c], plus) == EncodedByte(c, plus);
    DigitIs(c / 16);
    DigitIs(c % 16);
  }

  lemma {:induction false} DigitReads(n: nat)
    requires n < 16
    ensures IsHex(DIGITS[n] as int) && HexValue(DIGITS[n] as int) == n
    ensures IsHex(LOWER_DIGITS[n] as int) && HexValue(LOWER_DIGITS[n] as int) == n
  {
    if n < 8 {
      assert n == 0 || n == 1 || n == 2 || n == 3 || n == 4 || n == 5 || n == 6 || n == 7;
    } else {
      assert n == 8 || n == 9 || n == 10 || n == 11 || n == 12 || n == 13 || n == 14 || n == 15;
    }
  }

  /** A percent sign and two digits, each in either case, stand for the byte of that number. */
  lemma {:induction false} EscapeIsDecoded(c: byte, hi: byte, lo: byte, rest: bytes, plus: bool)
    requires hi == DIGITS[c / 16] as int || hi == LOWER_DIGITS[c / 16] as int
    requires lo == DIGITS[c % 16] as int || lo == LOWER_DIGITS[c % 16] as int
    ensures Decoded(['%' as int, hi, lo] + rest, plus) == [c] + Decoded(rest, plus)
  {
    DigitReads(c / 16);
    DigitReads(c % 16);
    var s := ['%' as int, hi, lo] + rest;
    assert s[3..] == rest;
  }

  /** One of the digits, in either case. */
  ghost predicate IsDigit(c: byte) {
    exists n :: 0 <= n < 16 && (c == DIGITS[n] as int || c == LOWER_DIGITS[n] as int)
  }

  lemma {:induction false} HexIsDigit(c: byte)
    ensures IsHex(c) <==> IsDigit(c)
  {
    if IsDigit(c) {
      var n: nat :| n < 16 && (c == DIGITS[n] as int || c == LOWER_DIGITS[n] as int);
      DigitReads(n);
    }
    if IsHex(c) {
      DigitIs(HexValue(c));
      if c > 0x46 {
        LowerDigit(HexValue(c));
      }
    }
  }

  lemma {:induction false} LowerDigit(n: nat)
    requires 10 <= n < 16
    ensures LOWER_DIGITS[n] as int == 0x61 + (n - 10)
  {
    assert n == 10 || n == 11 || n == 12 || n == 13 || n == 14 || n == 15;
  }

  /** Every other byte stands for itself, a plus sign for a space where this is asked for: a percent
      sign too, unless two digits follow it. */
  lemma {:induction false} PlainIsDecoded(c: byte, rest: bytes, plus: bool)
    requires c != '%' as int || |rest| < 2 || !IsDigit(rest[0]) || !IsDigit(rest[1])
    ensures Decoded([c] + rest, plus)
         == [if c == '+' as int && plus then ' ' as int else c] + Decoded(rest, plus)
  {
    if |rest| >= 2 {
      HexIsDigit(rest[0]);
      HexIsDigit(rest[1]);
    }
    var s := [c] + rest;
    assert s[1..] == rest;
  }
}
