/**
 Characters, numerals and string escapes of decompiled device-tree sources:
 what `raw_text` prints and what the scanner and the value parser read back.
 */
module DtsText {
  import opened Wrappers

  /** Python's `str.isspace` for one code point. */
  predicate IsSpace(c: char) {
    || '\U{09}' <= c <= '\U{0D}'
    || '\U{1C}' <= c <= '\U{20}'
    || c == '\U{85}' || c == '\U{A0}' || c == '\U{1680}'
    || '\U{2000}' <= c <= '\U{200A}'
    || c == '\U{2028}' || c == '\U{2029}' || c == '\U{202F}' || c == '\U{205F}' || c == '\U{3000}'
  }

  // ----- numerals -----

  predicate IsHexDigit(c: char) {
    '0' <= c <= '9' || 'a' <= c <= 'f' || 'A' <= c <= 'F'
  }

  predicate IsDecDigit(c: char) {
    '0' <= c <= '9'
  }

  predicate AllHex(s: string) {
    forall c | c in s :: IsHexDigit(c)
  }

  predicate AllDec(s: string) {
    forall c | c in s :: IsDecDigit(c)
  }

  function DigitValue(c: char): (d: nat)
    requires IsHexDigit(c)
    ensures d < 16
    ensures IsDecDigit(c) ==> d < 10
  {
    if c <= '9' then (c - '0') as nat
    else if c <= 'F' then (c - 'A') as nat + 10
    else (c - 'a') as nat + 10
  }

  /** A digit is worth its place in the row of digits, of either case. */
  lemma DigitIsItsPlace(c: char)
    requires IsHexDigit(c)
    ensures "0123456789abcdef"[DigitValue(c)] == c || "0123456789ABCDEF"[DigitValue(c)] == c
  {
  }

  /** The value of a string of digits, most significant first. */
  function Numeral(base: nat, s: string): nat
    requires AllHex(s)
  {
    if s == [] then 0 else base * Numeral(base, s[..|s| - 1]) + DigitValue(s[|s| - 1])
  }

  function HexChar(d: nat): (c: char)
    requires d < 16
    ensures IsHexDigit(c) && DigitValue(c) == d
    ensures !('A' <= c <= 'F')
  {
    if d < 10 then '0' + d as char else 'a' + (d - 10) as char
  }

  /** The digits of `f"{n:x}"`. */
  function HexDigits(n: nat): (s: string)
    ensures |s| > 0 && AllHex(s)
  {
    if n < 16 then [HexChar(n)] else HexDigits(n / 16) + [HexChar(n % 16)]
  }

  lemma {:induction false} NumeralOfHexDigits(n: nat)
    ensures Numeral(16, HexDigits(n)) == n
  {
    var s := HexDigits(n);
    if n < 16 {
      assert s[..0] == [];
    } else {
      NumeralOfHexDigits(n / 16);
      assert s[..|s| - 1] == HexDigits(n / 16);
    }
  }

  /** `f"0x{n:x}"`: the sign goes before the digits but after the prefix. */
  function PrintNumber(n: int): string {
    if n >= 0 then "0x" + HexDigits(n) else "0x-" + HexDigits(-n)
  }

  /** `$` in a Python pattern also matches just before one final newline. */
  function DropFinalNewline(s: string): string {
    if s != [] && s[|s| - 1] == '\n' then s[..|s| - 1] else s
  }

  function ParseUnsigned(s: string): (r: Option<nat>)
    ensures r.Some? ==> |s| > 0 && IsDecDigit(s[0])
  {
    if |s| > 2 && s[0] == '0' && (s[1] == 'x' || s[1] == 'X') && AllHex(s[2..]) then
      Some(Numeral(16, s[2..]))
    else if s != [] && AllDec(s) then
      assert AllHex(s);
      Some(Numeral(10, s))
    else
      None
  }

  /** `_parse_int`: hexadecimal with a prefix, otherwise decimal even with leading zeros. */
  function ParseInt(value: string): Option<int> {
    var s := DropFinalNewline(value);
    if s != [] && (s[0] == '+' || s[0] == '-') then
      match ParseUnsigned(s[1..])
      case Some(n) =>
        var v: int := n;
        Some(if s[0] == '-' then -v else v)
      case None => None
    else
      match ParseUnsigned(s)
      case Some(n) => Some(n)
      case None => None
  }

  /** A printed number is read back exactly when it is not negative. */
  lemma PrintedNumberReadsBack(n: int)
    ensures ParseInt(PrintNumber(n)) == Some(n) <==> n >= 0
    ensures n < 0 ==> ParseInt(PrintNumber(n)) == None
  {
    var s := PrintNumber(n);
    if n >= 0 {
      assert s[2..] == HexDigits(n);
      assert IsHexDigit(s[|s| - 1]) by {
        assert s[|s| - 1] == HexDigits(n)[|HexDigits(n)| - 1];
      }
      NumeralOfHexDigits(n);
    } else {
      assert s[2] == '-' && s[2..][0] == '-';
      var d := HexDigits(-n);
      assert s[|s| - 1] == d[|d| - 1];
      assert IsHexDigit(d[|d| - 1]);
      assert !AllDec(s) by { assert s[2] in s; }
      assert !AllHex(s[2..]) by { assert s[2..][0] in s[2..]; }
    }
  }

  function DecDigits(n: nat): (s: string)
    ensures |s| > 0 && AllDec(s)
  {
    if n < 10 then [HexChar(n)] else DecDigits(n / 10) + [HexChar(n % 10)]
  }

  lemma {:induction false} NumeralOfDecDigits(n: nat)
    ensures AllHex(DecDigits(n)) && Numeral(10, DecDigits(n)) == n
  {
    var s := DecDigits(n);
    if n < 10 {
      assert s[..0] == [];
    } else {
      NumeralOfDecDigits(n / 10);
      assert s[..|s| - 1] == DecDigits(n / 10);
    }
  }

  lemma {:induction false} LeadingZeros(base: nat, zeros: string, s: string)
    requires (forall c | c in zeros :: c == '0') && AllHex(s)
    ensures AllHex(zeros + s) && Numeral(base, zeros + s) == Numeral(base, s)
  {
    var t := zeros + s;
    if s == [] {
      assert t == zeros;
      if zeros != [] {
        var front := zeros[..|zeros| - 1];
        forall c | c in front ensures c == '0' {
          assert c in zeros;
        }
        LeadingZeros(base, front, s);
        assert front + s == front;
        assert zeros[|zeros| - 1] in zeros;
        assert base * 0 == 0;
      }
    } else {
      assert t[..|t| - 1] == zeros + s[..|s| - 1] && t[|t| - 1] == s[|s| - 1];
      assert AllHex(s[..|s| - 1]);
      LeadingZeros(base, zeros, s[..|s| - 1]);
    }
  }

  /** What may stand in front of the digits. */
  function Signed(sign: string, n: nat): int {
    var v: int := n;
    if sign == "-" then -v else v
  }

  /** A number in decimal digits is read as that number, whatever its leading zeros and its sign. */
  lemma DecimalReadsBack(sign: string, zeros: string, n: nat)
    requires sign in {"", "+", "-"} && forall c | c in zeros :: c == '0'
    ensures ParseInt(sign + zeros + DecDigits(n)) == Some(Signed(sign, n))
  {
    hide ParseInt, ParseUnsigned, Numeral, DecDigits, HexChar, AllHex;
    var digits := zeros + DecDigits(n);
    NumeralOfDecDigits(n);
    LeadingZeros(10, zeros, DecDigits(n));
    UnsignedDecimal(digits);
    ParseSigned(sign, digits);
    assert sign + zeros + DecDigits(n) == sign + digits;
  }

  lemma UnsignedDecimal(digits: string)
    requires digits != [] && AllDec(digits) && AllHex(digits)
    ensures ParseUnsigned(digits) == Some(Numeral(10, digits)) && digits[|digits| - 1] != '\n'
  {
    hide Numeral;
    assert digits[|digits| - 1] in digits;
    assert |digits| > 2 ==> digits[1] in digits;
  }

  /** The same in hexadecimal digits behind either prefix. */
  lemma HexadecimalReadsBack(sign: string, prefix: string, zeros: string, n: nat)
    requires sign in {"", "+", "-"} && prefix in {"0x", "0X"} && forall c | c in zeros :: c == '0'
    ensures ParseInt(sign + prefix + zeros + HexDigits(n)) == Some(Signed(sign, n))
  {
    var digits := zeros + HexDigits(n);
    NumeralOfHexDigits(n);
    LeadingZeros(16, zeros, HexDigits(n));
    hide Numeral, HexDigits, AllHex, ParseInt, ParseUnsigned;
    PrefixedHex(prefix, digits);
    ParseSigned(sign, prefix + digits);
    Grouped(sign, prefix, zeros, HexDigits(n));
  }

  lemma Grouped(a: string, b: string, c: string, d: string)
    ensures a + b + c + d == a + (b + (c + d))
  {
  }

  lemma PrefixedHex(prefix: string, digits: string)
    requires prefix in {"0x", "0X"} && digits != [] && AllHex(digits)
    ensures ParseUnsigned(prefix + digits) == Some(Numeral(16, digits))
    ensures (prefix + digits)[|prefix + digits| - 1] != '\n'
  {
    hide Numeral;
    var s := prefix + digits;
    assert s[2..] == digits;
    assert s[|s| - 1] == digits[|digits| - 1];
    assert digits[|digits| - 1] in digits;
  }

  lemma ParseSigned(sign: string, digits: string)
    requires sign in {"", "+", "-"} && ParseUnsigned(digits).Some? && digits[|digits| - 1] != '\n'
    ensures ParseInt(sign + digits) == Some(Signed(sign, ParseUnsigned(digits).value))
  {
    hide ParseUnsigned, Numeral;
    var s := sign + digits;
    assert s[|s| - 1] == digits[|digits| - 1];
    if sign == "" {
      assert s == digits;
    } else {
      assert s[1..] == digits;
    }
  }

  // ----- byte strings -----

  predicate IsHexPair(s: string) {
    1 <= |s| <= 2 && AllHex(s)
  }

  predicate HasHexPrefix(s: string) {
    |s| >= 2 && s[0] == '0' && (s[1] == 'x' || s[1] == 'X')
  }

  /** The pattern for one element of a byte list. */
  predicate IsHexByte(value: string) {
    var s := DropFinalNewline(value);
    IsHexPair(s) || (HasHexPrefix(s) && IsHexPair(s[2..]))
  }

  /** `f"{n:02x}"` for a byte. */
  function PrintByte(n: nat): string
    requires n < 256
  {
    [HexChar(n / 16), HexChar(n % 16)]
  }

  lemma HexPairBelow256(s: string)
    requires IsHexPair(s)
    ensures Numeral(16, s) < 256
  {
    assert Numeral(16, s[..|s| - 1]) < 16 by {
      if |s| == 2 {
        assert s[..1][..0] == [];
      }
    }
  }

  /** How one element of a byte list is stored: two digits, or the text itself. */
  function NormaliseByte(value: string): string {
    var s := DropFinalNewline(value);
    if IsHexByte(value) then
      var digits := if HasHexPrefix(s) then s[2..] else s;
      assert IsHexPair(digits) by {
        assert HasHexPrefix(s) ==> s[1] in s && !IsHexDigit(s[1]);
      }
      HexPairBelow256(digits);
      PrintByte(Numeral(16, digits))
    else value
  }

  lemma ShortHex(n: nat)
    requires n < 256
    ensures IsHexPair(HexDigits(n))
  {
  }

  /** One or two hexadecimal digits, with a prefix or without, are stored as the two digits of their number. */
  lemma BytesNormalised(n: nat)
    requires n < 256
    ensures NormaliseByte(HexDigits(n)) == PrintByte(n)
    ensures NormaliseByte("0x" + HexDigits(n)) == PrintByte(n) && NormaliseByte("0X" + HexDigits(n)) == PrintByte(n)
  {
    ShortHex(n);
    NumeralOfHexDigits(n);
    var digits := HexDigits(n);
    hide Numeral, HexDigits;
    OnePrefix("", digits);
    OnePrefix("0x", digits);
    OnePrefix("0X", digits);
    assert "" + digits == digits;
  }

  lemma OnePrefix(prefix: string, digits: string)
    requires prefix in {"", "0x", "0X"} && IsHexPair(digits) && Numeral(16, digits) < 256
    ensures NormaliseByte(prefix + digits) == PrintByte(Numeral(16, digits))
  {
    hide Numeral, PrintByte;
    var s := prefix + digits;
    assert s[|s| - 1] == digits[|digits| - 1] && digits[|digits| - 1] in digits;
    assert DropFinalNewline(s) == s;
    if prefix == "" {
      assert s == digits;
      assert |digits| == 2 ==> digits[1] in digits;
    } else {
      assert s[2..] == digits;
    }
  }

  /** Two lower-case hexadecimal digits. */
  predicate IsPlainByte(s: string) {
    |s| == 2 && (forall c | c in s :: IsHexDigit(c) && !('A' <= c <= 'F'))
  }

  lemma HexCharOfDigitValue(c: char)
    requires IsHexDigit(c) && !('A' <= c <= 'F')
    ensures HexChar(DigitValue(c)) == c
  {
  }

  lemma NumeralOfPair(s: string)
    requires |s| == 2 && AllHex(s)
    ensures Numeral(16, s) == 16 * DigitValue(s[0]) + DigitValue(s[1])
  {
    var t := s[..1];
    assert t[..0] == [];
    assert Numeral(16, t) == DigitValue(s[0]);
  }

  lemma DigitValueInRange(c: char)
    requires IsHexDigit(c)
    ensures 0 <= DigitValue(c) < 16
  {
  }

  lemma PlainByteIsHex(s: string)
    requires IsPlainByte(s)
    ensures DropFinalNewline(s) == s && !HasHexPrefix(s) && IsHexByte(s) && IsHexPair(s)
  {
    hide Numeral;
    assert s[0] in s && s[1] in s;
  }

  lemma PlainByteStable(s: string)
    requires IsPlainByte(s)
    ensures NormaliseByte(s) == s
  {
    assert s[0] in s && s[1] in s;
    PlainByteIsHex(s);
    HexPairBelow256(s);
    NumeralOfPair(s);
    HexCharOfDigitValue(s[0]);
    HexCharOfDigitValue(s[1]);
    DigitValueInRange(s[1]);
    hide Numeral, IsHexByte, IsHexDigit, HexChar, DigitValue, DropFinalNewline, HasHexPrefix;
    var high, low := DigitValue(s[0]), DigitValue(s[1]);
    assert (16 * high + low) / 16 == high && (16 * high + low) % 16 == low;
    assert NormaliseByte(s) == PrintByte(Numeral(16, s)) == [s[0], s[1]];
  }

  // ----- string escapes -----

  /** Control characters below U+0020 other than these five have no DTS escape. */
  predicate Supported(c: char) {
    c >= ' ' || c == '\n' || c == '\r' || c == '\t' || c == '\U{08}' || c == '\U{0C}'
  }

  /** `json.dumps` for one character, without ASCII escaping. */
  function EscapeChar(c: char): (e: string)
    ensures |e| > 0
  {
    if c == '"' then "\\\""
    else if c == '\\' then "\\\\"
    else if c == '\n' then "\\n"
    else if c == '\r' then "\\r"
    else if c == '\t' then "\\t"
    else if c == '\U{08}' then "\\b"
    else if c == '\U{0C}' then "\\f"
    else if c < ' ' then "\\u00" + PrintByte(c as nat)
    else [c]
  }

  function Escape(s: string): string {
    if s == [] then [] else EscapeChar(s[0]) + Escape(s[1..])
  }

  function SimpleEscape(e: char): Option<char> {
    if e == 'n' then Some('\n')
    else if e == 'r' then Some('\r')
    else if e == 't' then Some('\t')
    else if e == 'b' then Some('\U{08}')
    else if e == 'f' then Some('\U{0C}')
    else if e == 'v' then Some('\U{0B}')
    else if e == '0' then Some('\0')
    else if e == 'a' then Some('\U{07}')
    else None
  }

  /** One decoded character of `_decode_dts_string` and the number of raw characters it took. */
  function DecodeStep(raw: string): (r: (char, nat))
    requires raw != []
    ensures 1 <= r.1 <= |raw|
  {
    if raw[0] != '\\' || |raw| == 1 then (raw[0], 1)
    else if SimpleEscape(raw[1]).Some? then (SimpleEscape(raw[1]).value, 2)
    else if raw[1] == 'x' && |raw| > 3 && AllHex(raw[2..4]) then
      HexPairBelow256(raw[2..4]);
      (Numeral(16, raw[2..4]) as char, 4)
    else (raw[1], 2)
  }

  function Decode(raw: string): string
    decreases |raw|
  {
    if raw == [] then []
    else
      var (c, k) := DecodeStep(raw);
      [c] + Decode(raw[k..])
  }

  method DecodeDtsString(raw: string) returns (out: string)
    ensures out == Decode(raw)
  {
    hide Decode, Numeral;
    out := [];
    var index := 0;
    while index < |raw|
      invariant 0 <= index <= |raw|
      invariant Decode(raw) == out + Decode(raw[index..])
    {
      ghost var rest := raw[index..];
      var c, k := raw[index], 1;
      if c == '\\' && index + 1 < |raw| {
        c, k := raw[index + 1], 2;
        if SimpleEscape(c).Some? {
          c := SimpleEscape(c).value;
        } else if c == 'x' && index + 3 < |raw| {
          var digits := raw[index + 2..index + 4];
          assert digits == rest[2..4];
          if AllHex(digits) {
            HexPairBelow256(digits);
            c, k := Numeral(16, digits) as char, 4;
          }
        }
      }
      assert DecodeStep(rest) == (c, k);
      DecodeUnfold(raw, out, index, c, k);
      out := out + [c];
      index := index + k;
    }
    assert raw[index..] == [];
    DecodeNothing();
  }

  lemma DecodeNothing()
    ensures Decode([]) == []
  {
  }

  lemma DecodeOne(raw: string)
    requires raw != []
    ensures
      var (c, k) := DecodeStep(raw);
      k <= |raw| && Decode(raw) == [c] + Decode(raw[k..])
  {
    hide DecodeStep;
  }

  lemma DecodeUnfold(raw: string, out: string, index: nat, c: char, k: nat)
    requires index < |raw|
    requires Decode(raw) == out + Decode(raw[index..])
    requires DecodeStep(raw[index..]) == (c, k)
    ensures index + k <= |raw|
    ensures Decode(raw) == out + [c] + Decode(raw[index + k..])
  {
    hide Decode, DecodeStep;
    var rest := raw[index..];
    DecodeOne(rest);
    assert rest[k..] == raw[index + k..];
    assert out + ([c] + Decode(rest[k..])) == out + [c] + Decode(rest[k..]);
  }

  const ESCAPES: string := "nrtbfv0a"
  const ESCAPED: string := "\n\r\t\U{08}\U{0C}\U{0B}\0\U{07}"

  /** A backslash and one of eight letters is their control character; in front of any other but `x` it is dropped. */
  lemma EscapeDecodes(e: char, rest: string)
    requires e != 'x'
    ensures forall k | 0 <= k < 8 && e == ESCAPES[k] :: Decode("\\" + [e] + rest) == [ESCAPED[k]] + Decode(rest)
    ensures e !in ESCAPES ==> Decode("\\" + [e] + rest) == [e] + Decode(rest)
  {
    hide Numeral, Decode;
    var raw := "\\" + [e] + rest;
    assert raw[0] == '\\' && raw[1] == e && raw[2..] == rest;
    DecodeOne(raw);
    if SimpleEscape(e).None? {
      NoEscape(e);
    } else {
      SomeEscape(e);
    }
  }

  lemma NoEscape(e: char)
    requires SimpleEscape(e).None?
    ensures forall k | 0 <= k < 8 :: e != ESCAPES[k]
  {
  }

  lemma SomeEscape(e: char)
    requires SimpleEscape(e).Some?
    ensures e in ESCAPES && forall k | 0 <= k < 8 && e == ESCAPES[k] :: SimpleEscape(e) == Some(ESCAPED[k])
  {
    var k := if e == 'n' then 0 else if e == 'r' then 1 else if e == 't' then 2 else if e == 'b' then 3
             else if e == 'f' then 4 else if e == 'v' then 5 else if e == '0' then 6 else 7;
    assert ESCAPES[k] == e;
  }

  lemma ByteNumeral(n: nat)
    requires n < 256
    ensures AllHex(PrintByte(n)) && Numeral(16, PrintByte(n)) == n
  {
    NumeralOfPair(PrintByte(n));
    hide Numeral, IsHexDigit;
  }

  /** `\x` and two hexadecimal digits are the character of that number. */
  lemma HexEscapeDecodes(n: nat, rest: string)
    requires n < 256
    ensures Decode("\\x" + PrintByte(n) + rest) == [n as char] + Decode(rest)
  {
    var digits := PrintByte(n);
    ByteNumeral(n);
    hide Numeral, Decode, PrintByte, AllHex;
    var raw := "\\x" + digits + rest;
    assert raw[0] == '\\' && raw[1] == 'x' && raw[2..4] == digits && raw[4..] == rest;
    assert DecodeStep(raw) == (n as char, 4);
    DecodeOne(raw);
  }

  /** Without two digits behind it, the `x` is a letter. */
  lemma BareXDecodes(rest: string)
    requires !(|rest| >= 2 && IsHexDigit(rest[0]) && IsHexDigit(rest[1]))
    ensures Decode("\\x" + rest) == "x" + Decode(rest)
  {
    hide Numeral, Decode, IsHexDigit;
    var raw := "\\x" + rest;
    assert raw[0] == '\\' && raw[1] == 'x' && raw[2..] == rest;
    if |rest| >= 2 {
      assert raw[2..4][0] == rest[0] && raw[2..4][1] == rest[1];
      assert rest[0] in raw[2..4] && rest[1] in raw[2..4];
    }
    assert DecodeStep(raw) == ('x', 2);
    DecodeOne(raw);
  }

  /** What an escaped character decodes to. */
  function Decoded(c: char): (d: string)
    ensures Supported(c) ==> d == [c]
    ensures !Supported(c) ==> |d| == 5
  {
    if Supported(c) then [c] else "u00" + PrintByte(c as nat)
  }

  lemma {:induction false} DecodePlain(p: string, t: string)
    requires '\\' !in p
    ensures Decode(p + t) == p + Decode(t)
  {
    if p == [] {
      assert p + t == t;
    } else {
      assert (p + t)[1..] == p[1..] + t;
      DecodePlain(p[1..], t);
      assert p == [p[0]] + p[1..];
    }
  }

  lemma DecodeEscapedChar(c: char, t: string)
    ensures Decode(EscapeChar(c) + t) == Decoded(c) + Decode(t)
  {
    var e := EscapeChar(c);
    if |e| == 1 {
      DecodePlain([c], t);
    } else if |e| == 2 {
      DecodeShortEscape(c, t);
    } else {
      DecodeControl(c, t);
    }
  }

  lemma DecodeShortEscape(c: char, t: string)
    requires |EscapeChar(c)| == 2
    ensures Supported(c) && Decode(EscapeChar(c) + t) == [c] + Decode(t)
  {
    hide Numeral, Decode;
    var e := EscapeChar(c);
    var raw := e + t;
    assert raw[0] == '\\' && raw[1] == e[1] && raw[2..] == t;
    assert DecodeStep(raw) == (c, 2);
    DecodeOne(raw);
  }

  lemma DecodeControl(c: char, t: string)
    requires |EscapeChar(c)| > 2
    ensures !Supported(c) && Decode(EscapeChar(c) + t) == "u00" + PrintByte(c as nat) + Decode(t)
  {
    var e := EscapeChar(c);
    var raw := e + t;
    var p := "00" + PrintByte(c as nat);
    assert e == "\\u" + p;
    assert raw[0] == '\\' && raw[1] == 'u' && raw[2..] == p + t;
    HexDigitsAreNoEscape(c as nat);
    DecodePlain(p, t);
    hide Numeral, Decode, PrintByte;
    assert DecodeStep(raw) == ('u', 2);
    DecodeOne(raw);
    assert "u" + (p + Decode(t)) == "u00" + PrintByte(c as nat) + Decode(t);
  }

  lemma HexDigitsAreNoEscape(n: nat)
    requires n < 256
    ensures '\\' !in "00" + PrintByte(n)
  {
  }

  lemma {:induction false} DecodeEscapeGrows(s: string)
    ensures |Decode(Escape(s))| >= |s|
  {
    if s != [] {
      DecodeEscapedChar(s[0], Escape(s[1..]));
      DecodeEscapeGrows(s[1..]);
    }
  }

  /** An escaped string decodes to itself exactly when it has no unsupported control character. */
  lemma {:induction false} EscapedStringReadsBack(s: string)
    ensures Decode(Escape(s)) == s <==> forall c | c in s :: Supported(c)
  {
    if s != [] {
      var t := s[1..];
      assert s == [s[0]] + t;
      DecodeEscapedChar(s[0], Escape(t));
      var d := Decode(Escape(t));
      EscapedStringReadsBack(t);
      DecodeEscapeGrows(t);
      if Supported(s[0]) {
        assert ([s[0]] + d)[1..] == d;
        assert forall c :: c in s <==> c == s[0] || c in t;
      } else {
        assert |Decode(Escape(s))| > |s|;
        assert s[0] in s;
      }
    }
  }
}
