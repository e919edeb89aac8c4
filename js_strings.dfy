/**
  Models of the ECMAScript built-ins that the robots.txt generator applies
  to strings: ASCII case mapping, `startsWith`/`endsWith`, `split` on a
  one-character separator, `Number.prototype.toString` on integers, the
  `length` of a string (counted in UTF-16 code units), and `encodeURI`
  (ECMA-262 section 19.2.6.3, with the Encode operation of section 19.2.6.5).

  A Dafny `char` is a Unicode scalar value, so a string here is a well-formed
  UTF-16 string of ECMAScript; lone surrogates cannot occur.
*/
module JsStrings {
  import opened Wrappers

  predicate IsLower(c: char) { 'a' <= c <= 'z' }
  predicate IsUpper(c: char) { 'A' <= c <= 'Z' }
  predicate IsDigit(c: char) { '0' <= c <= '9' }
  predicate IsAlnum(c: char) { IsLower(c) || IsUpper(c) || IsDigit(c) }

  /** `toLowerCase` of one character, for the ASCII letters. */
  function ToLowerChar(c: char): char { if IsUpper(c) then (c as int + 32) as char else c }

  /** `toUpperCase` of one character, for the ASCII letters: a lower-case letter becomes
      the upper-case letter that `toLowerCase` maps back to it; anything else is kept. */
  function ToUpperChar(c: char): (u: char)
    ensures !IsLower(u)
    ensures IsLower(c) ==> IsUpper(u) && ToLowerChar(u) == c
    ensures !IsLower(c) ==> u == c
  {
    if IsLower(c) then (c as int - 32) as char else c
  }

  /** `s.toLowerCase()`: the same length, no upper-case letter left, every upper-case
      letter replaced by the lower-case one `toUpperCase` maps back to it, the rest kept. */
  function ToLower(s: string): (r: string)
    ensures |r| == |s|
    ensures forall c <- r :: !IsUpper(c)
    ensures forall i | 0 <= i < |s| && IsUpper(s[i]) :: IsLower(r[i]) && ToUpperChar(r[i]) == s[i]
    ensures forall i | 0 <= i < |s| && !IsUpper(s[i]) :: r[i] == s[i]
  {
    seq(|s|, i requires 0 <= i < |s| => ToLowerChar(s[i]))
  }

  predicate StartsWith(s: string, prefix: string) { |prefix| <= |s| && s[..|prefix|] == prefix }
  predicate EndsWith(s: string, suffix: string) { |suffix| <= |s| && s[|s| - |suffix|..] == suffix }

  /*** `split` and its inverse `join` ***/

  /** `s.split(sep)`: the maximal runs of `s` between occurrences of `sep`, in order. */
  function Split(s: string, sep: char): (parts: seq<string>)
    ensures |parts| >= 1
    decreases |s|
  {
    if |s| == 0 then [""]
    else
      var rest := Split(s[1..], sep);
      if s[0] == sep then [""] + rest
      else [[s[0]] + rest[0]] + rest[1..]
  }

  /** `parts.join(sep)`. */
  function Join(parts: seq<string>, sep: char): string
    decreases |parts|
  {
    if |parts| == 0 then ""
    else if |parts| == 1 then parts[0]
    else parts[0] + [sep] + Join(parts[1..], sep)
  }

  lemma {:induction false} SplitPartsHaveNoSeparator(s: string, sep: char)
    ensures forall p <- Split(s, sep) :: sep !in p
    decreases |s|
  {
    if |s| > 0 {
      SplitPartsHaveNoSeparator(s[1..], sep);
      var rest := Split(s[1..], sep);
      if s[0] != sep {
        assert rest[0] in rest;
        assert forall p <- rest[1..] :: p in rest;
      }
    }
  }

  /** Joining the parts of a split gives back the string. */
  lemma {:induction false} JoinSplit(s: string, sep: char)
    ensures Join(Split(s, sep), sep) == s
    decreases |s|
  {
    if |s| > 0 {
      var rest := Split(s[1..], sep);
      JoinSplit(s[1..], sep);
      assert s == [s[0]] + s[1..];
      if s[0] == sep {
        assert ([""] + rest)[1..] == rest;
      } else if |rest| > 1 {
        var parts := [[s[0]] + rest[0]] + rest[1..];
        assert parts[1..] == rest[1..];
        assert Join(rest, sep) == rest[0] + [sep] + Join(rest[1..], sep);
        assert Join(parts, sep) == [s[0]] + rest[0] + [sep] + Join(rest[1..], sep);
      }
    }
  }

  /** A separator-free prefix is glued to the first part of what follows. */
  lemma {:induction false} SplitFreePrefix(a: string, t: string, sep: char)
    requires sep !in a
    ensures Split(a + t, sep) == [a + Split(t, sep)[0]] + Split(t, sep)[1..]
    decreases |a|
  {
    if |a| == 0 {
      assert a + t == t;
      assert a + Split(t, sep)[0] == Split(t, sep)[0];
      assert [Split(t, sep)[0]] + Split(t, sep)[1..] == Split(t, sep);
    } else {
      assert (a + t)[0] == a[0];
      assert (a + t)[1..] == a[1..] + t;
      SplitFreePrefix(a[1..], t, sep);
      assert [a[0]] + (a[1..] + Split(t, sep)[0]) == a + Split(t, sep)[0];
    }
  }

  /** Splitting a join of separator-free parts gives back the parts. */
  lemma {:induction false} SplitJoin(parts: seq<string>, sep: char)
    requires |parts| >= 1
    requires forall p <- parts :: sep !in p
    ensures Split(Join(parts, sep), sep) == parts
    decreases |parts|
  {
    if |parts| == 1 {
      SplitFreePrefix(parts[0], "", sep);
      assert parts[0] + "" == parts[0];
    } else {
      var j := Join(parts[1..], sep);
      assert forall p <- parts[1..] :: p in parts;
      SplitJoin(parts[1..], sep);
      assert ([sep] + j)[1..] == j;
      assert Split([sep] + j, sep) == [""] + parts[1..];
      assert parts[0] + [sep] + j == parts[0] + ([sep] + j);
      SplitFreePrefix(parts[0], [sep] + j, sep);
      assert parts[0] + "" == parts[0];
      assert [parts[0]] + parts[1..] == parts;
    }
  }

  /*** `Number.prototype.toString` on integers ***/

  function DigitChar(d: int): char
    requires 0 <= d < 10
  {
    ('0' as int + d) as char
  }

  /** The shortest decimal numeral of `n`. */
  function NatToDecimal(n: nat): (r: string)
    ensures |r| >= 1
    ensures forall c <- r :: IsDigit(c)
    decreases n
  {
    if n < 10 then [DigitChar(n)] else NatToDecimal(n / 10) + [DigitChar(n % 10)]
  }

  /** `n.toString()` for an integral `n` of magnitude below 10^21; JavaScript writes larger ones in exponent form. */
  function IntToString(n: int): (r: string)
    ensures |r| >= 1
    ensures r[0] == '-' <==> n < 0
    ensures forall i | 0 <= i < |r| && !(i == 0 && n < 0) :: IsDigit(r[i])
  {
    if n < 0 then "-" + NatToDecimal(-n)
    else
      assert NatToDecimal(n)[0] in NatToDecimal(n);
      NatToDecimal(n)
  }

  /** Reads a numeral back: the reference inverse of the two functions above. */
  function DigitsValue(s: string): int
    decreases |s|
  {
    if |s| == 0 then 0 else DigitsValue(s[..|s| - 1]) * 10 + (s[|s| - 1] as int - '0' as int)
  }

  function ParseInt(s: string): int
  {
    if |s| > 0 && s[0] == '-' then -DigitsValue(s[1..]) else DigitsValue(s)
  }

  lemma {:induction false} NatToDecimalRoundTrip(n: nat)
    ensures DigitsValue(NatToDecimal(n)) == n
    decreases n
  {
    if n >= 10 {
      NatToDecimalRoundTrip(n / 10);
      var r := NatToDecimal(n / 10) + [DigitChar(n % 10)];
      assert r[..|r| - 1] == NatToDecimal(n / 10);
    }
  }

  /** No leading zero: the numeral is the canonical one. */
  lemma {:induction false} NatToDecimalCanonical(n: nat)
    ensures NatToDecimal(n)[0] == '0' <==> n == 0
    decreases n
  {
    if n >= 10 {
      NatToDecimalCanonical(n / 10);
    }
  }

  lemma IntToStringRoundTrip(n: int)
    ensures ParseInt(IntToString(n)) == n
  {
    if n < 0 {
      NatToDecimalRoundTrip(-n);
      assert ("-" + NatToDecimal(-n))[1..] == NatToDecimal(-n);
    } else {
      NatToDecimalRoundTrip(n);
      assert NatToDecimal(n)[0] in NatToDecimal(n);
    }
  }

  /*** `String.prototype.length`: UTF-16 code units ***/

  function Utf16Units(c: char): nat { if c as int < 0x10000 then 1 else 2 }

  /** `s.length`: one code unit per character of the Basic Multilingual Plane, two
      (a surrogate pair) per character above it. */
  function Utf16Length(s: string): (n: nat)
    ensures |s| <= n <= 2 * |s|
    ensures n == |s| <==> forall c <- s :: c as int < 0x10000
    decreases |s|
  {
    if |s| == 0 then 0
    else
      assert forall c <- s :: c == s[0] || c in s[1..];
      assert forall c <- s[1..] :: c in s;
      assert s[0] in s;
      Utf16Units(s[0]) + Utf16Length(s[1..])
  }

  /*** `encodeURI` ***/

  /** The characters `encodeURI` copies unchanged: uriReserved, uriUnescaped and "#". */
  predicate UriUnescaped(c: char)
  {
    IsAlnum(c) || c in "-_.!~*'()" || c in ";/?:@&=+$,#"
  }

  /** The UTF-8 octets of a code point (section 3 of RFC 3629), as Encode writes them. */
  function Utf8Bytes(cp: nat): (bytes: seq<int>)
    requires cp < 0x110000
    ensures 1 <= |bytes| <= 4
    ensures forall b <- bytes :: 0 <= b < 0x100
  {
    if cp < 0x80 then [cp]
    else if cp < 0x800 then [0xC0 + cp / 0x40, 0x80 + cp % 0x40]
    else if cp < 0x10000 then [0xE0 + cp / 0x1000, 0x80 + (cp / 0x40) % 0x40, 0x80 + cp % 0x40]
    else [0xF0 + cp / 0x40000, 0x80 + (cp / 0x1000) % 0x40, 0x80 + (cp / 0x40) % 0x40, 0x80 + cp % 0x40]
  }

  /** An upper-case hexadecimal digit, as `encodeURI` writes it. */
  function HexDigit(d: int): char
    requires 0 <= d < 16
  {
    if d < 10 then DigitChar(d) else ('A' as int + d - 10) as char
  }

  /** Each octet as `%XY`. */
  function PercentEncode(bytes: seq<int>): (r: string)
    requires forall b <- bytes :: 0 <= b < 0x100
    ensures |r| == 3 * |bytes|
    decreases |bytes|
  {
    if |bytes| == 0 then ""
    else
      assert bytes[0] in bytes;
      assert forall b <- bytes[1..] :: b in bytes;
      ['%', HexDigit(bytes[0] / 16), HexDigit(bytes[0] % 16)] + PercentEncode(bytes[1..])
  }

  function EncodeUriChar(c: char): string
  {
    if UriUnescaped(c) then [c] else PercentEncode(Utf8Bytes(c as int))
  }

  /** `encodeURI(s)`. */
  function EncodeUri(s: string): (r: string)
    ensures |s| <= |r| <= 12 * |s|
    decreases |s|
  {
    if |s| == 0 then "" else EncodeUriChar(s[0]) + EncodeUri(s[1..])
  }

  lemma {:induction false} EncodeUriConcat(a: string, b: string)
    ensures EncodeUri(a + b) == EncodeUri(a) + EncodeUri(b)
    decreases |a|
  {
    if |a| == 0 {
      assert a + b == b;
    } else {
      assert (a + b)[0] == a[0];
      assert (a + b)[1..] == a[1..] + b;
      EncodeUriConcat(a[1..], b);
    }
  }

  /** A string made only of characters `encodeURI` keeps is left unchanged. */
  lemma {:induction false} EncodeUriKeepsUnescaped(s: string)
    requires forall c <- s :: UriUnescaped(c)
    ensures EncodeUri(s) == s
    decreases |s|
  {
    if |s| > 0 {
      assert s[0] in s;
      assert forall c <- s[1..] :: c in s;
      assert s[0] in s;
      EncodeUriKeepsUnescaped(s[1..]);
      assert s == [s[0]] + s[1..];
    }
  }

  lemma {:induction false} PercentEncodeIsSafe(bytes: seq<int>)
    requires forall b <- bytes :: 0 <= b < 0x100
    ensures forall c <- PercentEncode(bytes) :: UriUnescaped(c) || c == '%'
    decreases |bytes|
  {
    if |bytes| > 0 {
      assert bytes[0] in bytes;
      assert forall b <- bytes[1..] :: b in bytes;
      PercentEncodeIsSafe(bytes[1..]);
      var hi, lo := HexDigit(bytes[0] / 16), HexDigit(bytes[0] % 16);
      assert IsAlnum(hi) && IsAlnum(lo);
      assert PercentEncode(bytes) == ['%', hi, lo] + PercentEncode(bytes[1..]);
    }
  }

  /** The output of `encodeURI` holds only unescaped characters and `%`: it is ASCII
      and has no space, control character or line break. */
  lemma {:induction false} EncodeUriIsSafe(s: string)
    ensures forall c <- EncodeUri(s) :: UriUnescaped(c) || c == '%'
    decreases |s|
  {
    if |s| > 0 {
      EncodeUriIsSafe(s[1..]);
      if !UriUnescaped(s[0]) {
        PercentEncodeIsSafe(Utf8Bytes(s[0] as int));
      }
    }
  }

  /** `encodeURI` never writes a line break. */
  lemma EncodeUriSingleLine(s: string)
    ensures '\n' !in EncodeUri(s)
  {
    EncodeUriIsSafe(s);
    assert !UriUnescaped('\n');
  }

  /*** Percent-decoding: the inverse of `encodeURI` ***/

  function HexValue(c: char): int
  {
    if IsDigit(c) then c as int - '0' as int
    else if 'A' <= c <= 'F' then c as int - 'A' as int + 10
    else if 'a' <= c <= 'f' then c as int - 'a' as int + 10
    else -1
  }

  /** The octet written by the escape `%XY` at the front of `s`, if there is one. */
  function EscapedByte(s: string): Option<int>
  {
    if |s| >= 3 && s[0] == '%' && HexValue(s[1]) >= 0 && HexValue(s[2]) >= 0
    then Some(HexValue(s[1]) * 16 + HexValue(s[2]))
    else None
  }

  /** The `n` octets written by the `n` escapes at the front of `s`. */
  function EscapedBytes(s: string, n: nat): (r: Option<seq<int>>)
    ensures r.Some? ==> |r.value| == n && 3 * n <= |s|
    decreases n
  {
    if n == 0 then Some([])
    else if |s| < 3 then None
    else
      match EscapedByte(s)
      case None => None
      case Some(b) =>
        match EscapedBytes(s[3..], n - 1)
        case None => None
        case Some(bs) => Some([b] + bs)
  }

  /** The length of a UTF-8 sequence, from its lead octet (0 for a continuation octet). */
  function Utf8Length(lead: int): nat
  {
    if lead < 0x80 then 1
    else if 0xC0 <= lead < 0xE0 then 2
    else if 0xE0 <= lead < 0xF0 then 3
    else if 0xF0 <= lead < 0xF8 then 4
    else 0
  }

  function Utf8Decode(bytes: seq<int>): int
    requires 1 <= |bytes| <= 4
  {
    if |bytes| == 1 then bytes[0]
    else if |bytes| == 2 then (bytes[0] - 0xC0) * 0x40 + (bytes[1] - 0x80)
    else if |bytes| == 3 then (bytes[0] - 0xE0) * 0x1000 + (bytes[1] - 0x80) * 0x40 + (bytes[2] - 0x80)
    else (bytes[0] - 0xF0) * 0x40000 + (bytes[1] - 0x80) * 0x1000 + (bytes[2] - 0x80) * 0x40 + (bytes[3] - 0x80)
  }

  predicate IsScalarValue(cp: int) { 0 <= cp < 0xD800 || 0xE000 <= cp < 0x110000 }

  /** Replaces every escape by the character its UTF-8 octets encode; fails on a malformed escape. */
  function PercentDecode(s: string): Option<string>
    decreases |s|
  {
    if |s| == 0 then Some("")
    else if s[0] != '%' then
      match PercentDecode(s[1..])
      case None => None
      case Some(rest) => Some([s[0]] + rest)
    else
      match EscapedByte(s)
      case None => None
      case Some(lead) =>
        var n := Utf8Length(lead);
        if n == 0 then None
        else
          match EscapedBytes(s, n)
          case None => None
          case Some(bytes) =>
            var cp := Utf8Decode(bytes);
            if !IsScalarValue(cp) then None
            else
              match PercentDecode(s[3 * n..])
              case None => None
              case Some(rest) => Some([cp as char] + rest)
  }

  lemma Utf8RoundTrip(cp: nat)
    requires cp < 0x110000
    ensures Utf8Length(Utf8Bytes(cp)[0]) == |Utf8Bytes(cp)|
    ensures Utf8Decode(Utf8Bytes(cp)) == cp
  {
    if cp >= 0x10000 {
      Utf8RoundTripFour(cp);
    } else if cp >= 0x800 {
      Utf8RoundTripThree(cp);
    }
  }

  lemma Utf8RoundTripThree(cp: nat)
    requires 0x800 <= cp < 0x10000
    ensures Utf8Length(Utf8Bytes(cp)[0]) == 3
    ensures Utf8Decode(Utf8Bytes(cp)) == cp
  {
    var q1, c := cp / 0x40, cp % 0x40;
    var a, b := q1 / 0x40, q1 % 0x40;
    assert cp == a * 0x1000 + b * 0x40 + c;
    assert cp / 0x1000 == a;
    assert Utf8Bytes(cp) == [0xE0 + a, 0x80 + b, 0x80 + c];
  }

  lemma Utf8RoundTripFour(cp: nat)
    requires 0x10000 <= cp < 0x110000
    ensures Utf8Length(Utf8Bytes(cp)[0]) == 4
    ensures Utf8Decode(Utf8Bytes(cp)) == cp
  {
    var q1, d := cp / 0x40, cp % 0x40;
    var q2, c := q1 / 0x40, q1 % 0x40;
    var a, b := q2 / 0x40, q2 % 0x40;
    assert cp == q2 * 0x1000 + c * 0x40 + d;
    assert cp / 0x1000 == q2;
    assert cp == a * 0x40000 + b * 0x1000 + c * 0x40 + d;
    assert cp / 0x40000 == a;
    assert Utf8Bytes(cp) == [0xF0 + a, 0x80 + b, 0x80 + c, 0x80 + d];
  }

  lemma EscapedByteOfHex(b: int, t: string)
    requires 0 <= b < 0x100
    ensures EscapedByte(['%', HexDigit(b / 16), HexDigit(b % 16)] + t) == Some(b)
  {
  }

  /** An encoded octet sequence starts with the escape of its first octet. */
  lemma EscapedLeadByte(b: int, bs: seq<int>, t: string)
    requires 0 <= b < 0x100 && forall x <- bs :: 0 <= x < 0x100
    ensures var s := PercentEncode([b] + bs) + t;
      s[0] == '%' && EscapedByte(s) == Some(b) && s[3..] == PercentEncode(bs) + t
  {
    var bytes := [b] + bs;
    assert bytes[0] == b && bytes[1..] == bs;
    var rest := PercentEncode(bs) + t;
    assert PercentEncode(bytes) + t == ['%', HexDigit(b / 16), HexDigit(b % 16)] + rest;
    EscapedByteOfHex(b, rest);
  }

  lemma {:induction false} EscapedBytesOfPercentEncode(bytes: seq<int>, t: string)
    requires forall b <- bytes :: 0 <= b < 0x100
    ensures EscapedBytes(PercentEncode(bytes) + t, |bytes|) == Some(bytes)
    decreases |bytes|
  {
    if |bytes| > 0 {
      assert bytes[0] in bytes;
      assert forall b <- bytes[1..] :: b in bytes;
      assert [bytes[0]] + bytes[1..] == bytes;
      EscapedLeadByte(bytes[0], bytes[1..], t);
      EscapedBytesOfPercentEncode(bytes[1..], t);
    }
  }

  lemma DecodeEncodedChar(c: char, t: string)
    ensures PercentDecode(EncodeUriChar(c) + t) ==
      match PercentDecode(t)
      case None => None
      case Some(rest) => Some([c] + rest)
  {
    if UriUnescaped(c) {
      assert ([c] + t)[1..] == t;
    } else {
      DecodeEscapedChar(c, t);
    }
  }

  lemma DecodeEscapedChar(c: char, t: string)
    requires !UriUnescaped(c)
    ensures PercentDecode(PercentEncode(Utf8Bytes(c as int)) + t) ==
      match PercentDecode(t)
      case None => None
      case Some(rest) => Some([c] + rest)
  {
    var cp := c as int;
    var bytes := Utf8Bytes(cp);
    var s := PercentEncode(bytes) + t;
    assert s[0] == '%' && EscapedByte(s) == Some(bytes[0]) by {
      assert bytes[0] in bytes;
      assert forall b <- bytes[1..] :: b in bytes;
      assert [bytes[0]] + bytes[1..] == bytes;
      EscapedLeadByte(bytes[0], bytes[1..], t);
    }
    assert Utf8Length(bytes[0]) == |bytes| && Utf8Decode(bytes) == cp by {
      Utf8RoundTrip(cp);
    }
    assert EscapedBytes(s, |bytes|) == Some(bytes) by {
      EscapedBytesOfPercentEncode(bytes, t);
    }
    assert s[3 * |bytes|..] == t;
    assert (cp as char) == c;
  }

  /** Percent-decoding undoes `encodeURI`: no information is lost by the escaping. */
  lemma {:induction false} PercentDecodeEncodeUri(s: string)
    ensures PercentDecode(EncodeUri(s)) == Some(s)
    decreases |s|
  {
    if |s| > 0 {
      PercentDecodeEncodeUri(s[1..]);
      DecodeEncodedChar(s[0], EncodeUri(s[1..]));
      assert s == [s[0]] + s[1..];
    }
  }
}
