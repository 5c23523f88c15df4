/** The JavaScript string and number behaviour the showMemory command relies on:
    `split`, `startsWith`, `parseInt`, `toString`, `padEnd`, the UTF-16 view of a
    string, the first byte `TextEncoder` produces for one code unit, and
    `String.fromCharCode` of a byte. */
module JsText {

  /** A value a `Uint8Array` cell can hold. */
  type byte = x: int | 0 <= x < 256

  /** A JavaScript number as far as this program uses one: an integer or NaN. */
  datatype Number = Int(value: int) | NaN

  /** `i < n` for an integer `i` and a JavaScript number `n`: every comparison with NaN is false. */
  predicate LessThan(i: int, n: Number) {
    n.Int? && i < n.value
  }

  // ---------------------------------------------------------------------------
  // Lines and prefixes

  /** `s.startsWith(prefix)` */
  predicate StartsWith(s: string, prefix: string) {
    |prefix| <= |s| && s[..|prefix|] == prefix
  }

  /** `s.split(sep)` for a one-character separator: the pieces between separators, always at least one. */
  function Split(s: string, sep: char): (parts: seq<string>)
    ensures |parts| >= 1
    ensures forall i :: 0 <= i < |parts| ==> sep !in parts[i]
    decreases |s|
  {
    if |s| == 0 then [""]
    else
      var rest := Split(s[1..], sep);
      if s[0] == sep then [""] + rest
      else [[s[0]] + rest[0]] + rest[1..]
  }

  /** `parts.join(sep)` */
  function Join(parts: seq<string>, sep: char): string
    requires |parts| >= 1
    decreases |parts|
  {
    if |parts| == 1 then parts[0] else parts[0] + [sep] + Join(parts[1..], sep)
  }

  /** Splitting loses nothing: joining the pieces again gives back the text. */
  lemma {:induction false} JoinSplit(s: string, sep: char)
    ensures Join(Split(s, sep), sep) == s
    decreases |s|
  {
    if |s| > 0 {
      var rest := Split(s[1..], sep);
      JoinSplit(s[1..], sep);
      if s[0] == sep {
        assert Split(s, sep)[1..] == rest;
      } else {
        var parts := Split(s, sep);
        if |rest| == 1 {
          assert parts == [[s[0]] + rest[0]];
        } else {
          assert parts[1..] == rest[1..];
          assert Join(rest, sep) == rest[0] + [sep] + Join(rest[1..], sep);
        }
      }
    }
  }

  /** A piece without the separator, followed by the separator, starts a new piece. */
  lemma {:induction false} SplitPiece(a: string, sep: char, b: string)
    requires sep !in a
    ensures Split(a + [sep] + b, sep) == [a] + Split(b, sep)
    ensures Split(a, sep) == [a]
    decreases |a|
  {
    if |a| == 0 {
      assert [sep] + b == a + [sep] + b;
      assert ([sep] + b)[1..] == b;
    } else {
      assert (a + [sep] + b)[1..] == a[1..] + [sep] + b;
      SplitPiece(a[1..], sep, b);
      assert [a[0]] + a[1..] == a;
    }
  }

  /** Joining pieces that hold no separator and splitting again gives back the pieces. */
  lemma {:induction false} SplitJoin(parts: seq<string>, sep: char)
    requires |parts| >= 1
    requires forall i :: 0 <= i < |parts| ==> sep !in parts[i]
    ensures Split(Join(parts, sep), sep) == parts
    decreases |parts|
  {
    if |parts| == 1 {
      SplitPiece(parts[0], sep, "");
    } else {
      SplitJoin(parts[1..], sep);
      SplitPiece(parts[0], sep, Join(parts[1..], sep));
      assert [parts[0]] + parts[1..] == parts;
    }
  }

  // ---------------------------------------------------------------------------
  // parseInt

  /** ECMAScript WhiteSpace and LineTerminator code points, which `parseInt` skips before a number. */
  predicate IsWhiteSpace(c: char) {
    c == '\t' || c == '\n' || c == '\U{000B}' || c == '\U{000C}' || c == '\r' || c == ' '
    || c == '\U{00A0}' || c == '\U{1680}' || ('\U{2000}' <= c <= '\U{200A}')
    || c == '\U{2028}' || c == '\U{2029}' || c == '\U{202F}' || c == '\U{205F}'
    || c == '\U{3000}' || c == '\U{FEFF}'
  }

  /** The value of an ASCII letter or digit as a digit of radix 36. */
  function DigitValue(c: char): (d: nat)
    requires ('0' <= c <= '9') || ('a' <= c <= 'z') || ('A' <= c <= 'Z')
    ensures d < 36
  {
    if '0' <= c <= '9' then c as int - '0' as int
    else if 'a' <= c <= 'z' then c as int - 'a' as int + 10
    else c as int - 'A' as int + 10
  }

  /** Whether `c` is a digit of the given radix. */
  predicate IsDigit(c: char, radix: nat) {
    (('0' <= c <= '9') || ('a' <= c <= 'z') || ('A' <= c <= 'Z')) && DigitValue(c) < radix
  }

  /** The text after the leading white space. */
  function TrimStart(s: string): (r: string)
    ensures |r| <= |s| && r == s[|s| - |r|..]
    ensures forall i :: 0 <= i < |s| - |r| ==> IsWhiteSpace(s[i])
    ensures |r| == 0 || !IsWhiteSpace(r[0])
  {
    if |s| > 0 && IsWhiteSpace(s[0]) then TrimStart(s[1..]) else s
  }

  /** The length of the longest prefix of `s` made of digits of `radix`. */
  function DigitRun(s: string, radix: nat): (n: nat)
    ensures n <= |s|
    ensures forall i :: 0 <= i < n ==> IsDigit(s[i], radix)
    ensures n < |s| ==> !IsDigit(s[n], radix)
  {
    if |s| == 0 || !IsDigit(s[0], radix) then 0 else 1 + DigitRun(s[1..], radix)
  }

  /** The value of a string of digits in `radix`, most significant first. */
  function DigitsValue(s: string, radix: nat): nat
    requires forall i :: 0 <= i < |s| ==> IsDigit(s[i], radix)
  {
    if |s| == 0 then 0
    else
      assert IsDigit(s[|s| - 1], radix);
      var high := DigitsValue(s[..|s| - 1], radix);
      assert high * radix >= 0;
      high * radix + DigitValue(s[|s| - 1])
  }

  /** `parseInt(s)` without a radix argument: skip white space, read an optional sign, then the
      magnitude. */
  function ParseInt(s: string): (r: Number)
    ensures r.Int? && r.value < 0 ==> |TrimStart(s)| > 0 && TrimStart(s)[0] == '-'
  {
    ParseSigned(TrimStart(s))
  }

  /** An optional sign, then the magnitude. */
  function ParseSigned(t: string): Number {
    if |t| > 0 && t[0] == '-' then Negate(ParseMagnitude(t[1..]))
    else if |t| > 0 && t[0] == '+' then ParseMagnitude(t[1..])
    else ParseMagnitude(t)
  }

  /** The unsigned part of `parseInt`: an optional `0x`/`0X` prefix selects radix 16, then the
      longest run of digits of the radix is read; NaN when that run is empty. */
  function ParseMagnitude(u: string): (r: Number)
    ensures r.Int? ==> r.value >= 0
  {
    if |u| >= 2 && u[0] == '0' && (u[1] == 'x' || u[1] == 'X') then ParseDigits(u[2..], 16)
    else ParseDigits(u, 10)
  }

  /** The longest run of digits of `radix` at the start of `v`, read as a number; NaN when
      there is none. */
  function ParseDigits(v: string, radix: nat): (r: Number)
    ensures r.NaN? <==> |v| == 0 || !IsDigit(v[0], radix)
    ensures r.Int? ==> r.value >= 0
  {
    var n := DigitRun(v, radix);
    if n == 0 then NaN else Int(DigitsValue(v[..n], radix))
  }

  /** Unary minus on a JavaScript number. */
  function Negate(n: Number): Number {
    match n
    case Int(i) => Int(-i)
    case NaN => NaN
  }

  // ---------------------------------------------------------------------------
  // toString and padEnd

  /** The decimal digit for `d`. */
  function DigitChar(d: nat): (c: char)
    requires d < 10
    ensures IsDigit(c, 10) && DigitValue(c) == d
  {
    ('0' as int + d) as char
  }

  /** `n.toString()` for a non-negative integer: its decimal digits, most significant first. */
  function NatToString(n: nat): (s: string)
    ensures |s| >= 1
    ensures forall i :: 0 <= i < |s| ==> IsDigit(s[i], 10)
  {
    if n < 10 then [DigitChar(n)] else NatToString(n / 10) + [DigitChar(n % 10)]
  }

  /** `i.toString()` for an integer. */
  function IntToString(i: int): string {
    if i < 0 then "-" + NatToString(-i) else NatToString(i)
  }

  /** `String(n)` for a JavaScript number. */
  function NumberToString(n: Number): string {
    match n
    case Int(i) => IntToString(i)
    case NaN => "NaN"
  }

  /** Reading back the decimal digits of `n` gives `n`. */
  lemma {:induction false} DigitsValueOfNatToString(n: nat)
    ensures DigitsValue(NatToString(n), 10) == n
  {
    var s := NatToString(n);
    if n >= 10 {
      DigitsValueOfNatToString(n / 10);
      assert s[..|s| - 1] == NatToString(n / 10);
    }
  }

  /** The digit run of a digit string followed by a non-digit is that digit string. */
  lemma {:induction false} DigitRunOfDigits(d: string, rest: string, radix: nat)
    requires forall i :: 0 <= i < |d| ==> IsDigit(d[i], radix)
    requires |rest| == 0 || !IsDigit(rest[0], radix)
    ensures DigitRun(d + rest, radix) == |d|
    decreases |d|
  {
    if |d| > 0 {
      assert (d + rest)[1..] == d[1..] + rest;
      DigitRunOfDigits(d[1..], rest, radix);
    } else {
      assert d + rest == rest;
    }
  }

  /** The magnitude read from a digit string followed by text that cannot continue it. */
  lemma ParseMagnitudeOfDigits(n: nat, rest: string)
    requires |rest| == 0 || (!IsDigit(rest[0], 10) && (n == 0 ==> rest[0] != 'x' && rest[0] != 'X'))
    ensures ParseMagnitude(NatToString(n) + rest) == Int(n)
  {
    var d := NatToString(n);
    var s := d + rest;
    assert !(|s| >= 2 && s[0] == '0' && (s[1] == 'x' || s[1] == 'X')) by {
      assert s[0] == d[0];
      LeadingDigit(n);
      if n == 0 && |rest| > 0 { assert s[1] == rest[0]; }
    }
    DigitRunOfDigits(d, rest, 10);
    assert s[..|d|] == d;
    DigitsValueOfNatToString(n);
  }

  /** The decimal digits of a positive number do not start with `0`. */
  lemma {:induction false} LeadingDigit(n: nat)
    ensures NatToString(n)[0] == '0' <==> n == 0
  {
    if n >= 10 {
      LeadingDigit(n / 10);
    }
  }

  /** `parseInt` reads back what `toString` wrote, also when text that cannot continue the
      number follows it (such as the `"\r"` a Windows line ending leaves on a line); after a
      lone `0` that text must not be an `x`, which would make it a `0x` prefix. */
  lemma ParseIntNatToString(n: nat, rest: string)
    requires |rest| == 0 || (!IsDigit(rest[0], 10) && (n == 0 ==> rest[0] != 'x' && rest[0] != 'X'))
    ensures ParseInt(NatToString(n) + rest) == Int(n)
  {
    var s := NatToString(n) + rest;
    assert s[0] == NatToString(n)[0];
    TrimStartNothing(s);
    ParseMagnitudeOfDigits(n, rest);
  }

  /** A text that starts with a non-blank character has no white space to skip. */
  lemma TrimStartNothing(s: string)
    requires |s| > 0 && !IsWhiteSpace(s[0])
    ensures TrimStart(s) == s
  {
  }

  /** `parseInt(String(i))` is `i` for every integer. */
  lemma ParseIntIntToString(i: int)
    ensures ParseInt(IntToString(i)) == Int(i)
  {
    var s := IntToString(i);
    assert s[0] == '-' || IsDigit(s[0], 10);
    TrimStartNothing(s);
    ParseSignedIntToString(i);
  }

  /** The sign and magnitude of `String(i)` read back as `i`. */
  lemma ParseSignedIntToString(i: int)
    ensures ParseSigned(IntToString(i)) == Int(i)
  {
    if i < 0 {
      ParseSignedOfNegative(-i);
    } else {
      ParseSignedOfNat(i);
    }
  }

  /** A minus sign followed by the digits of `n` reads as `-n`. */
  lemma ParseSignedOfNegative(n: nat)
    ensures ParseSigned("-" + NatToString(n)) == Int(-(n as int))
  {
    ParseSignedNegative(NatToString(n));
    ParseMagnitudeOfNat(n);
  }

  /** The digits of `n` with no sign read as `n`. */
  lemma ParseSignedOfNat(n: nat)
    ensures ParseSigned(NatToString(n)) == Int(n)
  {
    assert IsDigit(NatToString(n)[0], 10);
    ParseMagnitudeOfNat(n);
  }

  /** A leading minus sign negates what follows it. */
  lemma ParseSignedNegative(d: string)
    ensures ParseSigned("-" + d) == Negate(ParseMagnitude(d))
  {
    assert ("-" + d)[1..] == d;
  }

  /** The digits of `n` alone read as `n`. */
  lemma ParseMagnitudeOfNat(n: nat)
    ensures ParseMagnitude(NatToString(n)) == Int(n)
  {
    assert NatToString(n) + "" == NatToString(n);
    ParseMagnitudeOfDigits(n, "");
  }

  /** A decimal string of a number below `10^k` has at most `k` digits. */
  lemma {:induction false} NatToStringWidth(n: nat, k: nat)
    requires k >= 1 && n < Pow10(k)
    ensures |NatToString(n)| <= k
  {
    if n >= 10 {
      assert k >= 2;
      assert n / 10 < Pow10(k - 1);
      NatToStringWidth(n / 10, k - 1);
    }
  }

  /** `10^k` */
  function Pow10(k: nat): (p: nat)
    ensures p >= 1
  {
    if k == 0 then 1 else 10 * Pow10(k - 1)
  }

  /** `s.padEnd(width)`: `s` followed by spaces up to `width` characters; `s` itself when it is
      already that long. */
  function PadEnd(s: string, width: nat): (r: string)
    ensures |r| == if |s| >= width then |s| else width
    ensures r[..|s|] == s
    ensures forall i :: |s| <= i < |r| ==> r[i] == ' '
  {
    if |s| >= width then s else s + seq(width - |s|, _ => ' ')
  }

  // ---------------------------------------------------------------------------
  // Characters and bytes

  /** The UTF-16 code units of one code point. */
  function CodeUnits(c: char): (units: seq<int>)
    ensures 1 <= |units| <= 2
    ensures forall i :: 0 <= i < |units| ==> 0 <= units[i] < 0x10000
    ensures c as int < 0x10000 ==> units == [c as int]
  {
    var v := c as int;
    if v < 0x10000 then [v]
    else [0xD800 + (v - 0x10000) / 0x400, 0xDC00 + (v - 0x10000) % 0x400]
  }

  /** A JavaScript string's view of `s`: its UTF-16 code units, which `s[k]` and `s.length` index. */
  function Utf16(s: string): (units: seq<int>)
    ensures |units| >= |s|
    ensures forall i :: 0 <= i < |units| ==> 0 <= units[i] < 0x10000
  {
    if |s| == 0 then [] else CodeUnits(s[0]) + Utf16(s[1..])
  }

  /** Whether every element is a UTF-16 code unit. */
  predicate AreCodeUnits(units: seq<int>) {
    forall i :: 0 <= i < |units| ==> 0 <= units[i] < 0x10000
  }

  /** `new TextEncoder().encode(u)[0]` for a string of the single code unit `u`: the lead byte of
      its UTF-8 form; a lone surrogate is encoded as U+FFFD, whose lead byte is 0xEF. */
  function FirstUtf8Byte(u: int): (b: byte)
    requires 0 <= u < 0x10000
    ensures u < 0x80 <==> b < 0x80
  {
    if u < 0x80 then u
    else if u < 0x800 then 0xC0 + u / 0x40
    else if 0xD800 <= u < 0xE000 then 0xEF
    else 0xE0 + u / 0x1000
  }

  /** `String.fromCharCode(b)` */
  function FromCharCode(b: byte): (c: char)
    ensures c as int == b
  {
    b as char
  }

  /** A string of ASCII characters has one code unit per character, equal to its code. */
  lemma {:induction false} Utf16OfAscii(s: string)
    requires forall i :: 0 <= i < |s| ==> s[i] as int < 0x80
    ensures |Utf16(s)| == |s|
    ensures forall i :: 0 <= i < |s| ==> Utf16(s)[i] == s[i] as int
  {
    if |s| > 0 {
      Utf16OfAscii(s[1..]);
      assert Utf16(s) == [s[0] as int] + Utf16(s[1..]);
      forall i | 1 <= i < |s| ensures Utf16(s)[i] == s[i] as int {
        assert s[1..][i - 1] == s[i];
      }
    }
  }
}
