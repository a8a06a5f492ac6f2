/** String operations of PHP and JavaScript that the core relies on: trimming,
    integer-to-decimal conversion, `str_pad`, joining and splitting on a
    separator, and `Number.prototype.toFixed(2)` on a price held in cents. */
module Text {
  import opened Base

  // ---------------------------------------------------------------------
  // Trimming
  // ---------------------------------------------------------------------

  /** The characters PHP's `trim` removes by default. */
  predicate IsPhpSpace(c: char) {
    c == ' ' || c == '\t' || c == '\n' || c == '\r' || c == '\0' || c == '\U{000B}'
  }

  /** The characters JavaScript's `String.prototype.trim` removes: WhiteSpace
      (tab, vertical tab, form feed, space, no-break space, the byte order mark
      and the Zs category) and LineTerminator. */
  predicate IsJsSpace(c: char) {
    c == '\t' || c == '\U{000B}' || c == '\U{000C}' || c == ' ' || c == '\U{00A0}' || c == '\U{FEFF}'
    || c == '\n' || c == '\r' || c == '\U{2028}' || c == '\U{2029}'
    || c == '\U{1680}' || ('\U{2000}' <= c <= '\U{200A}') || c == '\U{202F}' || c == '\U{205F}' || c == '\U{3000}'
  }

  /** `s` without its leading characters that satisfy `sp`. */
  function TrimStart(s: string, sp: char -> bool): (r: string)
    ensures |r| <= |s|
    ensures r == [] || !sp(r[0])
    ensures forall i :: 0 <= i < |s| - |r| ==> sp(s[i])
  {
    if s == [] || !sp(s[0]) then s else TrimStart(s[1..], sp)
  }

  /** What `TrimStart` keeps is a suffix of its input. */
  lemma {:induction false} TrimStartSuffix(s: string, sp: char -> bool)
    ensures TrimStart(s, sp) == s[|s| - |TrimStart(s, sp)|..]
  {
    if s != [] && sp(s[0]) {
      TrimStartSuffix(s[1..], sp);
    }
  }

  /** `s` without its trailing characters that satisfy `sp`. */
  function TrimEnd(s: string, sp: char -> bool): (r: string)
    ensures r <= s
    ensures r == [] || !sp(r[|r| - 1])
    ensures forall i :: |r| <= i < |s| ==> sp(s[i])
  {
    if s == [] || !sp(s[|s| - 1]) then s else TrimEnd(s[..|s| - 1], sp)
  }

  /** Leading characters are trimmed from the first part only when the second
      does not start with one. */
  lemma {:induction false} TrimStartAppend(a: string, b: string, sp: char -> bool)
    requires b == [] || !sp(b[0])
    ensures TrimStart(a + b, sp) == TrimStart(a, sp) + b
  {
    if a == [] {
      assert a + b == b;
    } else if sp(a[0]) {
      assert (a + b)[1..] == a[1..] + b;
      TrimStartAppend(a[1..], b, sp);
    }
  }

  /** Trailing characters that are all trimmed away make no difference. */
  lemma {:induction false} TrimEndAppendAll(a: string, b: string, sp: char -> bool)
    requires forall i :: 0 <= i < |b| ==> sp(b[i])
    ensures TrimEnd(a + b, sp) == TrimEnd(a, sp)
  {
    if b == [] {
      assert a + b == a;
    } else {
      assert (a + b)[..|a + b| - 1] == a + b[..|b| - 1];
      TrimEndAppendAll(a, b[..|b| - 1], sp);
    }
  }

  /** PHP `trim($s)`. */
  function PhpTrim(s: string): string {
    TrimEnd(TrimStart(s, IsPhpSpace), IsPhpSpace)
  }

  /** JavaScript `s.trim()`. */
  function JsTrim(s: string): string {
    TrimEnd(TrimStart(s, IsJsSpace), IsJsSpace)
  }

  /** `k` copies of `c`. */
  function Repeat(c: char, k: nat): (r: string)
    ensures |r| == k && forall i :: 0 <= i < k ==> r[i] == c
  {
    if k == 0 then [] else [c] + Repeat(c, k - 1)
  }

  // ---------------------------------------------------------------------
  // Decimal numerals
  // ---------------------------------------------------------------------

  predicate IsDigit(c: char) { '0' <= c <= '9' }

  predicate AllDigits(s: string) { forall i :: 0 <= i < |s| ==> IsDigit(s[i]) }

  function DigitChar(d: nat): (c: char)
    requires d < 10
    ensures IsDigit(c) && (c as int) - ('0' as int) == d
  {
    ('0' as int + d) as char
  }

  /** The decimal numeral PHP and JavaScript print for a natural number. */
  function NatToDecimal(n: nat): (r: string)
    ensures |r| >= 1 && AllDigits(r)
    ensures r[0] == '0' ==> n == 0
  {
    if n < 10 then [DigitChar(n)] else NatToDecimal(n / 10) + [DigitChar(n % 10)]
  }

  /** The decimal numeral of an integer, with a leading `-` when negative. */
  function IntToDecimal(i: int): string {
    if i < 0 then "-" + NatToDecimal(-i) else NatToDecimal(i)
  }

  /** The value of a string of digits (leading zeros allowed). */
  function DigitsValue(s: string): nat
    requires AllDigits(s)
  {
    if s == [] then 0 else DigitsValue(s[..|s| - 1]) * 10 + ((s[|s| - 1] as int) - ('0' as int))
  }

  /** Reading back a printed natural number gives the number. */
  lemma {:induction false} DecimalRoundTrip(n: nat)
    ensures DigitsValue(NatToDecimal(n)) == n
  {
    if n >= 10 {
      DecimalRoundTrip(n / 10);
      var r := NatToDecimal(n);
      assert r[..|r| - 1] == NatToDecimal(n / 10);
    }
  }

  /** Leading zeros do not change the value of a numeral. */
  lemma {:induction false} LeadingZerosValue(k: nat, s: string)
    requires AllDigits(s)
    ensures AllDigits(Repeat('0', k) + s)
    ensures DigitsValue(Repeat('0', k) + s) == DigitsValue(s)
  {
    if s == [] {
      assert Repeat('0', k) + s == Repeat('0', k);
      ZerosValue(k);
    } else {
      var t := Repeat('0', k) + s;
      assert t[..|t| - 1] == Repeat('0', k) + s[..|s| - 1];
      LeadingZerosValue(k, s[..|s| - 1]);
    }
  }

  lemma {:induction false} ZerosValue(k: nat)
    ensures AllDigits(Repeat('0', k)) && DigitsValue(Repeat('0', k)) == 0
  {
    if k > 0 {
      var z := Repeat('0', k);
      assert z[..|z| - 1] == Repeat('0', k - 1);
      ZerosValue(k - 1);
    }
  }

  /** PHP `str_pad($s, $width, $c, STR_PAD_LEFT)`: pads on the left up to
      `width` characters and never truncates. */
  function PadLeft(s: string, width: nat, c: char): (r: string)
    ensures |r| == if |s| >= width then |s| else width
    ensures r == Repeat(c, |r| - |s|) + s
  {
    if |s| >= width then
      assert Repeat(c, 0) + s == s;
      s
    else Repeat(c, width - |s|) + s
  }

  // ---------------------------------------------------------------------
  // Joining and splitting on a one-character separator
  // ---------------------------------------------------------------------

  /** PHP `implode($sep, $parts)` / JavaScript `parts.join(sep)`. */
  function Join(parts: seq<string>, sep: char): (r: string)
    ensures |parts| == 1 ==> r == parts[0]
  {
    if |parts| == 0 then ""
    else if |parts| == 1 then parts[0]
    else parts[0] + [sep] + Join(parts[1..], sep)
  }

  /** JavaScript `s.split(sep)` for a one-character separator. */
  function Split(s: string, sep: char): (r: seq<string>)
    ensures |r| >= 1
  {
    if s == [] then [""]
    else
      var rest := Split(s[1..], sep);
      if s[0] == sep then [""] + rest else [[s[0]] + rest[0]] + rest[1..]
  }

  /** A string without the separator is one piece. */
  lemma {:induction false} SplitNoSep(s: string, sep: char)
    requires sep !in s
    ensures Split(s, sep) == [s]
  {
    if s != [] {
      SplitNoSep(s[1..], sep);
      assert s[0] != sep;
      assert [s[0]] + s[1..] == s;
    }
  }

  /** Splitting at the first separator. */
  lemma {:induction false} SplitAtSep(p: string, sep: char, rest: string)
    requires sep !in p
    ensures Split(p + [sep] + rest, sep) == [p] + Split(rest, sep)
  {
    if p == [] {
      assert p + [sep] + rest == [sep] + rest;
      assert ([sep] + rest)[1..] == rest;
    } else {
      var s := p + [sep] + rest;
      assert s[0] == p[0] && p[0] != sep;
      assert s[1..] == p[1..] + [sep] + rest;
      SplitAtSep(p[1..], sep, rest);
      assert [p[0]] + p[1..] == p;
    }
  }

  /** Splitting undoes joining when no part contains the separator. */
  lemma {:induction false} SplitJoin(parts: seq<string>, sep: char)
    requires |parts| >= 1
    requires forall i :: 0 <= i < |parts| ==> sep !in parts[i]
    ensures Split(Join(parts, sep), sep) == parts
  {
    if |parts| == 1 {
      SplitNoSep(parts[0], sep);
    } else {
      SplitJoin(parts[1..], sep);
      SplitAtSep(parts[0], sep, Join(parts[1..], sep));
    }
  }

  /** No character outside the parts and the separator appears in a join. */
  lemma {:induction false} JoinChars(parts: seq<string>, sep: char, c: char)
    requires c != sep
    requires forall i :: 0 <= i < |parts| ==> c !in parts[i]
    ensures c !in Join(parts, sep)
  {
    if |parts| > 1 {
      JoinChars(parts[1..], sep, c);
    }
  }

  // ---------------------------------------------------------------------
  // Prices in cents, printed the way `Number.prototype.toFixed(2)` does
  // ---------------------------------------------------------------------

  /** The text `(cents / 100).toFixed(2)` produces, e.g. 1250 gives "12.50". */
  function FormatCents(cents: int): (r: string)
  {
    var a := if cents < 0 then -cents else cents;
    (if cents < 0 then "-" else "") + NatToDecimal(a / 100) + "." + [DigitChar((a % 100) / 10), DigitChar(a % 10)]
  }

  /** Reads a price of the form `[-]digits.dd` back into cents. */
  function ParseCents(s: string): Option<int> {
    var neg := |s| > 0 && s[0] == '-';
    var t := if neg then s[1..] else s;
    if |t| < 4 || t[|t| - 3] != '.' || !AllDigits(t[..|t| - 3]) || !IsDigit(t[|t| - 2]) || !IsDigit(t[|t| - 1]) then None
    else
      var v := DigitsValue(t[..|t| - 3]) * 100 + ((t[|t| - 2] as int) - ('0' as int)) * 10 + ((t[|t| - 1] as int) - ('0' as int));
      Some(if neg then -v else v)
  }

  /** Cents split as `toFixed(2)` prints them: whole units, then tens and
      units of cents. */
  lemma CentsDigits(a: nat)
    ensures a / 100 * 100 + (a % 100) / 10 * 10 + a % 10 == a
  {
  }

  /** The unsigned text of a price passes every guard of the reader and
      carries the value `a`. */
  lemma CentsText(a: nat)
    ensures var t := NatToDecimal(a / 100) + "." + [DigitChar((a % 100) / 10), DigitChar(a % 10)];
      |t| >= 4 && IsDigit(t[0]) && t[|t| - 3] == '.' && AllDigits(t[..|t| - 3]) &&
      IsDigit(t[|t| - 2]) && IsDigit(t[|t| - 1]) &&
      DigitsValue(t[..|t| - 3]) * 100 + ((t[|t| - 2] as int) - ('0' as int)) * 10 + ((t[|t| - 1] as int) - ('0' as int)) == a
  {
    var d := NatToDecimal(a / 100);
    var t := d + "." + [DigitChar((a % 100) / 10), DigitChar(a % 10)];
    assert t[..|t| - 3] == d;
    assert t[|t| - 2] == DigitChar((a % 100) / 10) && t[|t| - 1] == DigitChar(a % 10);
    DecimalRoundTrip(a / 100);
    CentsDigits(a);
  }

  /** The printed price reads back as the same number of cents, so the text
      the diner sees and sends loses nothing. */
  lemma FormatCentsRoundTrip(cents: int)
    ensures ParseCents(FormatCents(cents)) == Some(cents)
  {
    var a := if cents < 0 then -cents else cents;
    var t := NatToDecimal(a / 100) + "." + [DigitChar((a % 100) / 10), DigitChar(a % 10)];
    CentsText(a);
    var s := FormatCents(cents);
    if cents < 0 {
      assert s == "-" + t;
      assert s[0] == '-' && s[1..] == t;
    } else {
      assert s == t && s[0] != '-';
    }
    var neg := |s| > 0 && s[0] == '-';
    assert neg <==> cents < 0;
    assert (if neg then s[1..] else s) == t;
  }
}
