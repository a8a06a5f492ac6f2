/** The Laravel validation rules the controllers use, as predicates over the
    values a JSON request body can carry. */
module Validation {
  import opened Base
  import opened Text

  /** A request field: absent, JSON `null`, a string, an integer, or a number
      with a fractional part (held in cents). */
  datatype Value = Absent | Null | Str(s: string) | Int(i: int) | Num(cents: int)

  /** `required`: present, not null, and not a string that is empty after
      `trim`. */
  predicate Required(v: Value) {
    match v {
      case Absent => false
      case Null => false
      case Str(s) => PhpTrim(s) != ""
      case _ => true
    }
  }

  /** `required|string|max:hi`. */
  predicate StringMax(v: Value, hi: nat) {
    Required(v) && v.Str? && |v.s| <= hi
  }

  /** `required|string|min:lo|max:hi`. */
  predicate StringBetween(v: Value, lo: nat, hi: nat) {
    Required(v) && v.Str? && lo <= |v.s| <= hi
  }

  /** `required|string|min:lo` (no upper bound). */
  predicate StringMin(v: Value, lo: nat) {
    Required(v) && v.Str? && lo <= |v.s|
  }

  /** `nullable|string|max:hi`: absent and null pass, anything else must be a
      short enough string. */
  predicate NullableStringMax(v: Value, hi: nat) {
    v.Absent? || v.Null? || (v.Str? && |v.s| <= hi)
  }

  /** An e-mail address: one `@` with text on both sides and no blanks. */
  predicate IsEmail(s: string) {
    var parts := Split(s, '@');
    |parts| == 2 && parts[0] != [] && parts[1] != [] &&
    forall i :: 0 <= i < |s| ==> !IsPhpSpace(s[i])
  }

  /** An address made of a local part and a domain without `@` or blanks is
      an e-mail address. */
  lemma EmailOf(local: string, domain: string)
    requires local != [] && domain != []
    requires forall i :: 0 <= i < |local| ==> local[i] != '@' && !IsPhpSpace(local[i])
    requires forall i :: 0 <= i < |domain| ==> domain[i] != '@' && !IsPhpSpace(domain[i])
    ensures IsEmail(local + ['@'] + domain)
  {
    var s := local + ['@'] + domain;
    SplitNoSep(domain, '@');
    SplitAtSep(local, '@', domain);
    forall i | 0 <= i < |s| ensures !IsPhpSpace(s[i]) {
      if i > |local| {
        assert s[i] == domain[i - |local| - 1];
      }
    }
  }

  /** `required|email`. */
  predicate RequiredEmail(v: Value) {
    Required(v) && v.Str? && IsEmail(v.s)
  }

  /** `required|email|max:hi`. */
  predicate EmailMax(v: Value, hi: nat) {
    RequiredEmail(v) && |v.s| <= hi
  }

  /** The digits of an integer text, after an optional sign. */
  function Magnitude(s: string): string {
    if |s| > 0 && (s[0] == '-' || s[0] == '+') then s[1..] else s
  }

  /** A decimal integer as `FILTER_VALIDATE_INT` accepts it: an optional
      sign, then digits without a leading zero (a lone `0` aside). */
  predicate IntegerText(s: string) {
    var d := Magnitude(s);
    d != [] && AllDigits(d) && (d[0] != '0' || |d| == 1)
  }

  /** `integer`. */
  predicate IsInteger(v: Value) {
    match v {
      case Int(_) => true
      case Num(c) => c % 100 == 0
      case Str(s) => IntegerText(s)
      case _ => false
    }
  }

  /** The integer an `integer` field holds. */
  function IntegerValue(v: Value): int
    requires IsInteger(v)
  {
    match v {
      case Int(i) => i
      case Num(c) => c / 100
      case Str(s) => var m: int := DigitsValue(Magnitude(s)); if s[0] == '-' then -m else m
    }
  }

  /** A numeric text in cents: digits, or `[-]digits.dd`. */
  function NumericCents(s: string): Option<int> {
    if s != [] && AllDigits(s) then Some(DigitsValue(s) * 100) else ParseCents(s)
  }

  /** `numeric`. */
  predicate IsNumeric(v: Value) {
    match v {
      case Int(_) => true
      case Num(_) => true
      case Str(s) => NumericCents(s).Some?
      case _ => false
    }
  }

  /** The amount a `numeric` field holds, in cents. */
  function CentsOf(v: Value): int
    requires IsNumeric(v)
  {
    match v {
      case Int(i) => i * 100
      case Num(c) => c
      case Str(s) => NumericCents(s).value
    }
  }

  /** `required|numeric|min:0`. */
  predicate NonNegativeAmount(v: Value) {
    Required(v) && IsNumeric(v) && CentsOf(v) >= 0
  }

  /** `required|integer`. */
  predicate RequiredInteger(v: Value) {
    Required(v) && IsInteger(v)
  }

  /** A number of cents as PHP prints the float it stands for: the integer
      part, then the fraction without trailing zeros. */
  function CentsText(c: int): string {
    var a := if c < 0 then -c else c;
    var f := a % 100;
    (if c < 0 then "-" else "") + NatToDecimal(a / 100) +
    (if f == 0 then "" else if f % 10 == 0 then "." + [DigitChar(f / 10)]
     else "." + [DigitChar(f / 10), DigitChar(f % 10)])
  }

  /** A field as PHP's string interpolation renders it; absent and null
      become the empty string. */
  function Render(v: Value): string {
    match v {
      case Absent => ""
      case Null => ""
      case Str(s) => s
      case Int(i) => IntToDecimal(i)
      case Num(c) => CentsText(c)
    }
  }

  // ---------------------------------------------------------------------
  // The rules accept what the application itself renders
  // ---------------------------------------------------------------------

  /** Every integer, written in decimal, passes `integer` and reads back as
      itself. */
  lemma IntegerTextRoundTrip(i: int)
    ensures IsInteger(Str(IntToDecimal(i))) && IntegerValue(Str(IntToDecimal(i))) == i
  {
    var a := if i < 0 then -i else i;
    var d := NatToDecimal(a);
    DecimalRoundTrip(a);
    if i < 0 {
      assert IntToDecimal(i) == "-" + d;
      assert Magnitude("-" + d) == d;
    } else {
      assert IntToDecimal(i) == d;
      assert Magnitude(d) == d;
    }
  }

  /** A price printed with two decimals passes `numeric` with the same
      amount. */
  lemma NumericCentsFormat(cents: int)
    ensures IsNumeric(Str(FormatCents(cents))) && CentsOf(Str(FormatCents(cents))) == cents
  {
    var s := FormatCents(cents);
    FormatCentsRoundTrip(cents);
    assert '.' in s;
    var k :| 0 <= k < |s| && s[k] == '.';
    assert !IsDigit(s[k]);
  }

  /** A blank string never passes `required`, whatever the length bounds. */
  lemma BlankNotRequired(s: string, hi: nat)
    requires forall i :: 0 <= i < |s| ==> IsPhpSpace(s[i])
    ensures !Required(Str(s)) && !StringMax(Str(s), hi)
  {
    TrimAllSpaces(s);
  }

  lemma {:induction false} TrimAllSpaces(s: string)
    requires forall i :: 0 <= i < |s| ==> IsPhpSpace(s[i])
    ensures PhpTrim(s) == ""
  {
    TrimStartAll(s);
  }

  lemma {:induction false} TrimStartAll(s: string)
    requires forall i :: 0 <= i < |s| ==> IsPhpSpace(s[i])
    ensures TrimStart(s, IsPhpSpace) == ""
  {
    TrimStartSuffix(s, IsPhpSpace);
  }
}
