/**
 * Trigger priorities. The builder asks `Double.parseDouble` whether the text
 * is a number and, if so, stores `new DecimalFormat("##00.00").format(...)`
 * of it. `ParsesAsDouble` is the input grammar of `Double.parseDouble`;
 * `FormatPriority` is the formatter on the integral decimals below 2^53,
 * which a double holds exactly, so that no rounding is involved.
 */
module PriorityFormat {
  import opened JavaStrings

  predicate IsDigit(c: char) {
    '0' <= c <= '9'
  }

  predicate IsHexDigit(c: char) {
    IsDigit(c) || 'a' <= c <= 'f' || 'A' <= c <= 'F'
  }

  predicate AllDigits(s: string) {
    forall i :: 0 <= i < |s| ==> IsDigit(s[i])
  }

  function DotCount(s: string): nat {
    if s == [] then 0 else (if s[0] == '.' then 1 else 0) + DotCount(s[1..])
  }

  /** The position of the first character of `stops` in `s`, or `|s|` when there is none. */
  function IndexOfAny(s: string, stops: set<char>): (k: nat)
    ensures k <= |s|
    ensures forall i :: 0 <= i < k ==> s[i] !in stops
    ensures k < |s| ==> s[k] in stops
  {
    if s == [] || s[0] in stops then 0 else 1 + IndexOfAny(s[1..], stops)
  }

  /** Digits (decimal or hexadecimal) with at most one point and at least one digit. */
  predicate Mantissa(m: string, hex: bool) {
    (forall i :: 0 <= i < |m| ==> m[i] == '.' || (if hex then IsHexDigit(m[i]) else IsDigit(m[i])))
    && DotCount(m) <= 1 && DotCount(m) < |m|
  }

  /** An exponent: an optional sign and at least one decimal digit. */
  predicate SignedDigits(e: string) {
    var w := if e != [] && (e[0] == '+' || e[0] == '-') then e[1..] else e;
    w != [] && AllDigits(w)
  }

  /** Drops one trailing type suffix `f`, `F`, `d` or `D`. */
  function StripTypeSuffix(u: string): string {
    if u != [] && u[|u| - 1] in {'f', 'F', 'd', 'D'} then u[..|u| - 1] else u
  }

  /** `digits[.digits][(e|E)[sign]digits][f|F|d|D]`, with at least one digit before the exponent. */
  predicate DecimalLiteral(u: string) {
    var v := StripTypeSuffix(u);
    var k := IndexOfAny(v, {'e', 'E'});
    Mantissa(v[..k], false) && (k == |v| || SignedDigits(v[k + 1..]))
  }

  /** `0(x|X)hexdigits[.hexdigits](p|P)[sign]digits[f|F|d|D]`: the binary exponent is mandatory. */
  predicate HexLiteral(u: string) {
    |u| >= 2 && u[0] == '0' && (u[1] == 'x' || u[1] == 'X') &&
    var v := StripTypeSuffix(u[2..]);
    var k := IndexOfAny(v, {'p', 'P'});
    k < |v| && Mantissa(v[..k], true) && SignedDigits(v[k + 1..])
  }

  /**
   * `Double.parseDouble(p)` returns instead of throwing `NumberFormatException`:
   * after trimming and one optional sign, the text is `NaN`, `Infinity`, a
   * hexadecimal or a decimal floating-point literal.
   */
  predicate ParsesAsDouble(p: string): (r: bool)
    ensures r ==> Trim(p) != []
  {
    var t := Trim(p);
    var u := if t != [] && (t[0] == '+' || t[0] == '-') then t[1..] else t;
    u == "NaN" || u == "Infinity" || HexLiteral(u) || DecimalLiteral(u)
  }

  /** The leading run of decimal digits. */
  function LeadingDigits(s: string): (r: string)
    ensures |r| <= |s| && r == s[..|r|]
    ensures AllDigits(r)
    ensures |r| < |s| ==> !IsDigit(s[|r|])
  {
    if s != [] && IsDigit(s[0]) then [s[0]] + LeadingDigits(s[1..]) else []
  }

  /** The numeric value of a string of decimal digits, most significant first. */
  function DigitsValue(s: string): nat
    requires AllDigits(s)
  {
    if s == [] then 0 else 10 * DigitsValue(s[..|s| - 1]) + (s[|s| - 1] as int - '0' as int)
  }

  /** The shortest decimal numeral of `n`. */
  function Numeral(n: nat): (r: string)
    ensures r != [] && AllDigits(r)
  {
    if n < 10 then [('0' as int + n) as char] else Numeral(n / 10) + [('0' as int + n % 10) as char]
  }

  /** Left-pads a numeral with zeros to the two integer digits of `##00.00`. */
  function PadToTwo(s: string): string
    decreases 2 - |s|
  {
    if |s| < 2 then PadToTwo(['0'] + s) else s
  }

  /** A fraction that adds nothing to an integral value: empty, or a point followed by zeros. */
  predicate IsZeroFraction(f: string) {
    f == [] || (f[0] == '.' && forall i :: 1 <= i < |f| ==> f[i] == '0')
  }

  /** 2^53: every integer below it is held exactly by a double. */
  const ExactLimit: nat := 0x20_0000_0000_0000

  /**
   * The inputs whose formatting is modelled: after trimming, a run of digits
   * followed by nothing or by a point and zeros, with a value below 2^53.
   */
  predicate InFormatDomain(p: string) {
    var t := Trim(p);
    var d := LeadingDigits(t);
    d != [] && IsZeroFraction(t[|d|..]) && DigitsValue(d) < ExactLimit
  }

  /** The integer value of a text of the formatted domain. */
  function IntegerValue(p: string): nat
    requires InFormatDomain(p)
  {
    DigitsValue(LeadingDigits(Trim(p)))
  }

  /**
   * `Trigger.formatPriority` on its modelled domain: the integer part with
   * no superfluous zeros but at least two digits, then `.00`; the result is
   * itself in the domain and denotes the same number.
   */
  function FormatPriority(p: string): (r: string)
    requires InFormatDomain(p)
    ensures InFormatDomain(r) && IntegerValue(r) == IntegerValue(p)
    ensures r == LeadingDigits(r) + ".00"
    ensures |LeadingDigits(r)| >= 2 && (|LeadingDigits(r)| == 2 || r[0] != '0')
  {
    var n := IntegerValue(p);
    var d := PadToTwo(Numeral(n));
    FormattedShape(n);
    d + ".00"
  }

  lemma {:induction false} NumeralValue(n: nat)
    ensures DigitsValue(Numeral(n)) == n
  {
    if n >= 10 {
      var s := Numeral(n);
      assert s[..|s| - 1] == Numeral(n / 10);
      NumeralValue(n / 10);
    }
  }

  lemma {:induction false} NumeralNoLeadingZero(n: nat)
    ensures |Numeral(n)| == 1 || Numeral(n)[0] != '0'
  {
    if n >= 10 {
      NumeralNoLeadingZero(n / 10);
      NumeralLowerBound(n / 10);
    }
  }

  lemma {:induction false} NumeralLowerBound(n: nat)
    ensures Numeral(n)[0] == '0' ==> n == 0
  {
    if n >= 10 { NumeralLowerBound(n / 10); }
  }

  lemma {:induction false} LeadingZeroValue(s: string)
    requires AllDigits(s)
    ensures AllDigits(['0'] + s) && DigitsValue(['0'] + s) == DigitsValue(s)
  {
    if s != [] {
      assert (['0'] + s)[..|s|] == ['0'] + s[..|s| - 1];
      LeadingZeroValue(s[..|s| - 1]);
    }
  }

  lemma {:induction false} PadToTwoValue(s: string)
    requires AllDigits(s)
    ensures AllDigits(PadToTwo(s)) && DigitsValue(PadToTwo(s)) == DigitsValue(s)
    ensures |PadToTwo(s)| == if |s| < 2 then 2 else |s|
    ensures |s| >= 2 ==> PadToTwo(s) == s
    ensures |s| > 0 && s[0] != '0' ==> PadToTwo(s)[0] != '0' || |PadToTwo(s)| == 2
    decreases 2 - |s|
  {
    if |s| < 2 {
      LeadingZeroValue(s);
      PadToTwoValue(['0'] + s);
    }
  }

  /** A run of digits followed by a text that starts with a non-digit. */
  lemma {:induction false} LeadingDigitsOfConcat(d: string, rest: string)
    requires AllDigits(d)
    requires rest == [] || !IsDigit(rest[0])
    ensures LeadingDigits(d + rest) == d
  {
    if d != [] {
      assert (d + rest)[1..] == d[1..] + rest;
      LeadingDigitsOfConcat(d[1..], rest);
    }
  }

  /** A run of digits followed by `.00` is a text of the formatted domain's shape. */
  lemma {:induction false} FormattedTextShape(d: string)
    requires d != [] && AllDigits(d)
    ensures Trim(d + ".00") == d + ".00"
    ensures LeadingDigits(d + ".00") == d
    ensures IsZeroFraction((d + ".00")[|d|..])
  {
    var r := d + ".00";
    assert IsDigit(d[0]) && r[0] == d[0] && r[|r| - 1] == '0';
    assert r[|d|..] == ".00";
    assert IsZeroFraction(r[|d|..]);
    LeadingDigitsOfConcat(d, ".00");
    assert Trim(r) == r by { TrimOfTrimmed(r); }
  }

  lemma FormattedShape(n: nat)
    requires n < ExactLimit
    ensures InFormatDomain(PadToTwo(Numeral(n)) + ".00")
    ensures IntegerValue(PadToTwo(Numeral(n)) + ".00") == n
    ensures LeadingDigits(PadToTwo(Numeral(n)) + ".00") == PadToTwo(Numeral(n))
    ensures |PadToTwo(Numeral(n))| >= 2
    ensures |PadToTwo(Numeral(n))| == 2 || PadToTwo(Numeral(n))[0] != '0'
  {
    var s := Numeral(n);
    var d := PadToTwo(s);
    NumeralValue(n);
    NumeralNoLeadingZero(n);
    PadToTwoValue(s);
    var r := d + ".00";
    FormattedTextShape(d);
    assert LeadingDigits(Trim(r)) == d;
    assert DigitsValue(d) == n;
    assert InFormatDomain(r);
    assert IntegerValue(r) == n;
  }

  /** Formatting a formatted priority gives it back: `formatPriority` is idempotent. */
  lemma FormatPriorityIdempotent(p: string)
    requires InFormatDomain(p)
    ensures FormatPriority(FormatPriority(p)) == FormatPriority(p)
  {
  }

  /** Every text of the formatted domain is accepted by `Double.parseDouble`. */
  lemma InFormatDomainParses(p: string)
    requires InFormatDomain(p)
    ensures ParsesAsDouble(p)
  {
    var t := Trim(p);
    var d := LeadingDigits(t);
    var f := t[|d|..];
    assert t == d + f;
    assert forall i :: 0 <= i < |t| ==> t[i] == '.' || IsDigit(t[i]) by {
      forall i | 0 <= i < |t| ensures t[i] == '.' || IsDigit(t[i]) {
        if i >= |d| { assert t[i] == f[i - |d|]; }
      }
    }
    assert !(t[0] == '+' || t[0] == '-');
    assert StripTypeSuffix(t) == t;
    DotCountOfShape(d, f);
    assert IndexOfAny(t, {'e', 'E'}) == |t|;
    assert t[..|t|] == t;
    assert Mantissa(t, false);
    assert DecimalLiteral(t);
  }

  lemma {:induction false} DotCountOfShape(d: string, f: string)
    requires AllDigits(d) && IsZeroFraction(f)
    ensures DotCount(d + f) == DotCount(f) <= 1
    ensures DotCount(d + f) < |d + f| || d == []
  {
    if d != [] {
      assert (d + f)[1..] == d[1..] + f;
      DotCountOfShape(d[1..], f);
    } else {
      assert d + f == f;
      if f != [] { ZerosHaveNoDot(f[1..]); }
    }
  }

  lemma {:induction false} ZerosHaveNoDot(z: string)
    requires forall i :: 0 <= i < |z| ==> z[i] == '0'
    ensures DotCount(z) == 0
  {
    if z != [] { ZerosHaveNoDot(z[1..]); }
  }

  /** The value pinned by `TriggerTest`: `"2"` is stored as `"02.00"`. */
  lemma FormatPriorityOfTwo()
    ensures InFormatDomain("2") && FormatPriority("2") == "02.00"
  {
    assert Trim("2") == "2";
    assert LeadingDigits("2") == "2";
    assert DigitsValue("2") == 2;
    assert Numeral(2) == "2";
  }

  /** A non-numeric text is rejected by `Double.parseDouble`, so the builder keeps it. */
  lemma AbcDoesNotParse()
    ensures !ParsesAsDouble("abc")
  {
    assert Trim("abc") == "abc" by { TrimOfTrimmed("abc"); }
    assert StripTypeSuffix("abc") == "abc";
    assert IndexOfAny("abc", {'e', 'E'}) == 3;
  }
}
