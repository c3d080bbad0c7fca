/** The slices of JavaScript's number/string conversions the editor relies
    on: `parseInt(s)` with no radix (ECMA-262, section 21.1.2.13 of the 2022
    edition), `Number.prototype.toString(radix)` on integers, `Math.round`,
    and `s.replace(/\.[^/.]+$/, '')`. */
module JsText {
  import Arith
  import opened Options
  // ---------------------------------------------------------------------
  // Digits
  // ---------------------------------------------------------------------

  function DigitChar(d: nat): (c: char)
    requires d < 36
  {
    if d < 10 then ('0' as int + d) as char else ('a' as int + d - 10) as char
  }

  /** The value of a digit character in radix 36, either case. */
  function DigitValue(c: char): (d: Option<nat>)
    ensures d.Some? ==> d.value < 36
  {
    if '0' <= c <= '9' then Some(c as int - '0' as int)
    else if 'a' <= c <= 'z' then Some(c as int - 'a' as int + 10)
    else if 'A' <= c <= 'Z' then Some(c as int - 'A' as int + 10)
    else None
  }

  lemma DigitValueOfChar(d: nat)
    requires d < 36
    ensures DigitValue(DigitChar(d)) == Some(d)
  {
  }

  predicate IsDigit(c: char, radix: nat)
  {
    DigitValue(c).Some? && DigitValue(c).value < radix
  }

  /** The positional value of a digit sequence, most significant first. */
  function ValueOf(ds: seq<nat>, radix: nat): nat
  {
    if |ds| == 0 then 0 else ValueOf(ds[..|ds| - 1], radix) * radix + ds[|ds| - 1]
  }

  /** The values of the longest run of radix digits in `s` from index `i`. */
  function DigitsFrom(s: string, i: nat, radix: nat): (ds: seq<nat>)
    requires i <= |s|
    ensures |ds| <= |s| - i
    ensures i + |ds| < |s| ==> !IsDigit(s[i + |ds|], radix)
    decreases |s| - i
  {
    if i == |s| || !IsDigit(s[i], radix) then [] else [DigitValue(s[i]).value] + DigitsFrom(s, i + 1, radix)
  }

  /** Each value read is that of a radix digit at its place. */
  lemma {:induction false} DigitsFromValue(s: string, i: nat, radix: nat, k: nat)
    requires i <= |s| && k < |DigitsFrom(s, i, radix)|
    ensures IsDigit(s[i + k], radix) && DigitsFrom(s, i, radix)[k] == DigitValue(s[i + k]).value
    decreases k
  {
    if k > 0 {
      DigitsFromValue(s, i + 1, radix, k - 1);
      assert i + 1 + (k - 1) == i + k;
    }
  }

  /** The digits after a prefix `p` are those of what follows it. */
  lemma {:induction false} DigitsAfter(p: string, s: string, i: nat, radix: nat)
    requires i <= |s|
    ensures DigitsFrom(p + s, |p| + i, radix) == DigitsFrom(s, i, radix)
    decreases |s| - i
  {
    if i < |s| {
      assert (p + s)[|p| + i] == s[i];
      DigitsAfter(p, s, i + 1, radix);
    }
  }

  // ---------------------------------------------------------------------
  // Number.prototype.toString(radix) for integers
  // ---------------------------------------------------------------------

  /** The shortest radix-`radix` numeral of `n`, lower-case letters. */
  function NatToRadix(n: nat, radix: nat): (s: string)
    requires 2 <= radix <= 36
    ensures |s| >= 1 && IsDigit(s[0], radix)
    ensures |s| > 1 ==> s[0] != '0'
    decreases n
  {
    if n < radix then [DigitChar(n)]
    else Arith.DivStep(n, radix); NatToRadix(n / radix, radix) + [DigitChar(n % radix)]
  }

  /** Every character of the numeral is a digit of its radix. */
  lemma {:induction false} NumeralDigits(n: nat, radix: nat)
    requires 2 <= radix <= 36
    ensures forall k :: 0 <= k < |NatToRadix(n, radix)| ==> IsDigit(NatToRadix(n, radix)[k], radix)
    decreases n
  {
    if n >= radix {
      Arith.DivStep(n, radix);
      NumeralDigits(n / radix, radix);
    }
  }

  /** The first decimal digit of `n`. */
  function LeadingDigit(n: nat): (d: nat)
    ensures d < 10 && (n > 0 ==> d > 0)
  {
    if n < 10 then n else LeadingDigit(n / 10)
  }

  lemma {:induction false} NumeralStartsWithLeadingDigit(n: nat)
    ensures NatToRadix(n, 10)[0] == DigitChar(LeadingDigit(n))
    decreases n
  {
    if n >= 10 {
      Arith.DivStep(n, 10);
      NumeralStartsWithLeadingDigit(n / 10);
    }
  }

  /** From this magnitude on, `toString()` switches to exponent form. */
  const Exp21: int := 1_000_000_000_000_000_000_000

  /** A numeral without its trailing zeros (a single `0` is kept). */
  function StripZeros(ds: string): (r: string)
    requires |ds| >= 1
    ensures 1 <= |r| <= |ds| && r == ds[..|r|]
    ensures |r| > 1 ==> r[|r| - 1] != '0'
  {
    if |ds| > 1 && ds[|ds| - 1] == '0' then StripZeros(ds[..|ds| - 1]) else ds
  }

  /** Exponent form of a number of 22 or more digits (Number::toString,
      section 6.1.6.1.20 of ECMA-262, 2022 edition): the significant
      digits, a point after the first when there are several, then `e+`
      and the exponent. */
  function Scientific(n: nat): (s: string)
    requires n >= Exp21
    ensures |s| >= 2 && s[0] == DigitChar(LeadingDigit(n)) && (s[1] == '.' || s[1] == 'e')
  {
    var digits := NatToRadix(n, 10);
    var sig := StripZeros(digits);
    var exponent := NatToRadix(|digits| - 1, 10);
    NumeralStartsWithLeadingDigit(n);
    if |sig| == 1 then sig + "e+" + exponent else [sig[0]] + "." + sig[1..] + "e+" + exponent
  }

  /** `n.toString()` for a non-negative integer-valued number. */
  function NumberToString(n: nat): (s: string)
    ensures |s| >= 1 && IsDigit(s[0], 10)
  {
    if n < Exp21 then NatToRadix(n, 10) else Scientific(n)
  }

  function Abs(i: int): (m: nat)
    ensures m == i || m == -i
  {
    if i < 0 then -i else i
  }

  /** `i.toString()` for an integer-valued number: a minus sign for a
      negative `i`, then the magnitude. */
  function IntToString(i: int): (s: string)
    ensures |s| >= 1
    ensures i >= 0 <==> s[0] != '-'
  {
    var magnitude := NumberToString(Abs(i));
    if i < 0 then "-" + magnitude else magnitude
  }

  function Pow10(k: nat): (p: nat)
    ensures p >= 1
  {
    if k == 0 then 1 else 10 * Pow10(k - 1)
  }

  function Zeros(k: nat): (z: string)
    ensures |z| == k && forall j :: 0 <= j < k ==> z[j] == '0'
  {
    seq(k, _ => '0')
  }

  lemma NumeralTimesTen(m: nat)
    requires m >= 1
    ensures NatToRadix(m * 10, 10) == NatToRadix(m, 10) + ['0']
  {
    Arith.DivModUnique(m * 10, 10, m, 0);
  }

  lemma Pow10Step(d: nat, k: nat)
    requires d > 0 && k > 0
    ensures d * Pow10(k) == (d * Pow10(k - 1)) * 10 && d * Pow10(k - 1) >= 1
  {
    var p := Pow10(k - 1);
    assert Pow10(k) == 10 * p;
    assert d * (10 * p) == (d * p) * 10;
    Arith.MulAtLeast(d, p);
  }

  /** Multiplying by 10^k appends k zeros to the numeral. */
  lemma {:induction false} NumeralTimesPow10(d: nat, k: nat)
    requires d > 0
    ensures NatToRadix(d * Pow10(k), 10) == NatToRadix(d, 10) + Zeros(k)
    decreases k
  {
    if k == 0 {
      assert NatToRadix(d, 10) + Zeros(0) == NatToRadix(d, 10);
    } else {
      var m := d * Pow10(k - 1);
      NumeralTimesPow10(d, k - 1);
      Pow10Step(d, k);
      NumeralTimesTen(m);
      assert Zeros(k - 1) + ['0'] == Zeros(k);
      assert NatToRadix(d, 10) + Zeros(k - 1) + ['0'] == NatToRadix(d, 10) + Zeros(k);
    }
  }

  lemma {:induction false} StripZerosTail(t: string, k: nat)
    requires |t| >= 1
    ensures StripZeros(t + Zeros(k)) == StripZeros(t)
    decreases k
  {
    if k == 0 {
      assert t + Zeros(0) == t;
    } else {
      var u := t + Zeros(k);
      assert u[|u| - 1] == '0';
      assert u[..|u| - 1] == t + Zeros(k - 1);
      assert StripZeros(u) == StripZeros(u[..|u| - 1]);
      StripZerosTail(t, k - 1);
    }
  }

  lemma Exp21IsPow10()
    ensures Exp21 == Pow10(21)
  {
    assert Pow10(3) == 1000;
    assert Pow10(6) == 1000 * Pow10(3);
    assert Pow10(9) == 1000 * Pow10(6);
    assert Pow10(12) == 1000 * Pow10(9);
    assert Pow10(15) == 1000 * Pow10(12);
    assert Pow10(18) == 1000 * Pow10(15);
    assert Pow10(21) == 1000 * Pow10(18);
  }

  lemma OneNumeral(p: nat)
    requires p == Pow10(21)
    ensures NatToRadix(p, 10) == "1" + Zeros(21)
    ensures StripZeros(NatToRadix(p, 10)) == "1"
  {
    NumeralTimesPow10(1, 21);
    assert 1 * p == p;
    assert NatToRadix(1, 10) == "1";
    StripZerosTail("1", 21);
  }

  lemma ScientificOfOne(p: nat)
    requires p == Pow10(21) && p >= Exp21
    ensures Scientific(p) == "1e+21"
  {
    OneNumeral(p);
    assert |NatToRadix(p, 10)| - 1 == 21;
    assert NatToRadix(21, 10) == "21" by {
      Arith.DivModUnique(21, 10, 2, 1);
    }
    ScientificParts(p, "1", "21");
  }

  /** 10^21 is the first integer written in exponent form. */
  lemma ExponentFormExample()
    ensures IntToString(Pow10(21)) == "1e+21"
  {
    Exp21IsPow10();
    ScientificOfOne(Pow10(21));
  }

  lemma FifteenNumeral(p: nat)
    requires p == Pow10(20)
    ensures NatToRadix(15 * p, 10) == "15" + Zeros(20)
    ensures StripZeros(NatToRadix(15 * p, 10)) == "15"
  {
    NumeralTimesPow10(15, 20);
    assert NatToRadix(15, 10) == "15" by {
      Arith.DivModUnique(15, 10, 1, 5);
    }
    StripZerosTail("15", 20);
    assert StripZeros("15") == "15";
  }

  /** The exponent-form numeral assembled from its parts. */
  lemma ScientificParts(n: nat, sig: string, exponent: string)
    requires n >= Exp21
    requires sig == StripZeros(NatToRadix(n, 10)) && |sig| >= 1
    requires exponent == NatToRadix(|NatToRadix(n, 10)| - 1, 10)
    ensures |sig| == 1 ==> Scientific(n) == sig + "e+" + exponent
    ensures |sig| >= 2 ==> Scientific(n) == [sig[0]] + "." + sig[1..] + "e+" + exponent
  {
  }

  lemma ScientificOfFifteen(p: nat)
    requires p == Pow10(20) && 15 * p >= Exp21
    ensures Scientific(15 * p) == "1.5e+21"
  {
    FifteenNumeral(p);
    assert |NatToRadix(15 * p, 10)| - 1 == 21;
    assert NatToRadix(21, 10) == "21" by {
      Arith.DivModUnique(21, 10, 2, 1);
    }
    ScientificParts(15 * p, "15", "21");
  }

  /** Trailing zeros of the significand are dropped. */
  lemma ExponentFormPointExample()
    ensures IntToString(15 * Pow10(20)) == "1.5e+21"
  {
    var p := Pow10(20);
    assert 15 * p >= Exp21 by {
      Exp21IsPow10();
      assert Pow10(21) == 10 * p;
    }
    ScientificOfFifteen(p);
  }

  /** Reading a numeral back gives the number it was written from. */
  lemma RadixRoundTrip(n: nat, radix: nat)
    requires 2 <= radix <= 36
    ensures DigitsFrom(NatToRadix(n, radix), 0, radix) == DigitsOf(n, radix)
    ensures ValueOf(DigitsOf(n, radix), radix) == n
  {
    var s := NatToRadix(n, radix);
    var ds := DigitsFrom(s, 0, radix);
    var dn := DigitsOf(n, radix);
    NumeralDigits(n, radix);
    AllDigitsFrom(s, 0, radix);
    DigitsOfChars(n, radix);
    forall k | 0 <= k < |ds|
      ensures ds[k] == dn[k]
    {
      DigitsFromValue(s, 0, radix, k);
      DigitValueOfChar(dn[k]);
    }
    DigitsOfValue(n, radix);
  }

  lemma {:induction false} DigitsOfValue(n: nat, radix: nat)
    requires 2 <= radix <= 36
    ensures ValueOf(DigitsOf(n, radix), radix) == n
    decreases n
  {
    if n >= radix {
      Arith.DivStep(n, radix);
      DigitsOfValue(n / radix, radix);
      var ds := DigitsOf(n, radix);
      assert ds[..|ds| - 1] == DigitsOf(n / radix, radix);
    }
  }

  /** The digit values of `NatToRadix(n, radix)`, most significant first. */
  function DigitsOf(n: nat, radix: nat): (ds: seq<nat>)
    requires 2 <= radix <= 36
    ensures |ds| >= 1
    decreases n
  {
    if n < radix then [n] else Arith.DivStep(n, radix); DigitsOf(n / radix, radix) + [n % radix]
  }

  lemma {:induction false} AllDigitsFrom(s: string, i: nat, radix: nat)
    requires i <= |s|
    requires forall k :: i <= k < |s| ==> IsDigit(s[k], radix)
    ensures |DigitsFrom(s, i, radix)| == |s| - i
    decreases |s| - i
  {
    if i < |s| {
      AllDigitsFrom(s, i + 1, radix);
    }
  }

  lemma {:induction false} DigitsOfChars(n: nat, radix: nat)
    requires 2 <= radix <= 36
    ensures |DigitsOf(n, radix)| == |NatToRadix(n, radix)|
    ensures forall k :: 0 <= k < |DigitsOf(n, radix)| ==>
      DigitsOf(n, radix)[k] < radix && NatToRadix(n, radix)[k] == DigitChar(DigitsOf(n, radix)[k])
    decreases n
  {
    if n >= radix {
      Arith.DivStep(n, radix);
      DigitsOfChars(n / radix, radix);
    }
  }

  // ---------------------------------------------------------------------
  // parseInt(s) with the radix left undefined
  // ---------------------------------------------------------------------

  /** StrWhiteSpaceChar: WhiteSpace and LineTerminator code points. */
  predicate IsJsSpace(c: char)
  {
    c == '\t' || c == '\n' || c == '\U{B}' || c == '\U{C}' || c == '\r' || c == ' '
    || c == '\U{A0}' || c == '\U{1680}' || ('\U{2000}' <= c <= '\U{200A}')
    || c == '\U{2028}' || c == '\U{2029}' || c == '\U{202F}' || c == '\U{205F}'
    || c == '\U{3000}' || c == '\U{FEFF}'
  }

  /** The index of the first character from `i` on that is not white
      space. */
  function SkipSpaces(s: string, i: nat): (j: nat)
    requires i <= |s|
    ensures i <= j <= |s|
    ensures j < |s| ==> !IsJsSpace(s[j])
    ensures forall k :: i <= k < j ==> IsJsSpace(s[k])
    decreases |s| - i
  {
    if i < |s| && IsJsSpace(s[i]) then SkipSpaces(s, i + 1) else i
  }

  /** The number read from index `i`, after white space and sign: a
      `0x`/`0X` prefix selects radix 16, otherwise radix 10; no digits at
      all is NaN (`None`). */
  function MagnitudeAt(s: string, i: nat): (r: Option<nat>)
    requires i <= |s|
  {
    var hex := i + 2 <= |s| && s[i] == '0' && (s[i + 1] == 'x' || s[i + 1] == 'X');
    var radix := if hex then 16 else 10;
    var ds := DigitsFrom(s, if hex then i + 2 else i, radix);
    if |ds| == 0 then None else Some(ValueOf(ds, radix))
  }

  /** `parseInt(s)`; `None` stands for NaN. */
  function ParseInt(s: string): (r: Option<int>)
    ensures r.Some? ==> |s| > 0
  {
    var i := SkipSpaces(s, 0);
    var signed := i < |s| && (s[i] == '-' || s[i] == '+');
    match MagnitudeAt(s, if signed then i + 1 else i)
    case None => None
    case Some(m) => Some(if signed && s[i] == '-' then -(m as int) else m as int)
  }

  /** What follows a prefix `p` reads as it reads on its own. */
  lemma MagnitudeAfter(p: string, s: string)
    ensures MagnitudeAt(p + s, |p|) == MagnitudeAt(s, 0)
  {
    var t := p + s;
    if |s| >= 1 {
      assert t[|p|] == s[0];
    }
    if |s| >= 2 {
      assert t[|p| + 1] == s[1];
      DigitsAfter(p, s, 2, 16);
    }
    DigitsAfter(p, s, 0, 10);
  }

  /** A decimal numeral reads back as its number. */
  lemma ParseMagnitudeOfNumeral(n: nat)
    ensures MagnitudeAt(NatToRadix(n, 10), 0) == Some(n)
  {
    var digits := NatToRadix(n, 10);
    RadixRoundTrip(n, 10);
    assert !(|digits| >= 2 && digits[0] == '0');
  }

  lemma DigitNotSpace(c: char)
    requires IsDigit(c, 10)
    ensures !IsJsSpace(c) && c != '-' && c != '+'
  {
  }

  /** Parsing a numeral with no sign, with a `+` and with a `-`. */
  lemma ParseIntUnsigned(s: string, m: nat)
    requires |s| > 0 && IsDigit(s[0], 10) && MagnitudeAt(s, 0) == Some(m)
    ensures ParseInt(s) == Some(m as int)
  {
    DigitNotSpace(s[0]);
    assert SkipSpaces(s, 0) == 0;
  }

  lemma ParseIntPlus(t: string, s: string, m: nat)
    requires t == "+" + s && MagnitudeAt(s, 0) == Some(m)
    ensures ParseInt(t) == Some(m)
  {
    assert t[0] == '+' && !IsJsSpace(t[0]);
    assert SkipSpaces(t, 0) == 0;
    MagnitudeAfter("+", s);
  }

  lemma ParseIntNegative(t: string, s: string, m: nat)
    requires t == "-" + s && MagnitudeAt(s, 0) == Some(m)
    ensures ParseInt(t) == Some(-(m as int))
  {
    assert t[0] == '-' && !IsJsSpace(t[0]);
    assert SkipSpaces(t, 0) == 0;
    MagnitudeAfter("-", s);
  }

  /** An exponent-form numeral reads back as its first digit: the digit
      is followed by `.` or `e`, and it is not `0`, so no `0x` prefix. */
  lemma ParseMagnitudeOfScientific(n: nat)
    requires n >= Exp21
    ensures MagnitudeAt(Scientific(n), 0) == Some(LeadingDigit(n))
  {
    var s := Scientific(n);
    var d := LeadingDigit(n);
    DigitValueOfChar(d);
    assert !IsDigit(s[1], 10);
    assert DigitsFrom(s, 1, 10) == [];
    assert DigitsFrom(s, 0, 10) == [d];
    assert ValueOf([d], 10) == ValueOf([], 10) * 10 + d;
  }

  /** What `parseInt` reads back from `n.toString()`: the number itself
      below 10^21, its leading digit from there on. */
  lemma ParseMagnitudeOfString(n: nat)
    ensures n < Exp21 ==> MagnitudeAt(NumberToString(n), 0) == Some(n)
    ensures n >= Exp21 ==> MagnitudeAt(NumberToString(n), 0) == Some(LeadingDigit(n))
  {
    if n < Exp21 {
      ParseMagnitudeOfNumeral(n);
    } else {
      ParseMagnitudeOfScientific(n);
    }
  }

  lemma ParseIntOfNegatedNumeral(t: string, m: nat)
    requires m < Exp21 && t == "-" + NumberToString(m)
    ensures ParseInt(t) == Some(-(m as int))
  {
    ParseMagnitudeOfString(m);
    ParseIntNegative(t, NumberToString(m), m);
  }

  lemma ParseIntOfNegatedScientific(t: string, m: nat)
    requires m >= Exp21 && t == "-" + NumberToString(m)
    ensures ParseInt(t) == Some(-(LeadingDigit(m) as int))
  {
    var s := Scientific(m);
    assert t == "-" + s;
    ParseMagnitudeOfScientific(m);
    ParseIntNegative(t, s, LeadingDigit(m));
  }

  lemma ParseIntOfNumberString(t: string, m: nat)
    requires t == NumberToString(m)
    ensures m < Exp21 ==> ParseInt(t) == Some(m)
    ensures m >= Exp21 ==> ParseInt(t) == Some(LeadingDigit(m))
  {
    ParseMagnitudeOfString(m);
    if m < Exp21 {
      ParseIntUnsigned(t, m);
    } else {
      ParseIntUnsigned(t, LeadingDigit(m));
    }
  }

  /** `parseInt(String(i)) === i` while `String(i)` is a plain numeral,
      that is for |i| < 10^21; from 10^21 on the exponent form reads back
      as its leading digit, with the sign. */
  lemma ParseIntOfString(i: int)
    ensures -Exp21 < i < Exp21 ==> ParseInt(IntToString(i)) == Some(i)
    ensures i >= Exp21 ==> ParseInt(IntToString(i)) == Some(LeadingDigit(i))
    ensures i <= -Exp21 ==> ParseInt(IntToString(i)) == Some(-(LeadingDigit(-i) as int))
  {
    var t := IntToString(i);
    if i < 0 {
      assert t == "-" + NumberToString(Abs(i));
      if i > -Exp21 {
        ParseIntOfNegatedNumeral(t, Abs(i));
      } else {
        ParseIntOfNegatedScientific(t, Abs(i));
      }
    } else {
      assert t == NumberToString(Abs(i));
      ParseIntOfNumberString(t, Abs(i));
    }
  }

  /** Leading white space and a `+` sign are ignored, and parsing stops
      at the first non-digit: `parseInt(" +12px")` is 12. */
  lemma ParseIntExample()
    ensures ParseInt(" +12px") == Some(12)
  {
    var s := " +12px";
    assert SkipSpaces(s, 0) == 1;
    assert DigitsFrom(s, 4, 10) == [];
    assert DigitsFrom(s, 3, 10) == [2];
    assert DigitsFrom(s, 2, 10) == [1, 2];
    assert ValueOf([1, 2], 10) == ValueOf([1], 10) * 10 + 2;
  }

  /** A `0x` prefix switches to hexadecimal: `parseInt("0x1A")` is 26. */
  lemma ParseIntHexExample()
    ensures ParseInt("0x1A") == Some(26)
  {
    var s := "0x1A";
    assert SkipSpaces(s, 0) == 0;
    assert DigitsFrom(s, 4, 16) == [];
    assert DigitsFrom(s, 3, 16) == [10];
    assert DigitsFrom(s, 2, 16) == [1, 10];
    assert ValueOf([1, 10], 16) == ValueOf([1], 16) * 16 + 10;
  }

  /** Nothing to read is NaN. */
  lemma ParseIntNaN()
    ensures ParseInt("") == None && ParseInt("px") == None
  {
    assert SkipSpaces("px", 0) == 0;
    assert DigitsFrom("px", 0, 10) == [];
  }

  // ---------------------------------------------------------------------
  // Math.round on finite values
  // ---------------------------------------------------------------------

  /** The integer nearest to `x`, halves rounded towards +infinity. */
  function Round(x: real): (n: int)
    ensures x - 0.5 < n as real <= x + 0.5
  {
    (x + 0.5).Floor
  }

  /** The bracket pins the rounding down: no other integer satisfies it. */
  lemma RoundUnique(x: real, n: int)
    requires x - 0.5 < n as real <= x + 0.5
    ensures Round(x) == n
  {
  }

  // ---------------------------------------------------------------------
  // s.replace(/\.[^/.]+$/, '')
  // ---------------------------------------------------------------------

  /** `s[k..]` is what the pattern matches: a dot, then one or more
      characters that are neither `.` nor `/`, up to the end. */
  predicate ExtensionAt(s: string, k: nat)
  {
    k + 1 < |s| && s[k] == '.' && forall j :: k < j < |s| ==> s[j] != '.' && s[j] != '/'
  }

  /** Scans back from `j`, knowing that `s[j..]` holds no `.` and no `/`. */
  function StripFrom(s: string, j: nat): (r: string)
    requires j <= |s|
    requires forall i :: j <= i < |s| ==> s[i] != '.' && s[i] != '/'
    ensures r == s || ExtensionAt(s, |r|)
    ensures |r| <= |s| && r == s[..|r|]
    ensures forall k: nat :: ExtensionAt(s, k) ==> r == s[..k]
  {
    if j == 0 then s
    else if s[j - 1] == '/' then s
    else if s[j - 1] == '.' then (if j < |s| then s[..j - 1] else s)
    else StripFrom(s, j - 1)
  }

  /** The file name without its final extension. */
  function StripExtension(s: string): (r: string)
    ensures r == s || ExtensionAt(s, |r|)
    ensures |r| <= |s| && r == s[..|r|]
    ensures forall k: nat :: ExtensionAt(s, k) ==> r == s[..k]
  {
    StripFrom(s, |s|)
  }

  /** Every name of the form `stem + "." + ext` with a plain extension
      loses exactly `"." + ext`. */
  lemma StripExtensionOf(stem: string, ext: string)
    requires |ext| > 0 && forall j :: 0 <= j < |ext| ==> ext[j] != '.' && ext[j] != '/'
    ensures StripExtension(stem + "." + ext) == stem
  {
    var s := stem + "." + ext;
    assert ExtensionAt(s, |stem|) by {
      forall j | |stem| < j < |s| ensures s[j] != '.' && s[j] != '/' {
        assert s[j] == ext[j - |stem| - 1];
      }
    }
  }

  /** A name whose last dot is followed by nothing, or by a `/`, or that
      has no dot at all, is kept as it is. */
  lemma StripExtensionKeeps(s: string)
    requires forall k: nat :: !ExtensionAt(s, k)
    ensures StripExtension(s) == s
  {
  }

  lemma StripExtensionExample()
    ensures StripExtension("photo.final.png") == "photo.final"
    ensures StripExtension("archive") == "archive"
    ensures StripExtension("dir.d/readme") == "dir.d/readme"
  {
    assert StripFrom("dir.d/readme", 6) == "dir.d/readme";
    assert "photo.final" + "." + "png" == "photo.final.png";
    StripExtensionOf("photo.final", "png");
    assert !ExtensionAt("archive", 0);
    assert forall k: nat :: !ExtensionAt("archive", k) by {
      forall k: nat ensures !ExtensionAt("archive", k) {
        if k + 1 < 7 { assert "archive"[k] != '.'; }
      }
    }
  }
}
