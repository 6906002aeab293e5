/** The two numeric conversions the rate directives apply to directive values:
    Python 2's `int(s)` and `float(s)` on byte strings, restricted to base 10. */
module Numbers {
  import opened Results
  import opened Text

  predicate IsDigit(c: char) {
    '0' <= c <= '9'
  }

  predicate IsDigits(s: string) {
    forall i :: 0 <= i < |s| ==> IsDigit(s[i])
  }

  /** The value of a run of decimal digits; the empty run is worth 0. */
  function DigitsValue(s: string): nat
    requires IsDigits(s)
  {
    if |s| == 0 then 0
    else 10 * DigitsValue(s[..|s| - 1]) + (s[|s| - 1] as int - '0' as int)
  }

  /** Canonical decimal rendering of a natural number, as Python's `str(n)`. */
  function ShowNat(n: nat): (s: string)
    ensures |s| >= 1 && IsDigits(s)
    ensures DigitsValue(s) == n
    ensures s[0] != '0' || s == "0"
  {
    if n < 10 then [('0' as int + n) as char]
    else
      var s := ShowNat(n / 10) + [('0' as int + n % 10) as char];
      assert s[..|s| - 1] == ShowNat(n / 10);
      s
  }

  /** Canonical decimal rendering of an integer, as Python's `str(n)`. */
  function Show(n: int): string {
    if n < 0 then "-" + ShowNat(-n) else ShowNat(n)
  }

  /** An optional `+` or `-` followed by one or more digits, and its value. */
  function ParseSigned(s: string): (r: Option<int>)
    ensures r.Some? ==> |s| >= 1 && (IsDigits(s) || (|s| >= 2 && s[0] in "+-" && IsDigits(s[1..])))
    ensures IsDigits(s) && |s| >= 1 ==> r == Some(DigitsValue(s))
  {
    if |s| >= 1 && (s[0] == '+' || s[0] == '-') then
      if |s| >= 2 && IsDigits(s[1..]) then
        var n: int := DigitsValue(s[1..]);
        Some(if s[0] == '-' then -n else n)
      else None
    else if |s| >= 1 && IsDigits(s) then Some(DigitsValue(s))
    else None
  }

  /** `int(s)` in base 10 as Python 2 reads a byte string: surrounding
      whitespace, an optional sign, more whitespace (the C conversion
      underneath skips it after the sign as well), then a digit run.
      `None` stands for the `ValueError` the conversion raises otherwise. */
  function ParseInt(s: string): Option<int> {
    var t := Strip(s);
    if |t| >= 1 && (t[0] == '+' || t[0] == '-') then ParseSigned([t[0]] + TrimLeft(t[1..]))
    else ParseSigned(t)
  }

  /** The texts `int()` accepts: once stripped, a digit run, or a sign
      followed by optional whitespace and a digit run. */
  predicate IsIntText(s: string) {
    var t := Strip(s);
    (|t| >= 1 && IsDigits(t)) ||
    (|t| >= 1 && (t[0] == '+' || t[0] == '-') && |TrimLeft(t[1..])| >= 1 && IsDigits(TrimLeft(t[1..])))
  }

  /** `int()` succeeds exactly on the texts of that shape. */
  lemma ParseIntAccepts(s: string)
    ensures ParseInt(s).Some? <==> IsIntText(s)
  {
    var t := Strip(s);
    if |t| >= 1 && (t[0] == '+' || t[0] == '-') {
      assert ([t[0]] + TrimLeft(t[1..]))[1..] == TrimLeft(t[1..]);
      assert !IsDigit(t[0]);
    }
  }

  /** Rendering an integer and reading it back gives the same integer. */
  lemma ParseSignedShow(n: int)
    ensures ParseSigned(Show(n)) == Some(n)
  {
    if n < 0 {
      var d := ShowNat(-n);
      assert Show(n)[1..] == d;
    }
  }

  /** `int()` accepts any whitespace padding around a canonical rendering. */
  lemma ParseIntShow(pre: string, n: int, post: string)
    requires IsBlank(pre) && IsBlank(post)
    ensures ParseInt(pre + Show(n) + post) == Some(n)
  {
    var s := pre + Show(n) + post;
    assert Strip(s) == Show(n) by {
      var i, j := |pre|, |pre| + |Show(n)|;
      assert s[..i] == pre && s[j..] == post && s[i..j] == Show(n);
      assert !IsSpace(Show(n)[0]) && !IsSpace(Show(n)[|Show(n)| - 1]);
      StripIsUnique(s, i, j);
    }
    ParseIntOfShow(s, n);
  }

  /** `int()` reads back a canonical rendering, once stripped. */
  lemma ParseIntOfShow(s: string, n: int)
    requires Strip(s) == Show(n)
    ensures ParseInt(s) == Some(n)
  {
    ParseSignedShow(n);
    if n < 0 {
      var d := ShowNat(-n);
      assert Show(n)[1..] == d && Show(n)[0] == '-';
      assert TrimLeft(d) == d;
      assert [Show(n)[0]] + d == Show(n);
    }
  }

  /** The result of Python's `float()`: a finite value
      `coefficient * 10^exponent`, or one of the special values spelled
      `inf`/`infinity` and `nan`. Finite values are kept exact and as
      written, so equality compares spellings, not numbers: `1.0` is
      `Finite(10, -1)` while `1` is `Finite(1, 0)`, and `-0` is `Finite(0, 0)`
      with the sign of negative zero lost. */
  datatype Float = Finite(coefficient: int, exponent: int) | Infinite(negative: bool) | NaN

  /** The value of `-x` for a parsed float. */
  function Negate(x: Float): Float {
    match x
    case Finite(c, e) => Finite(-c, e)
    case Infinite(n) => Infinite(!n)
    case NaN => NaN
  }

  /** A mantissa `digits[.digits]` with at least one digit, read as a
      coefficient and the power of ten its fraction digits imply. */
  function ParseMantissa(m: string): Option<Float> {
    var p := Split(m, '.');
    if |p| == 1 && |p[0]| >= 1 && IsDigits(p[0]) then
      Some(Finite(DigitsValue(p[0]), 0))
    else if |p| == 2 && |p[0]| + |p[1]| >= 1 && IsDigits(p[0] + p[1]) then
      Some(Finite(DigitsValue(p[0] + p[1]), -|p[1]|))
    else None
  }

  /** An unsigned decimal literal: a mantissa with an optional exponent
      `e[+|-]digits` (the marker in either case). */
  function ParseUnsignedDecimal(body: string): Option<Float> {
    var p := Split(Lower(body), 'e');
    if |p| == 1 then ParseMantissa(p[0])
    else if |p| == 2 then
      match (ParseMantissa(p[0]), ParseSigned(p[1]))
      case (Some(m), Some(e)) => Some(Finite(m.coefficient, m.exponent + e))
      case _ => None
    else None
  }

  /** `float(s)`: surrounding whitespace, an optional sign, then a decimal
      literal or one of `inf`, `infinity`, `nan` in any letter case.
      `None` stands for the `ValueError` the conversion raises otherwise. */
  function ParseFloat(s: string): Option<Float> {
    var t := Strip(s);
    if |t| >= 1 && (t[0] == '+' || t[0] == '-') then ParseUnsignedFloat(t[1..], t[0] == '-')
    else ParseUnsignedFloat(t, false)
  }

  /** The part of `float()` after the sign has been read. */
  function ParseUnsignedFloat(body: string, negative: bool): Option<Float> {
    var word := Lower(body);
    if word == "inf" || word == "infinity" then Some(Infinite(negative))
    else if word == "nan" then Some(NaN)
    else match ParseUnsignedDecimal(body)
      case Some(x) => Some(if negative then Negate(x) else x)
      case None => None
  }

  /** A plain digit run is an unsigned decimal literal worth its digits. */
  lemma DigitsAreDecimal(body: string)
    requires |body| >= 1 && IsDigits(body)
    ensures ParseUnsignedDecimal(body) == Some(Finite(DigitsValue(body), 0))
  {
    assert 'e' !in body && '.' !in body;
    LowerFixes(body);
    SplitWithoutSeparator(body, 'e');
    SplitWithoutSeparator(body, '.');
  }

  /** The sign in front of an unsigned decimal literal negates its value. */
  lemma SignedDecimal(body: string, negative: bool, n: int, k: int)
    requires ParseUnsignedDecimal(body) == Some(Finite(n, k))
    requires Lower(body) != "inf" && Lower(body) != "infinity" && Lower(body) != "nan"
    ensures ParseUnsignedFloat(body, negative) == Some(Finite(if negative then -n else n, k))
  {
  }

  /** A plain digit run is read by `float()` as its value. */
  lemma DigitsAreFloat(body: string, negative: bool, n: int)
    requires |body| >= 1 && IsDigits(body) && n == DigitsValue(body)
    ensures ParseUnsignedFloat(body, negative) == Some(Finite(if negative then -n else n, 0))
  {
    LowerFixes(body);
    DigitsAreDecimal(body);
    assert body[0] != 'i' && body[0] != 'n';
    SignedDecimal(body, negative, n, 0);
  }

  /** Every literal `int()` accepts, unless it has whitespace after its sign,
      is accepted by `float()` with the same value. */
  lemma IntLiteralIsFloat(s: string, n: int)
    requires ParseSigned(Strip(s)) == Some(n)
    ensures ParseFloat(s) == Some(Finite(n, 0))
  {
    var t := Strip(s);
    if |t| >= 1 && (t[0] == '+' || t[0] == '-') {
      var m: int := DigitsValue(t[1..]);
      assert n == if t[0] == '-' then -m else m;
      DigitsAreFloat(t[1..], t[0] == '-', m);
    } else {
      DigitsAreFloat(t, false, n);
    }
  }

  /** `float()` reads an integer as Python prints it back as that integer. */
  lemma ParseFloatShow(n: int)
    ensures ParseFloat(Show(n)) == Some(Finite(n, 0))
  {
    var s := Show(n);
    assert s[..0] == [] && s[|s|..] == [] && s[0..|s|] == s;
    StripIsUnique(s, 0, |s|);
    ParseSignedShow(n);
    IntLiteralIsFloat(s, n);
  }

  /** Where `int()` and `float()` part ways: whitespace between the sign and
      the digits is skipped by `int()` and rejected by `float()`. */
  lemma SpaceAfterSign(sign: char, w: string, d: string, n: int)
    requires sign == '+' || sign == '-'
    requires |w| >= 1 && IsBlank(w) && |d| >= 1 && IsDigits(d) && n == DigitsValue(d)
    ensures ParseInt([sign] + w + d) == Some(if sign == '-' then -n else n)
    ensures ParseFloat([sign] + w + d) == None
  {
    IntSkipsSpaceAfterSign(sign, w, d, n);
    FloatRejectsSpaceAfterSign(sign, w, d);
  }

  lemma IntSkipsSpaceAfterSign(sign: char, w: string, d: string, n: int)
    requires sign == '+' || sign == '-'
    requires IsBlank(w) && |d| >= 1 && IsDigits(d) && n == DigitsValue(d)
    ensures ParseInt([sign] + w + d) == Some(if sign == '-' then -n else n)
  {
    var s := [sign] + w + d;
    SignedSpacedIsStripped(sign, w, d);
    SkipBlank(w, d);
    var t := Strip(s);
    assert t[0] == sign && t[1..] == w + d;
    assert [t[0]] + TrimLeft(t[1..]) == [sign] + d;
    assert ParseInt(s) == ParseSigned([sign] + d);
    SignedDigits(sign, d, n);
  }

  lemma FloatRejectsSpaceAfterSign(sign: char, w: string, d: string)
    requires sign == '+' || sign == '-'
    requires |w| >= 1 && IsBlank(w) && |d| >= 1 && IsDigits(d)
    ensures ParseFloat([sign] + w + d) == None
  {
    SignedSpacedIsStripped(sign, w, d);
    SpacedDigitsAreNotFloat(w, d, sign == '-');
  }

  /** A sign, whitespace and digits is already stripped. */
  lemma SignedSpacedIsStripped(sign: char, w: string, d: string)
    requires sign == '+' || sign == '-'
    requires IsBlank(w) && |d| >= 1 && IsDigits(d)
    ensures Strip([sign] + w + d) == [sign] + w + d
    ensures ([sign] + w + d)[0] == sign && ([sign] + w + d)[1..] == w + d
  {
    var s := [sign] + w + d;
    assert s[..0] == [] && s[|s|..] == [] && s[0..|s|] == s;
    assert s[0] == sign && s[|s| - 1] == d[|d| - 1];
    StripIsUnique(s, 0, |s|);
    assert s[1..] == w + d;
  }

  /** `lstrip()` of whitespace followed by digits leaves the digits. */
  lemma SkipBlank(w: string, d: string)
    requires IsBlank(w) && |d| >= 1 && IsDigits(d)
    ensures TrimLeft(w + d) == d
  {
    var t := w + d;
    assert t[..|w|] == w && t[|w|..] == d;
    TrimLeftIsUnique(t, |w|);
  }

  lemma SignedDigits(sign: char, d: string, n: int)
    requires sign == '+' || sign == '-'
    requires |d| >= 1 && IsDigits(d) && n == DigitsValue(d)
    ensures ParseSigned([sign] + d) == Some(if sign == '-' then -n else n)
  {
    var s := [sign] + d;
    assert s[0] == sign && s[1..] == d;
  }

  /** Digits with whitespace in front of them are no `float()` body. */
  lemma SpacedDigitsAreNotFloat(w: string, d: string, negative: bool)
    requires |w| >= 1 && IsBlank(w) && IsDigits(d)
    ensures ParseUnsignedFloat(w + d, negative) == None
  {
    var body := w + d;
    SpacedDigitsShape(w, d);
    assert Lower(body) == body by { LowerFixes(body); }
    assert body[0] != 'i' && body[0] != 'n';
    assert ParseUnsignedDecimal(body) == None by {
      SplitWithoutSeparator(body, 'e');
      SplitWithoutSeparator(body, '.');
      assert !IsDigit(body[0]);
    }
  }

  /** Whitespace then digits: only spaces and digits, a space first. */
  lemma SpacedDigitsShape(w: string, d: string)
    requires |w| >= 1 && IsBlank(w) && IsDigits(d)
    ensures IsSpace((w + d)[0])
    ensures forall i :: 0 <= i < |w + d| ==> !('A' <= (w + d)[i] <= 'Z')
    ensures 'e' !in w + d && '.' !in w + d
  {
    var body := w + d;
    forall i | 0 <= i < |body| ensures IsSpace(body[i]) || IsDigit(body[i]) {
      if i < |w| { assert body[i] == w[i]; } else { assert body[i] == d[i - |w|]; }
    }
  }

  /** A text holding at least one digit. */
  predicate HasDigit(s: string) {
    exists i :: 0 <= i < |s| && IsDigit(s[i])
  }

  /** A character a decimal literal can hold: a digit, the point, the
      exponent marker in either case, or a sign. */
  predicate IsDecimalChar(c: char) {
    IsDigit(c) || c == '.' || c == 'e' || c == 'E' || c == '+' || c == '-'
  }

  predicate IsDecimalChars(s: string) {
    forall i :: 0 <= i < |s| ==> IsDecimalChar(s[i])
  }

  /** What may follow the sign in a text `float()` accepts: one of the
      special words in any letter case, or decimal characters with at
      least one digit among them. */
  predicate IsFloatBody(body: string) {
    var w := Lower(body);
    w == "inf" || w == "infinity" || w == "nan" || (HasDigit(body) && IsDecimalChars(body))
  }

  /** A text with its leading sign, if any, removed. */
  function AfterSign(t: string): string {
    if |t| >= 1 && (t[0] == '+' || t[0] == '-') then t[1..] else t
  }

  /** Conversely to the lemmas above, `float()` accepts nothing but a sign
      and a body of that shape, once the text is stripped. */
  lemma ParseFloatShape(s: string)
    ensures ParseFloat(s).Some? ==> IsFloatBody(AfterSign(Strip(s)))
  {
    var t := Strip(s);
    UnsignedFloatShape(AfterSign(t), |t| >= 1 && t[0] == '-');
  }

  lemma UnsignedFloatShape(body: string, negative: bool)
    ensures ParseUnsignedFloat(body, negative).Some? ==> IsFloatBody(body)
  {
    var w := Lower(body);
    if ParseUnsignedFloat(body, negative).Some? && w != "inf" && w != "infinity" && w != "nan" {
      DecimalShape(body);
    }
  }

  /** An unsigned decimal literal holds a digit and only decimal characters. */
  lemma DecimalShape(body: string)
    requires ParseUnsignedDecimal(body).Some?
    ensures HasDigit(body) && IsDecimalChars(body)
  {
    var w := Lower(body);
    var p := Split(w, 'e');
    MantissaShape(p[0]);
    if |p| == 1 {
      SplitAlone(w, 'e');
    } else {
      SplitInTwo(w, 'e');
      var e := p[1];
      assert ParseSigned(e).Some?;
      forall i | 0 <= i < |w| ensures IsDecimalChar(w[i]) {
        if i < |p[0]| {
          assert w[i] == p[0][i];
        } else if i > |p[0]| {
          assert w[i] == e[i - |p[0]| - 1];
          assert IsDigit(e[i - |p[0]| - 1]) || i - |p[0]| - 1 == 0;
        }
      }
      var k :| 0 <= k < |p[0]| && IsDigit(p[0][k]);
      assert w[k] == p[0][k];
    }
    LowerKeepsShape(body);
  }

  /** Lower-casing only turns `E` into a decimal character, so a lower-cased
      decimal text was decimal before. */
  lemma LowerKeepsShape(body: string)
    requires HasDigit(Lower(body)) && IsDecimalChars(Lower(body))
    ensures HasDigit(body) && IsDecimalChars(body)
  {
    var w := Lower(body);
    var k :| 0 <= k < |w| && IsDigit(w[k]);
    assert IsDigit(body[k]);
    forall i | 0 <= i < |body| ensures IsDecimalChar(body[i]) {
      assert IsDecimalChar(w[i]);
    }
  }

  /** A mantissa `float()` accepts holds a digit and otherwise only digits
      and the point. */
  lemma MantissaShape(m: string)
    requires ParseMantissa(m).Some?
    ensures HasDigit(m)
    ensures forall i :: 0 <= i < |m| ==> IsDigit(m[i]) || m[i] == '.'
  {
    var p := Split(m, '.');
    if |p| == 1 {
      SplitAlone(m, '.');
      assert IsDigit(m[0]);
    } else {
      SplitInTwo(m, '.');
      var ds := p[0] + p[1];
      forall i | 0 <= i < |m| ensures IsDigit(m[i]) || m[i] == '.' {
        if i < |p[0]| {
          assert m[i] == ds[i];
        } else if i > |p[0]| {
          assert m[i] == ds[i - 1];
        }
      }
      if |p[0]| >= 1 {
        assert m[0] == ds[0];
      } else {
        assert m[1] == ds[0];
      }
    }
  }

  /** A literal with a fraction, `digits.digits` (either run may be empty,
      not both), is worth its digits scaled down by the fraction's length. */
  lemma FractionIsDecimal(a: string, b: string, n: int)
    requires IsDigits(a) && IsDigits(b) && |a| + |b| >= 1 && n == DigitsValue(a + b)
    ensures ParseUnsignedDecimal(a + ['.'] + b) == Some(Finite(n, -|b|))
  {
    var body := a + ['.'] + b;
    assert Split(Lower(body), 'e') == [body] by {
      FractionChars(a, b);
      assert 'e' !in body;
      LowerFixes(body);
      SplitWithoutSeparator(body, 'e');
    }
    assert Split(body, '.') == [a, b] by {
      assert '.' !in a && '.' !in b;
      SplitAfterPiece(a, b, '.');
      SplitWithoutSeparator(b, '.');
    }
    DigitsConcat(a, b);
    assert ParseMantissa(body) == Some(Finite(n, -|b|));
  }

  lemma DigitsConcat(a: string, b: string)
    requires IsDigits(a) && IsDigits(b)
    ensures IsDigits(a + b)
  {
    forall i | 0 <= i < |a + b| ensures IsDigit((a + b)[i]) {
      if i >= |a| {
        assert (a + b)[i] == b[i - |a|];
      }
    }
  }

  lemma FractionChars(a: string, b: string)
    requires IsDigits(a) && IsDigits(b)
    ensures forall i :: 0 <= i < |a + ['.'] + b| ==> IsDigit((a + ['.'] + b)[i]) || (a + ['.'] + b)[i] == '.'
  {
    var body := a + ['.'] + b;
    forall i | 0 <= i < |body| ensures IsDigit(body[i]) || body[i] == '.' {
      if i < |a| {
        assert body[i] == a[i];
      } else if i > |a| {
        assert body[i] == b[i - |a| - 1];
      }
    }
  }

  /** A mantissa followed by `e` or `E` and a signed exponent is the
      mantissa shifted by that many decimal places. */
  lemma ExponentIsDecimal(m: string, marker: char, e: string, x: Float, k: int)
    requires marker == 'e' || marker == 'E'
    requires ParseMantissa(m) == Some(x) && ParseSigned(e) == Some(k)
    ensures ParseUnsignedDecimal(m + [marker] + e) == Some(Finite(x.coefficient, x.exponent + k))
  {
    MantissaShape(m);
    assert forall i :: 0 <= i < |e| ==> IsDigit(e[i]) || i == 0;
    assert Lower(m + [marker] + e) == m + ['e'] + e by { MarkerLower(m, marker, e); }
    assert Split(m + ['e'] + e, 'e') == [m, e] by {
      assert 'e' !in m && 'e' !in e;
      SplitAfterPiece(m, e, 'e');
      SplitWithoutSeparator(e, 'e');
    }
  }

  lemma MarkerLower(m: string, marker: char, e: string)
    requires marker == 'e' || marker == 'E'
    requires forall i :: 0 <= i < |m| ==> !('A' <= m[i] <= 'Z')
    requires forall i :: 0 <= i < |e| ==> !('A' <= e[i] <= 'Z')
    ensures Lower(m + [marker] + e) == m + ['e'] + e
  {
    calc {
      Lower(m + [marker] + e);
      == { LowerAppend(m + [marker], e); }
      Lower(m + [marker]) + Lower(e);
      == { LowerAppend(m, [marker]); }
      Lower(m) + Lower([marker]) + Lower(e);
      == { LowerFixes(m); LowerFixes(e); assert Lower([marker]) == ['e']; }
      m + ['e'] + e;
    }
  }

  /** The same literal through `float()` itself, signed or not. */
  lemma FractionIsFloat(sign: string, a: string, b: string, n: int)
    requires sign == "" || sign == "+" || sign == "-"
    requires IsDigits(a) && IsDigits(b) && |a| + |b| >= 1 && n == DigitsValue(a + b)
    ensures ParseFloat(sign + (a + ['.'] + b)) == Some(Finite(if sign == "-" then -n else n, -|b|))
  {
    var body := a + ['.'] + b;
    assert IsDigit(body[0]) || body[0] == '.';
    assert IsDigit(body[|body| - 1]) || body[|body| - 1] == '.';
    SignThenNumber(sign, body);
    FractionIsUnsignedFloat(a, b, sign == "-", n);
  }

  /** `float()` of a sign and a text that starts and ends in a digit or a
      point reads the text with that sign. */
  lemma SignThenNumber(sign: string, body: string)
    requires sign == "" || sign == "+" || sign == "-"
    requires |body| >= 1 && (IsDigit(body[0]) || body[0] == '.')
    requires IsDigit(body[|body| - 1]) || body[|body| - 1] == '.'
    ensures ParseFloat(sign + body) == ParseUnsignedFloat(body, sign == "-")
  {
    var s := sign + body;
    FractionIsStripped(sign, body);
    if sign == "" {
      assert s == body;
    } else {
      assert s[0] == sign[0] && s[1..] == body;
      assert (s[0] == '-') == (sign == "-");
    }
  }

  /** A sign in front of a text that starts and ends in a digit or a point
      is already stripped. */
  lemma FractionIsStripped(sign: string, body: string)
    requires sign == "" || sign == "+" || sign == "-"
    requires |body| >= 1 && (IsDigit(body[0]) || body[0] == '.')
    requires IsDigit(body[|body| - 1]) || body[|body| - 1] == '.'
    ensures Strip(sign + body) == sign + body
    ensures sign != "" ==> (sign + body)[0] == sign[0] && (sign + body)[1..] == body
  {
    var s := sign + body;
    assert s[|s| - 1] == body[|body| - 1];
    assert s[..0] == [] && s[|s|..] == [] && s[0..|s|] == s;
    StripIsUnique(s, 0, |s|);
    if sign != "" {
      assert s[1..] == body;
    }
  }

  lemma FractionIsUnsignedFloat(a: string, b: string, negative: bool, n: int)
    requires IsDigits(a) && IsDigits(b) && |a| + |b| >= 1 && n == DigitsValue(a + b)
    ensures ParseUnsignedFloat(a + ['.'] + b, negative) == Some(Finite(if negative then -n else n, -|b|))
  {
    var body := a + ['.'] + b;
    FractionIsDecimal(a, b, n);
    NotSpecialWord(body);
    SignedDecimal(body, negative, n, -|b|);
  }

  /** A text that starts with a digit or a point is none of the special
      words `float()` knows. */
  lemma NotSpecialWord(body: string)
    requires |body| >= 1 && (IsDigit(body[0]) || body[0] == '.')
    ensures Lower(body) != "inf" && Lower(body) != "infinity" && Lower(body) != "nan"
  {
    var w := Lower(body);
    assert w[0] == body[0];
    assert "inf"[0] == 'i' && "infinity"[0] == 'i' && "nan"[0] == 'n';
  }
}
