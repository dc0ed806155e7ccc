/**
 * The scraper's three value parsers: the axle count (`parse_ejes_int`), the
 * route length in kilometres (`parse_long_km`) and the currency amount
 * (`_parse_decimal`). The last two rewrite the text and then hand it to
 * Python's `float()`; here `float()` reads the text as an exact decimal.
 */
module ValueParsers {
  import opened Wrappers
  import opened Text

  // ---------------------------------------------------------------------------
  // Axle counts: the first run of digits

  /** Index of the first ASCII digit at or after `i`, or `|s|` when there is none. */
  function FirstDigit(s: string, i: nat): (r: nat)
    requires i <= |s|
    ensures i <= r <= |s|
    ensures forall k :: i <= k < r ==> !IsDigit(s[k])
    ensures r < |s| ==> IsDigit(s[r])
    decreases |s| - i
  {
    if i < |s| && !IsDigit(s[i]) then FirstDigit(s, i + 1) else i
  }

  /** End of the run of digits that starts at `i`. */
  function DigitRunEnd(s: string, i: nat): (r: nat)
    requires i <= |s|
    ensures i <= r <= |s|
    ensures forall k :: i <= k < r ==> IsDigit(s[k])
    ensures r < |s| ==> !IsDigit(s[r])
    decreases |s| - i
  {
    if i < |s| && IsDigit(s[i]) then DigitRunEnd(s, i + 1) else i
  }

  /** `s[i..j]` is the first maximal run of digits in `s` (what `re.search(r"\d+", s)` finds). */
  ghost predicate IsFirstDigitRun(s: string, i: nat, j: nat) {
    && i < j <= |s|
    && (forall k :: 0 <= k < i ==> !IsDigit(s[k]))
    && (forall k :: i <= k < j ==> IsDigit(s[k]))
    && (j == |s| || !IsDigit(s[j]))
  }

  /** `parse_ejes_int`: the value of the first run of digits; `None` for text without digits. */
  function ParseEjesInt(texto: string): (r: Option<int>)
    ensures r.None? <==> forall k :: 0 <= k < |texto| ==> !IsDigit(texto[k])
    ensures r.Some? ==> exists i: nat, j: nat ::
      IsFirstDigitRun(texto, i, j) && AllDigits(texto[i..j]) && r.value == DigitsValue(texto[i..j])
  {
    if texto == [] then None
    else
      var i := FirstDigit(texto, 0);
      if i == |texto| then None
      else
        var j := DigitRunEnd(texto, i);
        assert IsFirstDigitRun(texto, i, j);
        Some(DigitsValue(texto[i..j]))
  }

  /** Between a prefix without digits and a suffix that does not start with one, the digits are the first run. */
  lemma DigitRunOf(pre: string, digits: string, post: string)
    requires forall k :: 0 <= k < |pre| ==> !IsDigit(pre[k])
    requires digits != [] && AllDigits(digits)
    requires post == [] || !IsDigit(post[0])
    ensures var s := pre + digits + post;
      FirstDigit(s, 0) == |pre| && DigitRunEnd(s, |pre|) == |pre| + |digits|
  {
    var s := pre + digits + post;
    var i, j := |pre|, |pre| + |digits|;
    assert s[..i] == pre;
    assert forall k :: i <= k < j ==> s[k] == digits[k - i];
    assert IsDigit(s[i]);
    assert j < |s| ==> s[j] == post[0];
  }

  /** An axle label such as `"2 EJES"` reads back as the number written in it. */
  lemma ParseEjesIntReadsNumber(pre: string, n: nat, post: string)
    requires forall k :: 0 <= k < |pre| ==> !IsDigit(pre[k])
    requires post == [] || !IsDigit(post[0])
    ensures ParseEjesInt(pre + NatToString(n) + post) == Some(n)
  {
    var digits := NatToString(n);
    var s := pre + digits + post;
    DigitRunOf(pre, digits, post);
    assert s[|pre|..|pre| + |digits|] == digits;
    assert DigitsValue(digits) == n by {
      NatToStringValue(n);
    }
  }

  // ---------------------------------------------------------------------------
  // Python's float() on decimal literals, as exact decimals

  /** The exact decimal number `digits × 10^exp`. */
  datatype Decimal = Decimal(digits: int, exp: int)

  function ToReal(d: Decimal): real {
    if d.exp >= 0 then (d.digits * Pow10(d.exp)) as real
    else d.digits as real / Pow10(-d.exp) as real
  }

  /** Index of the first exponent mark (`e` or `E`), or `|s|`. */
  function ExponentMark(s: string): (r: nat)
    ensures r <= |s|
    ensures r < |s| ==> s[r] == 'e' || s[r] == 'E'
  {
    if s == [] then 0 else if s[0] == 'e' || s[0] == 'E' then 0 else 1 + ExponentMark(s[1..])
  }

  /** The exponent after `e`: an optional sign and at least one digit. */
  function ParseExponent(x: string): Option<int> {
    if x != [] && (x[0] == '+' || x[0] == '-') then
      if x[1..] != [] && AllDigits(x[1..]) then
        Some(if x[0] == '-' then 0 - DigitsValue(x[1..]) else DigitsValue(x[1..]))
      else None
    else if x != [] && AllDigits(x) then Some(DigitsValue(x))
    else None
  }

  /** `digits`, `digits.`, `digits.digits` or `.digits`. */
  function ParseMantissa(m: string): Option<Decimal> {
    var p := IndexOf(m, '.');
    var whole := m[..p];
    var frac := if p < |m| then m[p + 1..] else [];
    if AllDigits(whole) && AllDigits(frac) && |whole| + |frac| > 0 then
      AllDigitsConcat(whole, frac);
      Some(Decimal(DigitsValue(whole + frac), -|frac|))
    else None
  }

  function ParseUnsignedFloat(t: string): Option<Decimal> {
    var e := ExponentMark(t);
    match ParseMantissa(t[..e])
    case None => None
    case Some(m) =>
      if e == |t| then Some(m)
      else
        match ParseExponent(t[e + 1..])
        case None => None
        case Some(x) => Some(Decimal(m.digits, m.exp + x))
  }

  /** Python's `float(s)` for decimal literals: surrounding whitespace, a sign, a mantissa, an exponent. */
  function PyFloat(s: string): Option<Decimal> {
    var t := Strip(s);
    if t != [] && (t[0] == '+' || t[0] == '-') then
      match ParseUnsignedFloat(t[1..])
      case None => None
      case Some(d) => Some(if t[0] == '-' then Decimal(-d.digits, d.exp) else d)
    else ParseUnsignedFloat(t)
  }

  lemma ParseMantissaPoint(whole: string, frac: string)
    requires AllDigits(whole) && AllDigits(frac) && whole != []
    ensures AllDigits(whole + frac)
    ensures ParseMantissa(whole + "." + frac) == Some(Decimal(DigitsValue(whole + frac), -|frac|))
  {
    var s := whole + "." + frac;
    AllDigitsConcat(whole, frac);
    PointPieces(whole, frac);
  }

  /** The first dot of `whole.frac` is the one after the digits of whole. */
  lemma PointPieces(whole: string, frac: string)
    requires AllDigits(whole)
    ensures var s := whole + "." + frac;
      && IndexOf(s, '.') == |whole| && s[..|whole|] == whole && s[|whole| + 1..] == frac
  {
    var s := whole + "." + frac;
    IndexOfIs(s, '.', |whole|);
    assert s[..|whole|] == whole && s[|whole| + 1..] == frac;
  }

  lemma PointLiteralChars(whole: string, frac: string)
    requires AllDigits(whole) && AllDigits(frac)
    ensures var s := whole + "." + frac;
      forall k :: 0 <= k < |s| ==> !IsSpace(s[k]) && s[k] != 'e' && s[k] != 'E'
  {
    var s := whole + "." + frac;
    forall k | 0 <= k < |s| ensures !IsSpace(s[k]) && s[k] != 'e' && s[k] != 'E' {
      if k < |whole| { assert s[k] == whole[k]; }
      else if k > |whole| { assert s[k] == frac[k - |whole| - 1]; }
    }
  }

  /** A plain `whole.frac` literal reads as the digits of `whole + frac` over `10^|frac|`. */
  lemma PyFloatPointLiteral(whole: string, frac: string)
    requires whole != [] && AllDigits(whole) && AllDigits(frac)
    ensures AllDigits(whole + frac)
    ensures PyFloat(whole + "." + frac) == Some(Decimal(DigitsValue(whole + frac), -|frac|))
  {
    var s := whole + "." + frac;
    PointLiteralChars(whole, frac);
    assert Strip(s) == s;
    assert s[0] == whole[0];
    ExponentMarkAbsent(s);
    assert s[..|s|] == s;
    ParseMantissaPoint(whole, frac);
  }

  lemma ExponentMarkAbsent(s: string)
    requires forall k :: 0 <= k < |s| ==> s[k] != 'e' && s[k] != 'E'
    ensures ExponentMark(s) == |s|
  {
    if s != [] {
      ExponentMarkAbsent(s[1..]);
    }
  }

  /** A plain run of digits reads as that whole number. */
  lemma PyFloatDigits(w: string)
    requires w != [] && AllDigits(w)
    ensures PyFloat(w) == Some(Decimal(DigitsValue(w), 0))
  {
    assert Strip(w) == w;
    UnsignedDigits(w);
  }

  /** A run of digits, unsigned, is a mantissa without a point and without an exponent. */
  lemma UnsignedDigits(w: string)
    requires w != [] && AllDigits(w)
    ensures ParseUnsignedFloat(w) == Some(Decimal(DigitsValue(w), 0))
  {
    assert ExponentMark(w) == |w| by {
      ExponentMarkAbsent(w);
    }
    assert w[..|w|] == w;
    MantissaDigits(w);
  }

  /** A run of digits is a mantissa without a point. */
  lemma MantissaDigits(w: string)
    requires w != [] && AllDigits(w)
    ensures ParseMantissa(w) == Some(Decimal(DigitsValue(w), 0))
  {
    IndexOfIs(w, '.', |w|);
    assert w[..|w|] == w && w + [] == w;
  }

  /** The characters `float()` accepts in a decimal literal, besides surrounding whitespace. */
  predicate FloatChar(c: char) {
    IsDigit(c) || c == '.' || c == '+' || c == '-' || c == 'e' || c == 'E'
  }

  lemma MantissaChars(m: string)
    requires ParseMantissa(m).Some?
    ensures forall k :: 0 <= k < |m| ==> IsDigit(m[k]) || m[k] == '.'
  {
    var p := IndexOf(m, '.');
    forall k | 0 <= k < |m| ensures IsDigit(m[k]) || m[k] == '.' {
      if k < p {
        assert m[k] == m[..p][k];
      } else if k > p {
        assert m[k] == m[p + 1..][k - p - 1];
      }
    }
  }

  lemma ExponentChars(x: string)
    requires ParseExponent(x).Some?
    ensures forall k :: 0 <= k < |x| ==> IsDigit(x[k]) || x[k] == '+' || x[k] == '-'
  {
    forall k | 0 <= k < |x| ensures IsDigit(x[k]) || x[k] == '+' || x[k] == '-' {
      if k > 0 && (x[0] == '+' || x[0] == '-') {
        assert x[k] == x[1..][k - 1];
      }
    }
  }

  lemma UnsignedFloatChars(t: string)
    requires ParseUnsignedFloat(t).Some?
    ensures forall k :: 0 <= k < |t| ==> FloatChar(t[k])
  {
    var e := ExponentMark(t);
    MantissaChars(t[..e]);
    if e < |t| {
      ExponentChars(t[e + 1..]);
    }
    forall k | 0 <= k < |t| ensures FloatChar(t[k]) {
      if k < e {
        assert t[k] == t[..e][k];
      } else if k > e {
        assert t[k] == t[e + 1..][k - e - 1];
      }
    }
  }

  lemma SignedFloatChars(t: string)
    requires if t != [] && (t[0] == '+' || t[0] == '-') then ParseUnsignedFloat(t[1..]).Some? else ParseUnsignedFloat(t).Some?
    ensures forall k :: 0 <= k < |t| ==> FloatChar(t[k])
  {
    if t != [] && (t[0] == '+' || t[0] == '-') {
      UnsignedFloatChars(t[1..]);
      forall k | 0 < k < |t| ensures FloatChar(t[k]) { assert t[k] == t[1..][k - 1]; }
    } else {
      UnsignedFloatChars(t);
    }
  }

  /** Text whose stripped part holds only literal characters holds nothing else but whitespace. */
  lemma StrippedChars(s: string)
    requires forall k :: 0 <= k < |Strip(s)| ==> FloatChar(Strip(s)[k])
    ensures forall k :: 0 <= k < |s| ==> IsSpace(s[k]) || FloatChar(s[k])
  {
    StripBounds(s);
    var a := SkipSpaces(s, 0);
    var t := Strip(s);
    forall k | 0 <= k < |s| ensures IsSpace(s[k]) || FloatChar(s[k]) {
      if a <= k < a + |t| {
        assert s[k] == t[k - a];
      }
    }
  }

  /** Whatever `float()` reads holds nothing but whitespace and the literal's own characters. */
  lemma PyFloatChars(s: string)
    requires PyFloat(s).Some?
    ensures forall k :: 0 <= k < |s| ==> IsSpace(s[k]) || FloatChar(s[k])
  {
    SignedFloatChars(Strip(s));
    StrippedChars(s);
  }

  // ---------------------------------------------------------------------------
  // Rounding to an integer

  /** `n` is an integer nearest to the value of `d`. */
  ghost predicate NearestInteger(d: Decimal, n: int) {
    if d.exp >= 0 then n == d.digits * Pow10(d.exp)
    else
      var p: int := Pow10(-d.exp);
      -p <= 2 * (d.digits - n * p) <= p
  }

  /** Python's `round(x, 0)` (ties to even), taken on the exact value. */
  function RoundHalfEven(d: Decimal): (n: int)
    ensures NearestInteger(d, n)
  {
    if d.exp >= 0 then d.digits * Pow10(d.exp)
    else
      var p := Pow10(-d.exp);
      var q := d.digits / p;
      var r := d.digits % p;
      assert d.digits == q * p + r;
      assert (q + 1) * p == q * p + p;
      if 2 * r < p then q else if 2 * r > p then q + 1 else if q % 2 == 0 then q else q + 1
  }

  // ---------------------------------------------------------------------------
  // parse_long_km

  /** The unit words `parse_long_km` deletes, in its order. */
  function DropUnits(s: string): string {
    Replace(Replace(Replace(Replace(s, "kms", ""), "km", ""), "kilómetros", ""), "kilometros", "")
  }

  /** The text `parse_long_km` hands to `float()`: units, spaces and thousands dots removed. */
  function KmText(raw: string): string {
    var s := Lower(Strip(raw));
    var s1 := DropUnits(s);
    var s2 := Replace(Replace(s1, " ", ""), ",", ".");
    var parts := Split(s2, '.');
    if |parts| > 2 then JoinKeepingLastDot(parts) else s2
  }

  /** `parse_long_km`: a length in whole kilometres, or `None` for blank or unreadable text. */
  function ParseLongKm(raw: string): (r: Option<int>)
    ensures Strip(raw) == [] ==> r == None
    ensures r.Some? <==> Strip(raw) != [] && PyFloat(KmText(raw)).Some?
    ensures r.Some? ==> NearestInteger(PyFloat(KmText(raw)).value, r.value)
  {
    var s := Lower(Strip(raw));
    if s == [] then None
    else
      match PyFloat(KmText(raw))
      case None => None
      case Some(d) => Some(RoundHalfEven(d))
  }

  /** A whole number followed by " kms" reads as that number of kilometres. */
  lemma ParseLongKmWholeKms(w: string)
    requires w != [] && AllDigits(w)
    ensures ParseLongKm(w + " kms") == Some(DigitsValue(w))
  {
    var raw := w + " kms";
    StripUnpadded(raw);
    LowerUnchanged(raw);
    DigitsCount(w, 'k');
    DigitsCount(w, ' ');
    DigitsCount(w, ',');
    assert raw == (w + " ") + "kms";
    ReplaceSkip(w + " ", "kms", "kms", "");
    ReplaceWhole("kms", "");
    assert Replace(raw, "kms", "") == w + " ";
    ReplaceAbsent(w + " ", "km", "");
    ReplaceAbsent(w + " ", "kilómetros", "");
    ReplaceAbsent(w + " ", "kilometros", "");
    ReplaceSkip(w, " ", " ", "");
    ReplaceWhole(" ", "");
    assert Replace(w + " ", " ", "") == w;
    ReplaceAbsent(w, ",", ".");
    SplitDigits(w);
    assert KmText(raw) == w;
    PyFloatDigits(w);
  }

  /** Of the unit words only the trailing "km" goes from a decimal length with " km". */
  lemma DropUnitsKm(lit: string)
    requires 'k' !in lit
    ensures DropUnits(lit + " km") == lit + " "
  {
    var raw := lit + " km";
    assert 'k' !in lit + " ";
    assert raw == (lit + " ") + "km";
    assert Replace(raw, "kms", "") == raw by {
      assert Replace("km", "kms", "") == "km" by { assert |"km"| < |"kms"|; }
      ReplaceSkip(lit + " ", "km", "kms", "");
    }
    assert Replace(raw, "km", "") == lit + " " by {
      ReplaceSkip(lit + " ", "km", "km", "");
      ReplaceWhole("km", "");
    }
    ReplaceAbsent(lit + " ", "kilómetros", "");
    ReplaceAbsent(lit + " ", "kilometros", "");
  }

  /** After its unit is removed, a decimal length with " km" is just the literal. */
  lemma KmTextPointKm(w: string, f: string)
    requires w != [] && AllDigits(w) && AllDigits(f)
    ensures KmText(w + "." + f + " km") == w + "." + f
  {
    var lit := w + "." + f;
    var raw := lit + " km";
    assert w + "." + f + " km" == raw;
    DigitsCount(w, 'k');
    DigitsCount(f, 'k');
    DigitsCount(w, ' ');
    DigitsCount(f, ' ');
    DigitsCount(w, ',');
    DigitsCount(f, ',');
    assert 'k' !in lit && ' ' !in lit && ',' !in lit;
    assert Lower(Strip(raw)) == raw by {
      assert raw[0] == w[0];
      StripUnpadded(raw);
      LowerUnchanged(raw);
    }
    DropUnitsKm(lit);
    assert Replace(lit + " ", " ", "") == lit by {
      ReplaceSkip(lit, " ", " ", "");
      ReplaceWhole(" ", "");
    }
    ReplaceAbsent(lit, ",", ".");
    SplitAfterDigits(w, f);
    SplitDigits(f);
  }

  /** A decimal length followed by " km" reads as the nearest whole number of kilometres. */
  lemma ParseLongKmPointKm(w: string, f: string)
    requires w != [] && AllDigits(w) && AllDigits(f)
    ensures var r := ParseLongKm(w + "." + f + " km");
      var p: int := Pow10(|f|);
      r.Some? && -p <= 2 * (DigitsValue(w + f) - r.value * p) <= p
  {
    var raw := w + "." + f + " km";
    var d := Decimal(DigitsValue(w + f), -|f|);
    assert ParseLongKm(raw) == Some(RoundHalfEven(d)) by {
      KmTextPointKm(w, f);
      PyFloatPointLiteral(w, f);
      assert raw[0] == w[0];
      StripUnpadded(raw);
    }
    var n := RoundHalfEven(d);
    assert NearestInteger(d, n);
    if f == [] {
      assert n == d.digits * Pow10(0);
    }
  }

  /** A lower-case length without spaces or a 'k', followed by " km", is cleaned back to itself. */
  lemma KmUnitRemoved(lit: string)
    requires lit != [] && !IsSpace(lit[0]) && 'k' !in lit && ' ' !in lit
    requires forall i :: 0 <= i < |lit| ==> LowerChar(lit[i]) == lit[i]
    ensures Replace(DropUnits(Lower(Strip(lit + " km"))), " ", "") == lit
  {
    var raw := lit + " km";
    assert Lower(Strip(raw)) == raw by {
      assert raw[0] == lit[0];
      StripUnpadded(raw);
      LowerUnchanged(raw);
    }
    DropUnitsKm(lit);
    ReplaceSkip(lit, " ", " ", "");
    ReplaceWhole(" ", "");
  }

  /** A length with a thousands comma loses the comma and keeps its decimal point. */
  lemma KmTextThousands(a: string, b: string, f: string)
    requires a != [] && AllDigits(a) && AllDigits(b) && AllDigits(f)
    ensures KmText(a + "," + b + "." + f + " km") == (a + b) + "." + f
  {
    var rest := b + "." + f;
    var lit := a + "," + rest;
    assert a + "," + b + "." + f + " km" == lit + " km";
    assert ',' !in a && ',' !in rest && 'k' !in lit && ' ' !in lit by {
      DigitsCount(a, 'k');
      DigitsCount(b, 'k');
      DigitsCount(f, 'k');
      DigitsCount(a, ' ');
      DigitsCount(b, ' ');
      DigitsCount(f, ' ');
      DigitsCount(a, ',');
      DigitsCount(b, ',');
      DigitsCount(f, ',');
    }
    assert lit[0] == a[0];
    KmUnitRemoved(lit);
    assert Replace(lit, ",", ".") == a + "." + rest by {
      ReplaceOnce(a, ',', rest, ".");
    }
    assert Split(a + "." + rest, '.') == [a, b, f] by {
      SplitAfterDigits(a, rest);
      SplitAfterDigits(b, f);
      SplitDigits(f);
    }
    JoinThreeParts(a, b, f);
  }

  /** An unpadded length whose cleaned text is "w.f" is read as the whole number nearest to wf / 10^|f|. */
  lemma KmPointValue(raw: string, w: string, f: string)
    requires w != [] && AllDigits(w) && AllDigits(f)
    requires raw != [] && !IsSpace(raw[0]) && !IsSpace(raw[|raw| - 1])
    requires KmText(raw) == w + "." + f
    ensures var r := ParseLongKm(raw);
      r.Some? && NearestInteger(Decimal(DigitsValue(w + f), -|f|), r.value)
  {
    PyFloatPointLiteral(w, f);
    StripUnpadded(raw);
  }

  /** "1,234.5 km" is read as the whole number nearest to 1234.5. */
  lemma ParseLongKmThousands(a: string, b: string, f: string)
    requires a != [] && AllDigits(a) && AllDigits(b) && AllDigits(f)
    ensures var r := ParseLongKm(a + "," + b + "." + f + " km");
      r.Some? && NearestInteger(Decimal(DigitsValue(a + b + f), -|f|), r.value)
  {
    var raw := a + "," + b + "." + f + " km";
    KmTextThousands(a, b, f);
    AllDigitsConcat(a, b);
    assert raw[0] == a[0];
    KmPointValue(raw, a + b, f);
  }

  /** A character that cannot occur in a float literal, left over after unit removal, makes the length unreadable. */
  lemma ParseLongKmRejects(raw: string, k: nat)
    requires k < |KmText(raw)| && !IsSpace(KmText(raw)[k]) && !FloatChar(KmText(raw)[k])
    ensures ParseLongKm(raw) == None
  {
    if PyFloat(KmText(raw)).Some? {
      PyFloatChars(KmText(raw));
    }
  }

  /** From the last dot on, text without spaces or commas holds exactly one dot. */
  lemma LastDotTail(s: string, k: nat)
    requires ' ' !in s && ',' !in s && '.' in s && k == LastIndexOf(s, '.')
    ensures ' ' !in s[k..] && ',' !in s[k..] && Count(s[k..], '.') == 1
  {
    var tail := s[k + 1..];
    assert '.' !in tail by {
      forall j | 0 <= j < |tail| ensures tail[j] != '.' { assert tail[j] == s[k + 1 + j]; }
    }
    CountZero(tail, '.');
    assert s[k..] == "." + tail;
    CountConcat(".", tail, '.');
    assert forall x :: x in s[k..] ==> x in s;
  }

  /** Comma-and-dot text with at least two separators keeps only its last one as the decimal point. */
  lemma CollapseDots(s: string)
    requires ' ' !in s && ',' !in s && Count(s, '.') >= 2
    ensures var r := JoinKeepingLastDot(Split(s, '.'));
      ' ' !in r && ',' !in r && Count(r, '.') == 1
  {
    SplitCount(s, '.');
    CountZero(s, '.');
    var k := LastIndexOf(s, '.');
    var pre := RemoveChar(s[..k], '.');
    assert JoinKeepingLastDot(Split(s, '.')) == pre + s[k..] by {
      KeepLastDotIsRemoveEarlierDots(s);
    }
    assert ' ' !in pre && ',' !in pre && Count(pre, '.') == 0 by {
      RemoveCharChars(s[..k], '.');
      assert forall x :: x in s[..k] ==> x in s;
    }
    LastDotTail(s, k);
    CountConcat(pre, s[k..], '.');
  }

  /** After `parse_long_km`'s rewriting there is no space, no comma and at most one dot. */
  lemma KmTextShape(raw: string)
    ensures ' ' !in KmText(raw) && ',' !in KmText(raw) && Count(KmText(raw), '.') <= 1
  {
    var s := Lower(Strip(raw));
    var s1 := DropUnits(s);
    var u := Replace(s1, " ", "");
    DeleteChar(s1, ' ');
    RemoveCharChars(s1, ' ');
    var s2 := Replace(u, ",", ".");
    ReplaceChar(u, ',', '.');
    assert ' ' !in s2 && ',' !in s2 by {
      forall k | 0 <= k < |s2| ensures s2[k] != ' ' && s2[k] != ',' {
        assert u[k] in u;
      }
    }
    SplitCount(s2, '.');
    if Count(s2, '.') >= 2 {
      CollapseDots(s2);
    }
  }

  // ---------------------------------------------------------------------------
  // _parse_decimal

  /** The text `_parse_decimal` hands to `float()`. */
  function DecimalText(txt: string): string {
    var s := CleanAmount(txt);
    var s' :=
      if ',' in s && '.' in s then Replace(s, ",", "")
      else if Count(s, ',') == 1 && Count(s, '.') == 0 then Replace(s, ",", ".")
      else s;
    if Count(s', '.') > 1 then JoinKeepingLastDot(Split(s', '.')) else s'
  }

  /** `_parse_decimal`: a currency amount, or `None` when the text is not a number. */
  function ParseDecimal(txt: string): (r: Option<real>)
    ensures r.Some? <==> PyFloat(DecimalText(txt)).Some?
  {
    match PyFloat(DecimalText(txt))
    case None => None
    case Some(d) => Some(ToReal(d))
  }

  /** The decimal `wf * 10^-|f|` is the amount `wf / 10^|f|`. */
  lemma PointValue(n: int, f: string)
    ensures ToReal(Decimal(n, -|f|)) == n as real / Pow10(|f|) as real
  {
    if f == [] {
      assert ToReal(Decimal(n, 0)) == (n * Pow10(0)) as real;
    }
  }

  /** `_parse_decimal` returns the amount of the literal `w.f` its rewriting leaves. */
  lemma ParseDecimalValue(txt: string, w: string, f: string)
    requires w != [] && AllDigits(w) && AllDigits(f)
    requires DecimalText(txt) == w + "." + f
    ensures ParseDecimal(txt) == Some(DigitsValue(w + f) as real / Pow10(|f|) as real)
  {
    var d := Decimal(DigitsValue(w + f), -|f|);
    assert PyFloat(DecimalText(txt)) == Some(d) by { PyFloatPointLiteral(w, f); }
    PointValue(d.digits, f);
  }

  /** Text without outer whitespace, currency sign or inner spaces is already clean. */
  lemma CleanAmountPlain(s: string)
    requires s != [] && !IsSpace(s[0]) && !IsSpace(s[|s| - 1]) && '$' !in s && ' ' !in s
    ensures CleanAmount(s) == s
  {
    StripUnpadded(s);
    ReplaceAbsent(s, "$", "");
    ReplaceAbsent(s, " ", "");
  }

  /** The characters of a digit string are none of the separators `_parse_decimal` handles. */
  lemma DigitsNoSeparators(w: string)
    requires AllDigits(w)
    ensures '$' !in w && ' ' !in w && ',' !in w && '.' !in w
  {
    DigitsCount(w, '$');
    DigitsCount(w, ' ');
    DigitsCount(w, ',');
    DigitsCount(w, '.');
  }

  /** `w.f` holds exactly one dot, no comma, no currency sign and no space, and ends in no space. */
  lemma PointLiteralShape(w: string, f: string)
    requires AllDigits(w) && AllDigits(f)
    ensures var lit := w + "." + f;
      && '$' !in lit && ' ' !in lit && ',' !in lit && Count(lit, '.') == 1 && !IsSpace(lit[|lit| - 1])
  {
    DigitsNoSeparators(w);
    DigitsNoSeparators(f);
    DigitsCount(w, '.');
    DigitsCount(f, '.');
    CountConcat(w, "." + f, '.');
    CountConcat(".", f, '.');
    assert w + "." + f == w + ("." + f);
  }

  lemma DecimalTextDollarPoint(w: string, f: string)
    requires w != [] && AllDigits(w) && AllDigits(f)
    ensures DecimalText("$" + w + "." + f) == w + "." + f
  {
    var lit := w + "." + f;
    var txt := "$" + lit;
    assert "$" + w + "." + f == txt;
    PointLiteralShape(w, f);
    assert CleanAmount(txt) == lit by {
      assert txt[|txt| - 1] == lit[|lit| - 1];
      StripUnpadded(txt);
      assert txt[..1] == "$" && txt[1..] == lit;
      ReplaceAbsent(lit, "$", "");
      assert Replace(txt, "$", "") == lit;
      ReplaceAbsent(lit, " ", "");
    }
    CountZero(lit, ',');
  }

  /** "$" followed by `w.f` reads as `wf / 10^|f|`. */
  lemma ParseDecimalDollarPoint(w: string, f: string)
    requires w != [] && AllDigits(w) && AllDigits(f)
    ensures ParseDecimal("$" + w + "." + f) == Some(DigitsValue(w + f) as real / Pow10(|f|) as real)
  {
    DecimalTextDollarPoint(w, f);
    ParseDecimalValue("$" + w + "." + f, w, f);
  }

  lemma DecimalTextCommaDecimal(w: string, f: string)
    requires w != [] && AllDigits(w) && AllDigits(f)
    ensures DecimalText(w + "," + f) == w + "." + f
  {
    var txt := w + "," + f;
    DigitsNoSeparators(w);
    DigitsNoSeparators(f);
    assert Count(txt, ',') == 1 by {
      DigitsCount(w, ',');
      DigitsCount(f, ',');
      CountConcat(w + ",", f, ',');
      CountConcat(w, ",", ',');
    }
    assert '$' !in txt && ' ' !in txt && '.' !in txt;
    assert txt[|txt| - 1] == if f == [] then ',' else f[|f| - 1];
    CleanAmountPlain(txt);
    CountZero(txt, '.');
    ReplaceOnce(w, ',', f, ".");
    PointLiteralShape(w, f);
  }

  /** A decimal comma reads as a decimal point: "228,50" is 22850 / 100. */
  lemma ParseDecimalCommaDecimal(w: string, f: string)
    requires w != [] && AllDigits(w) && AllDigits(f)
    ensures ParseDecimal(w + "," + f) == Some(DigitsValue(w + f) as real / Pow10(|f|) as real)
  {
    DecimalTextCommaDecimal(w, f);
    ParseDecimalValue(w + "," + f, w, f);
  }

  lemma DecimalTextThousands(a: string, b: string, f: string)
    requires a != [] && AllDigits(a) && AllDigits(b) && AllDigits(f)
    ensures DecimalText(a + "," + b + "." + f) == (a + b) + "." + f
  {
    var rest := b + "." + f;
    var txt := a + "," + rest;
    assert a + "," + b + "." + f == txt;
    DigitsNoSeparators(a);
    PointLiteralShape(b, f);
    assert '$' !in txt && ' ' !in txt;
    assert txt[|txt| - 1] == rest[|rest| - 1];
    CleanAmountPlain(txt);
    assert ',' in txt && '.' in txt by { assert txt[|a|] == ','; assert txt[|a| + 1 + |b|] == '.'; }
    ReplaceOnce(a, ',', rest, "");
    DropSeparator(a, b, f);
    AllDigitsConcat(a, b);
    PointLiteralShape(a + b, f);
  }

  /** With a dot present, commas are thousands separators and are dropped. */
  lemma ParseDecimalThousands(a: string, b: string, f: string)
    requires a != [] && AllDigits(a) && AllDigits(b) && AllDigits(f)
    ensures ParseDecimal(a + "," + b + "." + f) == Some(DigitsValue(a + b + f) as real / Pow10(|f|) as real)
  {
    DecimalTextThousands(a, b, f);
    AllDigitsConcat(a, b);
    ParseDecimalValue(a + "," + b + "." + f, a + b, f);
    assert a + b + f == (a + b) + f;
  }

  lemma DecimalTextEarlierDots(a: string, b: string, f: string)
    requires a != [] && AllDigits(a) && AllDigits(b) && AllDigits(f)
    ensures DecimalText(a + "." + b + "." + f) == (a + b) + "." + f
  {
    var txt := a + "." + (b + "." + f);
    assert a + "." + b + "." + f == txt;
    TwoDotsShape(a, b, f);
    DecimalTextDots(txt);
    JoinThreeParts(a, b, f);
  }

  /** `a.b.f` is clean, has no comma, has two dots, and splits at them into a, b and f. */
  lemma TwoDotsShape(a: string, b: string, f: string)
    requires a != [] && AllDigits(a) && AllDigits(b) && AllDigits(f)
    ensures var txt := a + "." + (b + "." + f);
      CleanAmount(txt) == txt && ',' !in txt && Count(txt, '.') == 2 && Split(txt, '.') == [a, b, f]
  {
    TwoDotsClean(a, b, f);
    SplitAfterDigits(a, b + "." + f);
    SplitAfterDigits(b, f);
    SplitDigits(f);
  }

  lemma TwoDotsClean(a: string, b: string, f: string)
    requires a != [] && AllDigits(a) && AllDigits(b) && AllDigits(f)
    ensures var txt := a + "." + (b + "." + f);
      CleanAmount(txt) == txt && ',' !in txt && Count(txt, '.') == 2
  {
    var rest := b + "." + f;
    var txt := a + "." + rest;
    DigitsNoSeparators(a);
    PointLiteralShape(b, f);
    assert CleanAmount(txt) == txt && ',' !in txt by {
      assert '$' !in txt && ' ' !in txt && ',' !in txt;
      assert txt[|txt| - 1] == rest[|rest| - 1];
      CleanAmountPlain(txt);
    }
    assert Count(txt, '.') == 2 by {
      CountZero(a, '.');
      CountConcat(a + ".", rest, '.');
      CountConcat(a, ".", '.');
    }
  }

  /** Clean text without commas and with several dots keeps only its last dot. */
  lemma DecimalTextDots(txt: string)
    requires CleanAmount(txt) == txt && ',' !in txt && Count(txt, '.') > 1
    ensures DecimalText(txt) == JoinKeepingLastDot(Split(txt, '.'))
  {
    CountZero(txt, ',');
  }

  /** Dots before the last one are thousands separators and are dropped. */
  lemma ParseDecimalEarlierDots(a: string, b: string, f: string)
    requires a != [] && AllDigits(a) && AllDigits(b) && AllDigits(f)
    ensures ParseDecimal(a + "." + b + "." + f) == Some(DigitsValue(a + b + f) as real / Pow10(|f|) as real)
  {
    DecimalTextEarlierDots(a, b, f);
    AllDigitsConcat(a, b);
    ParseDecimalValue(a + "." + b + "." + f, a + b, f);
    assert a + b + f == (a + b) + f;
  }

  /** A character that cannot occur in a float literal, left after cleaning, makes the amount unreadable. */
  lemma ParseDecimalRejects(txt: string, k: nat)
    requires k < |DecimalText(txt)| && !IsSpace(DecimalText(txt)[k]) && !FloatChar(DecimalText(txt)[k])
    ensures ParseDecimal(txt) == None
  {
    if PyFloat(DecimalText(txt)).Some? {
      PyFloatChars(DecimalText(txt));
    }
  }

  /** A word is not an amount. */
  lemma ParseDecimalWord()
    ensures ParseDecimal("abc") == None
  {
    var txt := "abc";
    CleanAmountPlain(txt);
    CountZero(txt, ',');
    CountZero(txt, '.');
    assert DecimalText(txt) == txt;
    ParseDecimalRejects(txt, 0);
  }

  /** Currency sign and spaces removed: the first step of `_parse_decimal`. */
  function CleanAmount(txt: string): (s: string)
    ensures '$' !in s && ' ' !in s
  {
    var s0 := Replace(Strip(txt), "$", "");
    DeleteChar(Strip(txt), '$');
    RemoveCharChars(Strip(txt), '$');
    DeleteChar(s0, ' ');
    RemoveCharChars(s0, ' ');
    Replace(s0, " ", "")
  }

  lemma ReplaceCommaByDot(s: string)
    requires '$' !in s && ' ' !in s && Count(s, '.') == 0
    ensures var s' := Replace(s, ",", ".");
      '$' !in s' && ' ' !in s' && ',' !in s' && Count(s', '.') == Count(s, ',')
  {
    ReplaceChar(s, ',', '.');
    var s' := Replace(s, ",", ".");
    assert forall x :: x in s' ==> x != ',' && (x in s || x == '.');
    CountZero(s, '.');
    assert forall k :: 0 <= k < |s| ==> (s'[k] == '.' <==> s[k] == ',');
    CountMatches(s, s', ',', '.');
  }

  lemma {:induction false} CountMatches(s: string, t: string, c: char, d: char)
    requires |s| == |t|
    requires forall k :: 0 <= k < |s| ==> (t[k] == d <==> s[k] == c)
    ensures Count(t, d) == Count(s, c)
  {
    if s != [] {
      CountMatches(s[1..], t[1..], c, d);
    }
  }

  /** After `_parse_decimal`'s rewriting there is no currency sign, no space and at most one dot;
      a comma survives only when the text had no dot and not exactly one comma. */
  lemma DecimalTextShape(txt: string)
    ensures '$' !in DecimalText(txt) && ' ' !in DecimalText(txt)
    ensures Count(DecimalText(txt), '.') <= 1
    ensures ',' in DecimalText(txt) ==> '.' !in CleanAmount(txt) && Count(CleanAmount(txt), ',') != 1
  {
    var s := CleanAmount(txt);
    assert s == Replace(Replace(Strip(txt), "$", ""), " ", "");
    var s': string;
    if ',' in s && '.' in s {
      s' := Replace(s, ",", "");
      DeleteChar(s, ',');
      RemoveCharChars(s, ',');
    } else if Count(s, ',') == 1 && Count(s, '.') == 0 {
      s' := Replace(s, ",", ".");
      ReplaceCommaByDot(s);
    } else {
      s' := s;
      CountZero(s, '.');
    }
    assert '$' !in s' && ' ' !in s';
    if Count(s', '.') > 1 {
      // Commas are still there only when the text had no dot at all.
      assert ',' !in s' by { CountZero(s', '.'); }
      CollapseDots(s');
      DropsNoNewChars(s');
    }
  }

  lemma DropsNoNewChars(s: string)
    requires '.' in s
    ensures forall x :: x in JoinKeepingLastDot(Split(s, '.')) ==> x in s
  {
    var k := LastIndexOf(s, '.');
    KeepLastDotIsRemoveEarlierDots(s);
    RemoveCharChars(s[..k], '.');
    forall x | x in RemoveChar(s[..k], '.') + s[k..] ensures x in s {
      if x in RemoveChar(s[..k], '.') { assert x in s[..k]; } else { assert x in s[k..]; }
    }
  }
}
