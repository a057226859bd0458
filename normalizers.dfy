/** The detectors and normalisers the validators share: the boolean
    synonyms, `_is_bool_like`, `_is_date_then_normalize`,
    `_is_int_then_normalize`, `_is_float_then_normalize` (with its currency
    and comma-decimal rewrite) and `_is_number_then_normalize`, plus the
    private `_normalize` steps of `BoolValidator` and `DateValidator`.
    A detector's `(False, ...)` answer, and a `_normalize` that raises, are
    `None`. */
module Normalizers {
  import opened Wrappers
  import opened Values
  import opened Text
  import opened Literals
  import opened IsoDates

  const TrueValues: set<string> := {"true", "=true()", "wahr", "1", "yes", "ja"}
  const FalseValues: set<string> := {"false", "=false()", "falsch", "0", "no", "nein"}
  const BoolValues: set<string> := TrueValues + FalseValues

  /** `s.strip().lower()` */
  function Canonical(s: string): string {
    Lower(Strip(s))
  }

  // ------------------------------------------------------------------
  // Booleans
  // ------------------------------------------------------------------

  /** `BoolValidator._normalize`: a bool is itself, any other number is
      true iff it is non-zero, a string is looked up among the synonyms
      after stripping and lower-casing; everything else raises. */
  function NormalizeBool(v: Value): (r: Option<bool>)
    ensures r.Some? <==> IsNumeric(v) || (v.StrVal? && Canonical(v.s) in BoolValues)
    ensures IsNumeric(v) ==> r == Some(NumValue(v) != 0.0)
    ensures v.StrVal? ==> (r == Some(true) <==> Canonical(v.s) in TrueValues)
    ensures v.StrVal? ==> (r == Some(false) <==> Canonical(v.s) in FalseValues)
  {
    match v
    case BoolVal(b) => Some(b)
    case IntVal(i) => Some(i != 0)
    case FloatVal(x) => Some(x != 0.0)
    case StrVal(s) =>
      var t := Canonical(s);
      SynonymsDisjoint();
      if t in TrueValues then Some(true) else if t in FalseValues then Some(false) else None
    case _ => None
  }

  /** `_is_bool_like` */
  predicate IsBoolLike(v: Value) {
    match v
    case BoolVal(_) => true
    case StrVal(s) => Canonical(s) in BoolValues
    case IntVal(i) => i == 0 || i == 1
    case FloatVal(x) => x == 0.0 || x == 1.0
    case _ => false
  }

  /** No synonym means both true and false. */
  lemma SynonymsDisjoint()
    ensures TrueValues * FalseValues == {}
  {
  }

  /** Bool-like values are exactly the normalisable ones whose number, if
      they have one, is 0 or 1; their truth value is that number. */
  lemma BoolLikeNormalizes(v: Value)
    ensures IsBoolLike(v) <==> NormalizeBool(v).Some? && (IsNumeric(v) ==> NumValue(v) == 0.0 || NumValue(v) == 1.0)
    ensures IsBoolLike(v) && IsNumeric(v) ==> NormalizeBool(v) == Some(NumValue(v) == 1.0)
  {
  }

  // ------------------------------------------------------------------
  // Dates
  // ------------------------------------------------------------------

  /** `DateValidator._normalize`: a datetime is itself, a string is read by
      `fromisoformat` after stripping; a plain date and everything else
      raise. */
  function NormalizeDate(v: Value): (r: Option<DateTimeRec>)
    ensures r.Some? ==> v.DateTimeVal? || v.StrVal?
    ensures v.DateTimeVal? ==> r == Some(v.dt)
    ensures r.Some? && v.StrVal? ==> ValidDateTime(r.value)
  {
    match v
    case DateTimeVal(dt) => Some(dt)
    case StrVal(s) => ParseIsoDateTime(Strip(s))
    case _ => None
  }

  /** `datetime.combine(d, datetime.min.time())` */
  function AtMidnight(d: DateRec): DateTimeRec {
    DateTimeRec(d.year, d.month, d.day, 0, 0, 0, 0)
  }

  /** `_is_date_then_normalize`: as `NormalizeDate`, and a plain date
      becomes midnight of that day. */
  function IsDateThenNormalize(v: Value): (r: Option<DateTimeRec>)
    ensures v.DateVal? ==> r == Some(AtMidnight(v.d))
    ensures !v.DateVal? ==> r == NormalizeDate(v)
  {
    match v
    case DateTimeVal(dt) => Some(dt)
    case DateVal(d) => Some(AtMidnight(d))
    case StrVal(s) => ParseIsoDateTime(Strip(s))
    case _ => None
  }

  /** A date-time written in ISO form, with any surrounding whitespace, is
      date-like and normalises to itself. */
  lemma IsoTextIsDateLike(dt: DateTimeRec)
    requires ValidDateTime(dt)
    ensures IsDateThenNormalize(StrVal(FormatIso(dt))) == Some(dt)
    ensures NormalizeDate(StrVal(" " + FormatIso(dt) + "\n")) == Some(dt)
  {
    IsoRoundTrip(dt);
    FormatIsoDigitEnds(dt);
    DateTextStrips(FormatIso(dt), dt);
  }

  /** Text that parses as a date-time and starts and ends with a digit
      parses the same once stripped, with or without padding around it. */
  lemma DateTextStrips(s: string, dt: DateTimeRec)
    requires s != [] && IsDigit(s[0]) && IsDigit(s[|s| - 1])
    requires ParseIsoDateTime(s) == Some(dt)
    ensures IsDateThenNormalize(StrVal(s)) == Some(dt)
    ensures NormalizeDate(StrVal(" " + s + "\n")) == Some(dt)
  {
    StripUnpadded(s);
    StripPadded(s);
  }

  // ------------------------------------------------------------------
  // Integers
  // ------------------------------------------------------------------

  /** `_is_int_then_normalize`: a bool or int is kept as it is, an
      integral float becomes the int it equals, and a string whose
      stripped text matches `^[+-]?\d+$` becomes the int it writes. The
      result is an int or a bool with the same numeric value. */
  function IsIntThenNormalize(v: Value): (r: Option<Value>)
    ensures r.Some? ==> r.value.IntVal? || r.value.BoolVal?
    ensures r.Some? && IsNumeric(v) ==> NumValue(r.value) == NumValue(v)
    ensures v.BoolVal? || v.IntVal? ==> r == Some(v)
    ensures v.FloatVal? ==> (r.Some? <==> v.x == v.x.Floor as real)
    ensures v.StrVal? ==> (r.Some? <==> MatchIntPattern(Strip(v.s)).Some?)
    ensures v.FloatVal? && r.Some? ==> r.value == IntVal(v.x.Floor)
    ensures v.StrVal? && r.Some? ==> r.value == IntVal(IntValue(MatchIntPattern(Strip(v.s)).value))
    ensures r.Some? ==> IsNumeric(v) || v.StrVal?
  {
    match v
    case BoolVal(_) => Some(v)
    case IntVal(_) => Some(v)
    case FloatVal(x) => if x == x.Floor as real then Some(IntVal(x.Floor)) else None
    case StrVal(s) =>
      (match MatchIntPattern(Strip(s))
       case Some(l) => Some(IntVal(IntValue(l)))
       case None => None)
    case _ => None
  }

  // ------------------------------------------------------------------
  // Floats
  // ------------------------------------------------------------------

  /** `GERMAN_DEZIM` is on, so any of these markers switches the string to
      the comma-decimal reading. */
  predicate HasGermanMarker(t: string) {
    Contains(t, "€") || Contains(t, "euro") || Contains(t, ",")
  }

  /** The text `_is_float_then_normalize` hands to the float pattern:
      stripped and lower-cased, with "€", "euro" and spaces removed; under
      a German marker every "." is dropped and every "," becomes ".". */
  function CleanNumberText(s: string): (r: string)
    ensures ' ' !in r
    ensures HasGermanMarker(Canonical(s)) ==> ',' !in r
    ensures !HasGermanMarker(Canonical(s)) ==> r == Without(Canonical(s), ' ')
  {
    var t := Canonical(s);
    var c := Replace(Replace(Replace(t, "€", ""), "euro", ""), " ", "");
    ReplaceByEmpty(Replace(Replace(t, "€", ""), "euro", ""), ' ');
    if HasGermanMarker(t) then
      ReplaceByEmpty(c, '.');
      ReplaceByChar(Without(c, '.'), ',', '.');
      var r := Replace(Replace(c, ".", ""), ",", ".");
      assert forall k :: 0 <= k < |r| ==> r[k] != ' ' && r[k] != ',' by {
        forall k | 0 <= k < |r| ensures r[k] != ' ' && r[k] != ',' {
          var w := Without(c, '.');
          assert r[k] == if w[k] == ',' then '.' else w[k];
          assert w[k] in w;
        }
      }
      r
    else
      ReplaceAbsent(t, "€", "");
      ReplaceAbsent(t, "euro", "");
      c
  }

  /** The number `float(...)` reads from a string the float pattern
      accepts after cleaning. */
  function FloatOfText(s: string): Option<real> {
    match MatchFloatPattern(CleanNumberText(s))
    case Some(l) => Some(FloatValue(l))
    case None => None
  }

  /** `_is_float_then_normalize`: every number (bool and int included) is
      float-like with its own value; a string is float-like iff its
      cleaned text matches the float pattern. */
  function IsFloatThenNormalize(v: Value): (r: Option<real>)
    ensures IsNumeric(v) ==> r == Some(NumValue(v))
    ensures v.StrVal? ==> r == FloatOfText(v.s)
    ensures !IsNumeric(v) && !v.StrVal? ==> r.None?
  {
    match v
    case FloatVal(x) => Some(x)
    case BoolVal(_) => Some(NumValue(v))
    case IntVal(i) => Some(i as real)
    case StrVal(s) => FloatOfText(s)
    case _ => None
  }

  /** `_is_number_then_normalize`: the int reading if there is one, else
      the float reading. A value is number-like exactly when it is
      float-like, and the number is always its float reading; only the
      type differs (int or bool when int-like, float otherwise). */
  function IsNumberThenNormalize(v: Value): (r: Option<Value>)
    ensures r.Some? <==> IsFloatThenNormalize(v).Some?
    ensures r.Some? ==> IsNumeric(r.value) && NumValue(r.value) == IsFloatThenNormalize(v).value
    ensures r.Some? && r.value.FloatVal? <==> IsFloatThenNormalize(v).Some? && IsIntThenNormalize(v).None?
    ensures IsIntThenNormalize(v).Some? ==> r == IsIntThenNormalize(v)
    ensures IsIntThenNormalize(v).None? && r.Some? ==> r.value == FloatVal(IsFloatThenNormalize(v).value)
  {
    match IsIntThenNormalize(v)
    case Some(n) =>
      IntLikeIsFloatLike(v);
      Some(n)
    case None =>
      match IsFloatThenNormalize(v)
      case Some(x) => Some(FloatVal(x))
      case None => None
  }

  /** Characters of a string the integer pattern accepts. */
  predicate IsIntChar(c: char) {
    IsDigit(c) || c == '+' || c == '-'
  }

  lemma IntTextChars(l: IntLit)
    requires WellFormedInt(l)
    ensures forall k :: 0 <= k < |RenderInt(l)| ==> IsIntChar(RenderInt(l)[k])
  {
    var t := RenderInt(l);
    forall k | 0 <= k < |t| ensures IsIntChar(t[k]) {
      if k >= |SignText(l.sign)| {
        assert t[k] == l.digits[k - |SignText(l.sign)|];
      }
    }
  }

  /** An integer literal has no letter, no marker and no space. */
  lemma IntTextIsClean(t: string)
    requires ParseInt(t).Some?
    ensures Lower(t) == t && !HasGermanMarker(t) && Without(t, ' ') == t
  {
    IntTextChars(ParseInt(t).value);
    LowerUnchanged(t);
    ContainsFirstChar(t, "€");
    ContainsFirstChar(t, "euro");
    ContainsFirstChar(t, ",");
    WithoutAbsent(t, ' ');
  }

  /** A string whose stripped text is an integer literal is read by the
      float path as the same integer. */
  lemma IntTextIsFloatText(s: string)
    requires MatchIntPattern(Strip(s)).Some?
    ensures FloatOfText(s) == Some(IntValue(MatchIntPattern(Strip(s)).value) as real)
  {
    var t := Strip(s);
    assert ParseInt(t).Some?;
    IntTextIsClean(t);
    assert CleanNumberText(s) == t;
    IntLiteralIsFloatLiteral(t);
  }

  /** What makes number-likeness well defined: every int-like value is
      also float-like, and both readings give the same number. */
  lemma IntLikeIsFloatLike(v: Value)
    requires IsIntThenNormalize(v).Some?
    ensures IsFloatThenNormalize(v) == Some(NumValue(IsIntThenNormalize(v).value))
  {
    if v.StrVal? {
      IntTextLikeFloat(v.s);
    } else {
      assert IsNumeric(v);
    }
  }

  /** The string case of `IntLikeIsFloatLike`. */
  lemma IntTextLikeFloat(s: string)
    requires IsIntThenNormalize(StrVal(s)).Some?
    ensures FloatOfText(s) == Some(NumValue(IsIntThenNormalize(StrVal(s)).value))
  {
    var l := MatchIntPattern(Strip(s)).value;
    assert IsIntThenNormalize(StrVal(s)) == Some(IntVal(IntValue(l)));
    IntTextIsFloatText(s);
  }

  // ------------------------------------------------------------------
  // The comma-decimal reading
  // ------------------------------------------------------------------

  /** Digits, thousands dots and one decimal comma: the shape of the
      German number format. */
  predicate GermanShape(a: string, f: string) {
    && (forall k :: 0 <= k < |a| ==> IsDigit(a[k]) || a[k] == '.')
    && Without(a, '.') != []
    && AllDigits(f)
  }

  /** The German format: digits grouped by "." as thousands separators,
      then "," and the decimals, is read with the dots ignored and the
      comma as the decimal point ("1.234,56" is 1234.56, "0001,50" is
      1.5, "1," is 1). */
  lemma GermanDecimal(a: string, f: string)
    requires GermanShape(a, f)
    ensures AllDigits(Without(a, '.') + f)
    ensures FloatOfText(a + "," + f) == Some(DigitsValue(Without(a, '.') + f) as real / Pow10Nat(|f|) as real)
  {
    GermanClean(a, f);
    DotlessDigits(a);
    PointedDecimal(Without(a, '.'), f);
  }

  /** `i.f` is read as the digits of both parts over 10 to the length of
      the fraction. */
  lemma PointedDecimal(i: string, f: string)
    requires i != [] && AllDigits(i) && AllDigits(f)
    ensures AllDigits(i + f)
    ensures MatchFloatPattern(i + "." + f).Some?
    ensures FloatValue(MatchFloatPattern(i + "." + f).value) == DigitsValue(i + f) as real / Pow10Nat(|f|) as real
  {
    var l := FloatLit(Unsigned, i, true, f, None);
    PointedLiteral(i, f);
    assert ParseFloat(i + "." + f) == Some(l);
    assert MatchFloatPattern(i + "." + f) == Some(l);
    UnsignedValue(l);
  }

  lemma PointedLiteral(i: string, f: string)
    requires i != [] && AllDigits(i) && AllDigits(f)
    ensures ParseFloat(i + "." + f) == Some(FloatLit(Unsigned, i, true, f, None))
  {
    var l := FloatLit(Unsigned, i, true, f, None);
    assert RenderFloat(l) == i + "." + f;
    FloatRoundTrip(l);
  }

  lemma UnsignedValue(l: FloatLit)
    requires WellFormedFloat(l) && l.sign == Unsigned && l.exponent == None
    ensures FloatValue(l) == DigitsValue(l.intPart + l.fracPart) as real / Pow10Nat(|l.fracPart|) as real
  {
    assert ExponentValue(None) == 0 && Pow10(0) == 1.0 && SignFactor(Unsigned) == 1;
  }

  lemma DotlessDigits(a: string)
    requires forall k :: 0 <= k < |a| ==> IsDigit(a[k]) || a[k] == '.'
    ensures AllDigits(Without(a, '.'))
  {
    var i := Without(a, '.');
    ReplaceByEmpty(a, '.');
    forall k | 0 <= k < |i| ensures IsDigit(i[k]) {
      assert i[k] in a;
      var j :| 0 <= j < |a| && a[j] == i[k];
    }
  }

  /** Cleaning a German-format number keeps its digits and turns the
      comma into the decimal point. */
  lemma GermanClean(a: string, f: string)
    requires GermanShape(a, f)
    ensures CleanNumberText(a + "," + f) == Without(a, '.') + "." + f
  {
    var s := a + "," + f;
    GermanCanonical(a, f);
    var c := Replace(Replace(Replace(s, "€", ""), "euro", ""), " ", "");
    assert c == s;
    GermanRewrite(a, f);
  }

  lemma GermanCanonical(a: string, f: string)
    requires GermanShape(a, f)
    ensures Canonical(a + "," + f) == a + "," + f
    ensures HasGermanMarker(a + "," + f)
    ensures Replace(Replace(Replace(a + "," + f, "€", ""), "euro", ""), " ", "") == a + "," + f
  {
    var s := a + "," + f;
    GermanChars(a, f);
    PlainNumberText(s);
    ContainsChar(s, ',');
    assert s[|a|] == ',';
  }

  /** Characters of a number written with digits, dots and commas. */
  predicate NumberChars(s: string) {
    forall k :: 0 <= k < |s| ==> IsDigit(s[k]) || s[k] == '.' || s[k] == ','
  }

  lemma GermanChars(a: string, f: string)
    requires GermanShape(a, f)
    ensures NumberChars(a + "," + f)
  {
    var s := a + "," + f;
    forall k | 0 <= k < |s| ensures IsDigit(s[k]) || s[k] == '.' || s[k] == ',' {
      if k < |a| { assert s[k] == a[k]; }
      else if k > |a| { assert s[k] == f[k - |a| - 1]; }
    }
  }

  /** Such a text is its own stripped, lower-cased form, and holds no
      currency marker or space to remove. */
  lemma PlainNumberText(s: string)
    requires NumberChars(s) && s != []
    ensures Canonical(s) == s
    ensures Replace(Replace(Replace(s, "€", ""), "euro", ""), " ", "") == s
  {
    StripUnpadded(s);
    LowerUnchanged(s);
    ContainsFirstChar(s, "€");
    ContainsFirstChar(s, "euro");
    ContainsFirstChar(s, " ");
    ReplaceAbsent(s, "€", "");
    ReplaceAbsent(s, "euro", "");
    ReplaceAbsent(s, " ", "");
  }

  lemma GermanRewrite(a: string, f: string)
    requires GermanShape(a, f)
    ensures Replace(Replace(a + "," + f, ".", ""), ",", ".") == Without(a, '.') + "." + f
  {
    var i := Without(a, '.');
    ReplaceByEmpty(a + "," + f, '.');
    DotsRemoved(a, f);
    ReplaceByChar(i + "," + f, ',', '.');
    assert ',' !in i by {
      ReplaceByEmpty(a, '.');
    }
    CommaToPoint(i, f);
  }

  lemma DotsRemoved(a: string, f: string)
    requires AllDigits(f)
    ensures Without(a + "," + f, '.') == Without(a, '.') + "," + f
  {
    assert '.' !in f;
    assert a + "," + f == a + ("," + f);
    WithoutConcat(a, "," + f, '.');
    WithoutConcat(",", f, '.');
    WithoutAbsent(f, '.');
    assert Without(",", '.') == ",";
  }

  lemma CommaToPoint(i: string, f: string)
    requires ',' !in i && AllDigits(f)
    ensures Substitute(i + "," + f, ',', '.') == i + "." + f
  {
    assert ',' !in f;
    assert i + "," + f == i + ("," + f);
    SubstituteConcat(i, "," + f, ',', '.');
    SubstituteConcat(",", f, ',', '.');
    SubstituteAbsent(i, ',', '.');
    SubstituteAbsent(f, ',', '.');
    assert Substitute(",", ',', '.') == ".";
  }
  // ------------------------------------------------------------------
  // What the float pattern rejects
  // ------------------------------------------------------------------

  /** An accepted text, once cleaned, has at most one decimal point and,
      apart from a final newline the pattern's `$` lets through, only
      characters of a float literal. */
  lemma CleanedShape(s: string)
    requires FloatOfText(s).Some?
    ensures multiset(CleanNumberText(s))['.'] <= 1
    ensures forall x :: x in CleanNumberText(s) && x != '\n' ==> IsFloatChar(x)
  {
    MatchedShape(CleanNumberText(s));
  }

  /** The cleaned text of a number written with digits, dots and commas:
      itself without a comma, and with the dots dropped and the commas
      turned into points otherwise. */
  lemma NumberTextCleaned(s: string)
    requires NumberChars(s) && s != []
    ensures ',' in s ==> CleanNumberText(s) == Substitute(Without(s, '.'), ',', '.')
    ensures ',' !in s ==> CleanNumberText(s) == s
  {
    PlainNumberText(s);
    ContainsChar(s, ',');
    if ',' in s {
      ReplaceByEmpty(s, '.');
      ReplaceByChar(Without(s, '.'), ',', '.');
    } else {
      ContainsFirstChar(s, "€");
      ContainsFirstChar(s, "euro");
      assert ' ' !in s;
      WithoutAbsent(s, ' ');
    }
  }

  /** Two decimal commas are one too many: "1,2,3" is not a number. */
  lemma TwoCommasRejected(s: string)
    requires NumberChars(s) && s != [] && multiset(s)[','] >= 2
    ensures FloatOfText(s).None?
  {
    NumberTextCleaned(s);
    WithoutCount(s, '.', ',');
    SubstituteCount(Without(s, '.'), ',', '.');
    WithoutCount(s, '.', '.');
    if FloatOfText(s).Some? {
      CleanedShape(s);
    }
  }

  /** Without a German marker two points are one too many: "1.2.3" is not
      a number. */
  lemma TwoPointsRejected(s: string)
    requires NumberChars(s) && s != [] && ',' !in s && multiset(s)['.'] >= 2
    ensures FloatOfText(s).None?
  {
    NumberTextCleaned(s);
    if FloatOfText(s).Some? {
      CleanedShape(s);
    }
  }

  /** A character that no cleaning step removes and the float pattern does
      not allow makes the text non-numeric: "€abc" is not a number. */
  lemma ForeignCharRejected(s: string, x: char)
    requires x in Canonical(s) && !IsFloatChar(x) && x != '\n'
    requires x !in "€euro ,."
    ensures FloatOfText(s).None?
  {
    var t := Canonical(s);
    ReplaceKeeps(t, "€", "", x);
    ReplaceKeeps(Replace(t, "€", ""), "euro", "", x);
    var c := Replace(Replace(t, "€", ""), "euro", "");
    ReplaceKeeps(c, " ", "", x);
    var c' := Replace(c, " ", "");
    if HasGermanMarker(t) {
      ReplaceKeeps(c', ".", "", x);
      ReplaceKeeps(Replace(c', ".", ""), ",", ".", x);
    }
    assert x in CleanNumberText(s);
    if FloatOfText(s).Some? {
      CleanedShape(s);
    }
  }

  /** Without a German marker the point is the decimal point: "1.234" is
      1.234. */
  lemma DotDecimal(i: string, f: string)
    requires i != [] && AllDigits(i) && AllDigits(f)
    ensures AllDigits(i + f)
    ensures FloatOfText(i + "." + f) == Some(DigitsValue(i + f) as real / Pow10Nat(|f|) as real)
  {
    DotTextClean(i, f);
    PointedDecimal(i, f);
  }

  /** Digits around one point need no cleaning. */
  lemma DotTextClean(i: string, f: string)
    requires i != [] && AllDigits(i) && AllDigits(f)
    ensures CleanNumberText(i + "." + f) == i + "." + f
  {
    var s := i + "." + f;
    assert NumberChars(s) by {
      forall k | 0 <= k < |s| ensures IsDigit(s[k]) || s[k] == '.' || s[k] == ',' {
        if k < |i| { assert s[k] == i[k]; }
        else if k > |i| { assert s[k] == f[k - |i| - 1]; }
      }
    }
    assert ',' !in s;
    NumberTextCleaned(s);
  }

  /** A euro sign switches the same text to the German reading, where the
      points only group thousands: "€1.234" is 1234. */
  lemma EuroDropsPoints(a: string)
    requires forall k :: 0 <= k < |a| ==> IsDigit(a[k]) || a[k] == '.'
    requires Without(a, '.') != []
    ensures AllDigits(Without(a, '.'))
    ensures FloatOfText("€" + a) == Some(DigitsValue(Without(a, '.')) as real)
  {
    DotlessDigits(a);
    EuroClean(a);
    DigitText(Without(a, '.'));
  }

  /** A run of digits is read as the number it writes. */
  lemma DigitText(i: string)
    requires i != [] && AllDigits(i)
    ensures MatchFloatPattern(i).Some?
    ensures FloatValue(MatchFloatPattern(i).value) == DigitsValue(i) as real
  {
    PlainMatch(i);
    PlainValue(i);
  }

  lemma PlainMatch(i: string)
    requires i != [] && AllDigits(i)
    ensures MatchFloatPattern(i) == Some(FloatLit(Unsigned, i, false, "", None))
  {
    var l := FloatLit(Unsigned, i, false, "", None);
    assert RenderFloat(l) == i;
    FloatRoundTrip(l);
  }

  lemma PlainValue(i: string)
    requires i != [] && AllDigits(i)
    ensures FloatValue(FloatLit(Unsigned, i, false, "", None)) == DigitsValue(i) as real
  {
    UnsignedValue(FloatLit(Unsigned, i, false, "", None));
    assert i + "" == i;
  }

  lemma EuroClean(a: string)
    requires forall k :: 0 <= k < |a| ==> IsDigit(a[k]) || a[k] == '.'
    requires Without(a, '.') != []
    ensures CleanNumberText("€" + a) == Without(a, '.')
  {
    var s := "€" + a;
    var i := Without(a, '.');
    EuroCanonical(a);
    assert HasGermanMarker(s) by { assert s[..1] == "€"; }
    EuroRemoved(a);
    assert NumberChars(a) && a != [];
    PlainNumberText(a);
    ReplaceByEmpty(a, '.');
    assert ',' !in i;
    ContainsChar(i, ',');
    ReplaceAbsent(i, ",", ".");
  }

  lemma EuroRemoved(a: string)
    requires forall k :: 0 <= k < |a| ==> IsDigit(a[k]) || a[k] == '.'
    ensures Replace("€" + a, "€", "") == a
  {
    ReplaceByEmpty("€" + a, '€');
    WithoutConcat("€", a, '€');
    assert '€' !in a;
    WithoutAbsent(a, '€');
    assert Without("€", '€') == [];
  }

  lemma EuroCanonical(a: string)
    requires forall k :: 0 <= k < |a| ==> IsDigit(a[k]) || a[k] == '.'
    requires a != []
    ensures Canonical("€" + a) == "€" + a
  {
    var s := "€" + a;
    assert forall k :: 0 < k < |s| ==> s[k] == a[k - 1];
    assert !IsSpace(s[0]) && !IsSpace(s[|s| - 1]);
    StripUnpadded(s);
    LowerUnchanged(s);
  }
  // ------------------------------------------------------------------
  // The recognition cases of the unit tests
  // ------------------------------------------------------------------

  lemma CommaListRejected()
    ensures FloatOfText("1,2,3").None?
  {
    assert NumberChars("1,2,3") && multiset("1,2,3")[','] == 2;
    TwoCommasRejected("1,2,3");
  }

  lemma PointListRejected()
    ensures FloatOfText("1.2.3").None?
  {
    assert NumberChars("1.2.3") && multiset("1.2.3")['.'] == 2;
    TwoPointsRejected("1.2.3");
  }

  lemma EuroWordRejected()
    ensures FloatOfText("€abc").None?
  {
    EuroWordKeepsLetters();
    LetterRejected("€abc");
  }

  /** A text holding the letter `a` after canonicalisation is no number. */
  lemma LetterRejected(s: string)
    requires 'a' in Canonical(s)
    ensures FloatOfText(s).None?
  {
    ForeignCharRejected(s, 'a');
  }

  lemma EuroWordKeepsLetters()
    ensures 'a' in Canonical("€abc")
  {
    var s := "€abc";
    StripUnpadded(s);
    LowerUnchanged(s);
    assert Canonical(s)[1] == 'a';
  }

  /** 1234.0 is int-like and normalises to the int 1234. */
  lemma WholeFloatIsIntLike()
    ensures IsNumberThenNormalize(FloatVal(1234.0)) == Some(IntVal(1234))
  {
    assert IsIntThenNormalize(FloatVal(1234.0)) == Some(IntVal(1234));
  }

  /** "42.0" is not int-like (it is number-like by `DotDecimal`). */
  lemma PointTextNotIntLike()
    ensures IsIntThenNormalize(StrVal("42.0")).None?
  {
    StripUnpadded("42.0");
    if ParseInt("42.0").Some? {
      IntTextHasNoPoint("42.0");
    }
  }

  /** " Ja " is a synonym of true. */
  lemma PaddedJaIsTrue()
    ensures NormalizeBool(StrVal(" Ja ")) == Some(true)
  {
    CanonicalJa();
    assert "ja" in TrueValues;
  }

  lemma CanonicalJa()
    ensures Canonical(" Ja ") == "ja"
  {
  }

  /** "maybe" is no synonym at all. */
  lemma MaybeIsNoBool()
    ensures NormalizeBool(StrVal("maybe")).None?
  {
    CanonicalMaybe();
    MaybeNoSynonym();
  }

  lemma MaybeNoSynonym()
    ensures "maybe" !in BoolValues
  {
  }

  lemma CanonicalMaybe()
    ensures Canonical("maybe") == "maybe"
  {
    StripUnpadded("maybe");
    LowerUnchanged("maybe");
  }
}
