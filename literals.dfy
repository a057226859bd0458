/** Hand-written recognisers for the two regular expressions of the
    validators, `^[+-]?\d+$` and
    `^[+-]?(?:\d+\.\d*|\.\d+|\d+)(?:[eE][+-]?\d+)?$` (ASCII digits only),
    the decimal value Python's `int(...)` and `float(...)` read from a
    matching string, and Python's `round(x, p)` on exact decimals. */
module Literals {
  import opened Wrappers

  predicate IsDigit(c: char) { '0' <= c <= '9' }

  predicate AllDigits(s: string) {
    forall k :: 0 <= k < |s| ==> IsDigit(s[k])
  }

  /** The decimal number written by a string of digits ("" reads as 0). */
  function DigitsValue(s: string): nat
    requires AllDigits(s)
  {
    if s == [] then 0 else DigitsValue(s[..|s| - 1]) * 10 + (s[|s| - 1] as int - '0' as int)
  }

  /** Appending a digit shifts the value one decimal place. */
  lemma DigitsValueAppend(s: string, c: char)
    requires AllDigits(s) && IsDigit(c)
    ensures AllDigits(s + [c]) && DigitsValue(s + [c]) == DigitsValue(s) * 10 + (c as int - '0' as int)
  {
    assert (s + [c])[..|s|] == s;
  }

  function Pow10Nat(n: nat): (r: nat)
    ensures r >= 1
  {
    if n == 0 then 1 else 10 * Pow10Nat(n - 1)
  }

  /** 10 raised to an integer power, as an exact rational. */
  function Pow10(e: int): (r: real)
    ensures r > 0.0
  {
    if e >= 0 then Pow10Nat(e) as real else 1.0 / Pow10Nat(-e) as real
  }

  /** The length of the run of digits at the front of `s`. */
  function DigitRun(s: string): (n: nat)
    ensures n <= |s| && AllDigits(s[..n])
    ensures n < |s| ==> !IsDigit(s[n])
  {
    if s == [] || !IsDigit(s[0]) then 0
    else
      var m := DigitRun(s[1..]);
      assert s[..1 + m] == [s[0]] + s[1..][..m];
      1 + m
  }

  lemma {:induction false} DigitRunOfDigits(d: string, rest: string)
    requires AllDigits(d)
    requires rest == [] || !IsDigit(rest[0])
    ensures DigitRun(d + rest) == |d|
  {
    if d != [] {
      assert (d + rest)[1..] == d[1..] + rest;
      DigitRunOfDigits(d[1..], rest);
    }
  }

  datatype Sign = Unsigned | Plus | Minus

  function SignText(sg: Sign): string {
    match sg
    case Unsigned => ""
    case Plus => "+"
    case Minus => "-"
  }

  function SignFactor(sg: Sign): int {
    if sg == Minus then -1 else 1
  }

  /** Splits an optional leading `+` or `-` off a string. */
  function SplitSign(s: string): (r: (Sign, string))
    ensures SignText(r.0) + r.1 == s
  {
    if s != [] && s[0] == '+' then (Plus, s[1..])
    else if s != [] && s[0] == '-' then (Minus, s[1..])
    else (Unsigned, s)
  }

  lemma SplitSignOfText(sg: Sign, rest: string)
    requires rest == [] || (rest[0] != '+' && rest[0] != '-')
    ensures SplitSign(SignText(sg) + rest) == (sg, rest)
  {
    match sg
    case Unsigned =>
      assert SignText(sg) + rest == rest;
    case Plus =>
      assert (SignText(sg) + rest)[0] == '+';
      assert (SignText(sg) + rest)[1..] == rest;
    case Minus =>
      assert (SignText(sg) + rest)[0] == '-';
      assert (SignText(sg) + rest)[1..] == rest;
  }

  // ------------------------------------------------------------------
  // Integer literals: ^[+-]?\d+$
  // ------------------------------------------------------------------

  datatype IntLit = IntLit(sign: Sign, digits: string)

  predicate WellFormedInt(l: IntLit) {
    l.digits != [] && AllDigits(l.digits)
  }

  function RenderInt(l: IntLit): string {
    SignText(l.sign) + l.digits
  }

  /** The integer Python's `int(...)` reads from the literal. */
  function IntValue(l: IntLit): int
    requires WellFormedInt(l)
  {
    SignFactor(l.sign) * DigitsValue(l.digits)
  }

  /** Recogniser for `[+-]?\d+` spanning the whole string. */
  function ParseInt(s: string): (r: Option<IntLit>)
    ensures r.Some? ==> WellFormedInt(r.value) && RenderInt(r.value) == s
  {
    var (sg, t) := SplitSign(s);
    if t != [] && DigitRun(t) == |t| then
      assert t[..|t|] == t;
      Some(IntLit(sg, t))
    else None
  }

  /** An integer's text holds no point. */
  lemma IntTextHasNoPoint(s: string)
    requires ParseInt(s).Some?
    ensures '.' !in s
  {
    var l := ParseInt(s).value;
    var n := |SignText(l.sign)|;
    forall k | 0 <= k < |s|
      ensures s[k] != '.'
    {
      if k >= n {
        assert s[k] == l.digits[k - n];
      }
    }
  }

  /** Every well-formed literal is recognised, as itself. */
  lemma IntRoundTrip(l: IntLit)
    requires WellFormedInt(l)
    ensures ParseInt(RenderInt(l)) == Some(l)
  {
    SplitSignOfText(l.sign, l.digits);
    DigitRunOfDigits(l.digits, []);
    assert l.digits + [] == l.digits;
  }

  // ------------------------------------------------------------------
  // Float literals: ^[+-]?(?:\d+\.\d*|\.\d+|\d+)(?:[eE][+-]?\d+)?$
  // ------------------------------------------------------------------

  datatype Exponent = Exponent(marker: char, sign: Sign, digits: string)

  datatype FloatLit = FloatLit(sign: Sign, intPart: string, point: bool, fracPart: string,
                               exponent: Option<Exponent>)

  predicate WellFormedExponent(e: Exponent) {
    (e.marker == 'e' || e.marker == 'E') && e.digits != [] && AllDigits(e.digits)
  }

  /** The three mantissa shapes `\d+\.\d*`, `\.\d+` and `\d+`, and an
      optional exponent. */
  predicate WellFormedFloat(l: FloatLit) {
    && AllDigits(l.intPart) && AllDigits(l.fracPart)
    && (if l.point then l.intPart != [] || l.fracPart != [] else l.intPart != [] && l.fracPart == [])
    && (l.exponent.Some? ==> WellFormedExponent(l.exponent.value))
  }

  function RenderExponent(e: Option<Exponent>): string {
    match e
    case None => ""
    case Some(x) => [x.marker] + SignText(x.sign) + x.digits
  }

  function MantissaText(intPart: string, point: bool, fracPart: string): string {
    intPart + (if point then "." else "") + fracPart
  }

  function RenderFloat(l: FloatLit): string {
    SignText(l.sign) + (MantissaText(l.intPart, l.point, l.fracPart) + RenderExponent(l.exponent))
  }

  /** The exponent part must be empty or `[eE][+-]?\d+` up to the end. */
  function ParseExponent(w: string): (r: Option<Option<Exponent>>)
    ensures r.Some? ==> RenderExponent(r.value) == w
    ensures r.Some? && r.value.Some? ==> WellFormedExponent(r.value.value)
  {
    if w == [] then Some(None)
    else if w[0] == 'e' || w[0] == 'E' then
      var (sg, x) := SplitSign(w[1..]);
      if x != [] && DigitRun(x) == |x| then
        assert x[..|x|] == x;
        assert w == [w[0]] + w[1..];
        Some(Some(Exponent(w[0], sg, x)))
      else None
    else None
  }

  /** The mantissa of a float literal and the text after it. */
  datatype Mantissa = Mantissa(intPart: string, point: bool, fracPart: string, rest: string)

  /** Reads `\d+\.\d*`, `\.\d+` or `\d+` (greedily) from the front of `t`. */
  function ParseMantissa(t: string): (r: Option<Mantissa>)
    ensures r.Some? ==> AllDigits(r.value.intPart) && AllDigits(r.value.fracPart)
    ensures r.Some? ==> if r.value.point then r.value.intPart != [] || r.value.fracPart != []
                        else r.value.intPart != [] && r.value.fracPart == []
    ensures r.Some? ==> t == MantissaText(r.value.intPart, r.value.point, r.value.fracPart) + r.value.rest
  {
    var n := DigitRun(t);
    if n < |t| && t[n] == '.' then
      var v := t[n + 1..];
      var m := DigitRun(v);
      PointSplit(t, n, m);
      if n + m == 0 then None else Some(Mantissa(t[..n], true, v[..m], v[m..]))
    else if n == 0 then None
    else
      PlainSplit(t, n);
      Some(Mantissa(t[..n], false, "", t[n..]))
  }

  /** A mantissa with a point splits at the point and after m digits. */
  lemma PointSplit(t: string, n: nat, m: nat)
    requires n < |t| && t[n] == '.' && m <= |t| - n - 1
    ensures t == MantissaText(t[..n], true, t[n + 1..][..m]) + t[n + 1..][m..]
  {
    var v := t[n + 1..];
    assert t == t[..n] + "." + v;
    assert v == v[..m] + v[m..];
  }

  /** A mantissa without a point is its leading digits. */
  lemma PlainSplit(t: string, n: nat)
    requires n <= |t|
    ensures t == MantissaText(t[..n], false, "") + t[n..]
  {
    assert MantissaText(t[..n], false, "") == t[..n];
  }

  /** Recogniser for the float pattern spanning the whole string: the
      sign, the mantissa, then an exponent reaching to the end. */
  function ParseFloat(s: string): (r: Option<FloatLit>)
    ensures r.Some? ==> WellFormedFloat(r.value) && RenderFloat(r.value) == s
  {
    var (sg, t) := SplitSign(s);
    match ParseMantissa(t)
    case None => None
    case Some(m) =>
      match ParseExponent(m.rest)
      case None => None
      case Some(e) =>
        var l := FloatLit(sg, m.intPart, m.point, m.fracPart, e);
        assert RenderFloat(l) == SignText(sg) + t;
        Some(l)
  }

  lemma ExponentRoundTrip(e: Option<Exponent>)
    requires e.Some? ==> WellFormedExponent(e.value)
    ensures ParseExponent(RenderExponent(e)) == Some(e)
  {
    if e.Some? {
      var x := e.value;
      var w := RenderExponent(e);
      assert w[1..] == SignText(x.sign) + x.digits;
      SplitSignOfText(x.sign, x.digits);
      DigitRunOfDigits(x.digits, []);
      assert x.digits + [] == x.digits;
    }
  }

  lemma MantissaRoundTrip(l: FloatLit, ex: string)
    requires WellFormedFloat(l)
    requires ex == [] || ex[0] == 'e' || ex[0] == 'E'
    ensures ParseMantissa(MantissaText(l.intPart, l.point, l.fracPart) + ex)
            == Some(Mantissa(l.intPart, l.point, l.fracPart, ex))
  {
    if l.point {
      PointedMantissaRoundTrip(l.intPart, l.fracPart, ex);
    } else {
      var t := MantissaText(l.intPart, l.point, l.fracPart) + ex;
      assert t == l.intPart + ex;
      DigitRunOfDigits(l.intPart, ex);
      assert t[..|l.intPart|] == l.intPart;
      assert t[|l.intPart|..] == ex;
    }
  }

  lemma PointedMantissaRoundTrip(i: string, f: string, ex: string)
    requires AllDigits(i) && AllDigits(f) && (i != [] || f != [])
    requires ex == [] || ex[0] == 'e' || ex[0] == 'E'
    ensures ParseMantissa(MantissaText(i, true, f) + ex) == Some(Mantissa(i, true, f, ex))
  {
    var t := MantissaText(i, true, f) + ex;
    PointedPieces(i, f, ex);
    DigitRunOfDigits(i, "." + (f + ex));
    DigitRunOfDigits(f, ex);
  }

  /** Where the pieces of a pointed mantissa sit in its text. */
  lemma PointedPieces(i: string, f: string, ex: string)
    ensures var t := MantissaText(i, true, f) + ex;
      && t == i + ("." + (f + ex)) && t[..|i|] == i && t[|i|] == '.'
      && t[|i| + 1..] == f + ex && (f + ex)[..|f|] == f && (f + ex)[|f|..] == ex
  {
    var t := MantissaText(i, true, f) + ex;
    assert t == i + ("." + (f + ex));
    assert t[|i| + 1..] == f + ex;
  }

  /** Every well-formed float literal is recognised, as itself: together
      with the contract of ParseFloat this makes ParseFloat and RenderFloat
      inverse to each other on the strings the pattern accepts. */
  lemma FloatRoundTrip(l: FloatLit)
    requires WellFormedFloat(l)
    ensures ParseFloat(RenderFloat(l)) == Some(l)
  {
    var ex := RenderExponent(l.exponent);
    var body := MantissaText(l.intPart, l.point, l.fracPart) + ex;
    assert RenderFloat(l) == SignText(l.sign) + body;
    MantissaRoundTrip(l, ex);
    assert body != [] && body[0] != '+' && body[0] != '-' by {
      if l.intPart != [] { assert body[0] == l.intPart[0]; }
      else { assert body[0] == '.'; }
    }
    SplitSignOfText(l.sign, body);
    ExponentRoundTrip(l.exponent);
  }

  function ExponentValue(e: Option<Exponent>): int
    requires e.Some? ==> WellFormedExponent(e.value)
  {
    match e
    case None => 0
    case Some(x) => SignFactor(x.sign) * DigitsValue(x.digits)
  }

  /** The number Python's `float(...)` reads from the literal, as an exact
      rational: the digits of both parts, scaled by the fraction length and
      the exponent. */
  function FloatValue(l: FloatLit): real
    requires WellFormedFloat(l)
  {
    SignFactor(l.sign) as real * (DigitsValue(l.intPart + l.fracPart) as real / Pow10Nat(|l.fracPart|) as real)
      * Pow10(ExponentValue(l.exponent))
  }

  /** Characters a float literal may contain. */
  predicate IsFloatChar(c: char) {
    IsDigit(c) || c == '+' || c == '-' || c == '.' || c == 'e' || c == 'E'
  }

  /** A float literal holds at most one decimal point, and nothing but
      digits, signs, the point and the exponent marker. */
  lemma FloatTextShape(l: FloatLit)
    requires WellFormedFloat(l)
    ensures multiset(RenderFloat(l))['.'] <= 1
    ensures forall c :: c in RenderFloat(l) ==> IsFloatChar(c)
  {
    ExponentShape(l.exponent);
    MantissaShape(l.intPart, l.point, l.fracPart);
    SignShape(l.sign);
    JoinShape(SignText(l.sign), MantissaText(l.intPart, l.point, l.fracPart), RenderExponent(l.exponent));
  }

  lemma SignShape(sg: Sign)
    ensures '.' !in SignText(sg)
    ensures forall c :: c in SignText(sg) ==> IsFloatChar(c)
  {
  }

  lemma JoinShape(a: string, m: string, e: string)
    requires '.' !in a && '.' !in e && multiset(m)['.'] <= 1
    requires forall c :: c in a ==> IsFloatChar(c)
    requires forall c :: c in m ==> IsFloatChar(c)
    requires forall c :: c in e ==> IsFloatChar(c)
    ensures multiset(a + (m + e))['.'] <= 1
    ensures forall c :: c in a + (m + e) ==> IsFloatChar(c)
  {
    assert multiset(a + (m + e)) == multiset(a) + (multiset(m) + multiset(e));
  }

  lemma ExponentShape(e: Option<Exponent>)
    requires e.Some? ==> WellFormedExponent(e.value)
    ensures '.' !in RenderExponent(e)
    ensures forall c :: c in RenderExponent(e) ==> IsFloatChar(c)
  {
    if e.Some? {
      assert forall c :: c in e.value.digits ==> IsDigit(c);
    }
  }

  lemma MantissaShape(i: string, point: bool, f: string)
    requires AllDigits(i) && AllDigits(f)
    ensures multiset(MantissaText(i, point, f))['.'] <= 1
    ensures forall c :: c in MantissaText(i, point, f) ==> IsFloatChar(c)
  {
    assert forall c :: c in i ==> IsDigit(c);
    assert forall c :: c in f ==> IsDigit(c);
    assert multiset(MantissaText(i, point, f)) == multiset(i) + multiset(if point then "." else "") + multiset(f);
  }

  /** What the float pattern accepts has at most one decimal point and,
      apart from a final newline, only characters of a float literal. */
  lemma MatchedShape(r: string)
    requires MatchFloatPattern(r).Some?
    ensures multiset(r)['.'] <= 1
    ensures forall x :: x in r && x != '\n' ==> IsFloatChar(x)
  {
    var l := MatchFloatPattern(r).value;
    FloatTextShape(l);
    if r != RenderFloat(l) {
      NewlineShape(RenderFloat(l));
    }
  }

  lemma NewlineShape(r: string)
    requires multiset(r)['.'] <= 1
    requires forall x :: x in r ==> IsFloatChar(x)
    ensures multiset(r + "\n")['.'] <= 1
    ensures forall x :: x in r + "\n" && x != '\n' ==> IsFloatChar(x)
  {
    assert multiset(r + "\n") == multiset(r) + multiset("\n");
  }

  /** Every integer literal is also a float literal, and both readings give
      the same number. */
  lemma IntLiteralIsFloatLiteral(s: string)
    requires ParseInt(s).Some?
    ensures ParseFloat(s).Some?
    ensures FloatValue(ParseFloat(s).value) == IntValue(ParseInt(s).value) as real
  {
    var l := ParseInt(s).value;
    var f := FloatLit(l.sign, l.digits, false, "", None);
    assert RenderFloat(f) == RenderInt(l);
    FloatRoundTrip(f);
    assert l.digits + "" == l.digits;
  }

  // ------------------------------------------------------------------
  // Python's `$`, which also matches just before a final newline
  // ------------------------------------------------------------------

  /** `re.match(r"^[+-]?\d+$", s)`, returning the literal it matched. */
  function MatchIntPattern(s: string): (r: Option<IntLit>)
    ensures r.Some? ==> WellFormedInt(r.value)
    ensures r.Some? <==> ParseInt(s).Some? || (s != [] && s[|s| - 1] == '\n' && ParseInt(s[..|s| - 1]).Some?)
  {
    if ParseInt(s).Some? then ParseInt(s)
    else if s != [] && s[|s| - 1] == '\n' then ParseInt(s[..|s| - 1])
    else None
  }

  /** `re.match(PYTHON_FLOAT_REGEX, s)`, returning the literal it matched
      (`float(...)` ignores the trailing newline the `$` lets through). */
  function MatchFloatPattern(s: string): (r: Option<FloatLit>)
    ensures r.Some? ==> WellFormedFloat(r.value)
    ensures r.Some? <==> ParseFloat(s).Some? || (s != [] && s[|s| - 1] == '\n' && ParseFloat(s[..|s| - 1]).Some?)
    ensures r.Some? ==> s == RenderFloat(r.value) || s == RenderFloat(r.value) + "\n"
  {
    if ParseFloat(s).Some? then ParseFloat(s)
    else if s != [] && s[|s| - 1] == '\n' then
      assert s == s[..|s| - 1] + "\n";
      ParseFloat(s[..|s| - 1])
    else None
  }

  // ------------------------------------------------------------------
  // round(x, p)
  // ------------------------------------------------------------------

  /** The integer nearest to `y`, ties to the even neighbour. */
  function RoundHalfEven(y: real): (r: int)
    ensures -0.5 <= r as real - y <= 0.5
    ensures y == y.Floor as real ==> r == y.Floor
    ensures y - y.Floor as real == 0.5 ==> r % 2 == 0
    ensures y - y.Floor as real != 0.5 ==> -0.5 < r as real - y < 0.5
  {
    var f := y.Floor;
    var d := y - f as real;
    if d < 0.5 then f
    else if d > 0.5 then f + 1
    else if f % 2 == 0 then f else f + 1
  }

  /** `round(x, p)`: `x` rounded half-to-even at `p` decimal places
      (negative `p` rounds to tens, hundreds, ...). */
  function RoundTo(x: real, p: int): real {
    RoundAt(x, Pow10(p))
  }

  /** `x` rounded half-to-even to a multiple of `1 / q`. */
  function RoundAt(x: real, q: real): real
    requires q > 0.0
  {
    RoundHalfEven(x * q) as real / q
  }

  /** A value that already has at most `p` decimal places is not moved by
      rounding. */
  lemma RoundToExact(x: real, p: int)
    requires x * Pow10(p) == (x * Pow10(p)).Floor as real
    ensures RoundTo(x, p) == x
  {
    RoundAtExact(x, Pow10(p));
  }

  lemma RoundAtExact(x: real, q: real)
    requires q > 0.0 && x * q == (x * q).Floor as real
    ensures RoundAt(x, q) == x
  {
    QuotientOfProduct(x, q, RoundHalfEven(x * q) as real);
  }

  /** Rounding never moves a value by more than half a unit in the last
      kept place. */
  lemma RoundToBound(x: real, p: int)
    ensures -0.5 / Pow10(p) <= RoundTo(x, p) - x <= 0.5 / Pow10(p)
  {
    RoundAtBound(x, Pow10(p));
  }

  lemma RoundAtBound(x: real, q: real)
    requires q > 0.0
    ensures -0.5 / q <= RoundAt(x, q) - x <= 0.5 / q
  {
    QuotientBound(x, q, RoundHalfEven(x * q) as real);
  }

  lemma QuotientOfProduct(x: real, q: real, k: real)
    requires q > 0.0 && k == x * q
    ensures k / q == x
  {
  }

  lemma QuotientBound(x: real, q: real, k: real)
    requires q > 0.0 && -0.5 <= k - x * q <= 0.5
    ensures -0.5 / q <= k / q - x <= 0.5 / q
  {
    var d := k - x * q;
    assert k / q - x == d / q;
    assert -0.5 / q <= d / q <= 0.5 / q;
  }
}
