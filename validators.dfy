/** The `TableValidator` strategies: each maps a pair of cell values
    (reference first, measured second) to one `ComparisonResult`. They
    never raise; every failure inside a strategy becomes CORRUPTED. */
module Validators {
  import opened Wrappers
  import opened Values
  import opened Text
  import opened Literals
  import opened IsoDates
  import opened Normalizers
  import opened Outcomes

  /** A strategy with its constructor parameters. */
  datatype Validator =
    | EqualValidator
    | BoolValidator
    | DateValidator(precision: string)
    | OmittedValidator
    | IgnoreValidator
    | IntValidator
    | NumberValidator(floatPrecision: int)
    | TolerantFloatValidator(deltaUp: real, deltaDown: real, floatPrecision: int)
    | ExcelValueValidator

  /** The defaults of the constructors' keyword parameters. */
  const DefaultPrecision: string := "day"
  const DefaultFloatPrecision: int := 10

  // ------------------------------------------------------------------
  // The simple strategies
  // ------------------------------------------------------------------

  /** `EqualValidator.compare`: plain `==`. */
  function CompareEqual(a: Value, b: Value): (r: Outcome)
    ensures r == Equals <==> PyEq(a, b)
    ensures r == Different <==> !PyEq(a, b)
  {
    if PyEq(a, b) then Equals else Different
  }

  // `OmittedValidator.compare` is the constant OMITTED and
  // `IgnoreValidator.compare` the constant MATCHING; `Compare` below
  // returns them directly.

  // ------------------------------------------------------------------
  // BoolValidator
  // ------------------------------------------------------------------

  /** Equal values have the same truth value. */
  lemma PyEqSameTruth(a: Value, b: Value)
    requires PyEq(a, b)
    ensures NormalizeBool(a) == NormalizeBool(b)
  {
  }

  /** `BoolValidator.compare`: both sides are normalised first, so an
      unrecognised value on either side is CORRUPTED even when the two
      are identical; then raw `==` gives EQUALS, the same truth value
      MATCHING, and different truth values DIFFERENT. */
  function CompareBool(a: Value, b: Value): (r: Outcome)
    ensures r == Corrupted <==> NormalizeBool(a).None? || NormalizeBool(b).None?
    ensures r == Equals <==> NormalizeBool(a).Some? && NormalizeBool(b).Some? && PyEq(a, b)
    ensures r == Matching <==> NormalizeBool(a).Some? && NormalizeBool(a) == NormalizeBool(b) && !PyEq(a, b)
    ensures r == Different <==> NormalizeBool(a).Some? && NormalizeBool(b).Some? && NormalizeBool(a) != NormalizeBool(b)
  {
    match (NormalizeBool(a), NormalizeBool(b))
    case (Some(b1), Some(b2)) =>
      if PyEq(a, b) then
        PyEqSameTruth(a, b);
        Equals
      else if b1 == b2 then Matching
      else Different
    case _ => Corrupted
  }

  // ------------------------------------------------------------------
  // DateValidator
  // ------------------------------------------------------------------

  /** `DateValidator.compare`: both sides are normalised (a datetime, or
      an ISO string); equal date-times give EQUALS when the raw values are
      equal and MATCHING otherwise; unequal ones give ALMOST when they
      agree after truncation at the precision and DIFFERENT when not. An
      unreadable side, or an unknown precision met on unequal date-times,
      gives CORRUPTED. */
  function CompareDate(precision: string, a: Value, b: Value): (r: Outcome)
    ensures r == Corrupted <==>
      NormalizeDate(a).None? || NormalizeDate(b).None?
      || (NormalizeDate(a) != NormalizeDate(b) && PrecisionOf(precision).None?)
    ensures r == Equals <==> NormalizeDate(a).Some? && NormalizeDate(a) == NormalizeDate(b) && PyEq(a, b)
    ensures r == Matching <==> NormalizeDate(a).Some? && NormalizeDate(a) == NormalizeDate(b) && !PyEq(a, b)
    ensures r == Almost <==>
      NormalizeDate(a).Some? && NormalizeDate(b).Some? && NormalizeDate(a) != NormalizeDate(b)
      && PrecisionOf(precision).Some?
      && Truncate(NormalizeDate(a).value, PrecisionOf(precision).value)
         == Truncate(NormalizeDate(b).value, PrecisionOf(precision).value)
    ensures r in {Equals, Matching, Almost, Different, Corrupted}
  {
    match (NormalizeDate(a), NormalizeDate(b))
    case (Some(d1), Some(d2)) =>
      if d1 == d2 then (if PyEq(a, b) then Equals else Matching)
      else
        (match PrecisionOf(precision)
         case Some(p) => if Truncate(d1, p) == Truncate(d2, p) then Almost else Different
         case None => Corrupted)
    case _ => Corrupted
  }

  /** A coarser precision accepts at least what a finer one accepts. */
  lemma DatePrecisionMonotone(fine: string, coarse: string, a: Value, b: Value)
    requires PrecisionOf(fine).Some? && PrecisionOf(coarse).Some?
    requires Rank(PrecisionOf(coarse).value) <= Rank(PrecisionOf(fine).value)
    ensures Ok(CompareDate(fine, a, b)) ==> Ok(CompareDate(coarse, a, b))
  {
    if NormalizeDate(a).Some? && NormalizeDate(b).Some? {
      TruncateCoarsens(NormalizeDate(a).value, NormalizeDate(b).value,
                       PrecisionOf(fine).value, PrecisionOf(coarse).value);
    }
  }

  // ------------------------------------------------------------------
  // IntValidator and NumberValidator
  // ------------------------------------------------------------------

  /** Raw `==` together with `type(a) == type(b)`. */
  predicate Identical(a: Value, b: Value) {
    PyEq(a, b) && SameType(a, b)
  }

  /** `IntValidator.compare`: identical values give EQUALS; two int-like
      values give MATCHING when they are the same integer and DIFFERENT
      otherwise; anything else is CORRUPTED. */
  function CompareInt(a: Value, b: Value): (r: Outcome)
    ensures r == Equals <==> Identical(a, b)
    ensures r == Corrupted <==> !Identical(a, b) && (IsIntThenNormalize(a).None? || IsIntThenNormalize(b).None?)
    ensures r == Matching <==>
      !Identical(a, b) && IsIntThenNormalize(a).Some? && IsIntThenNormalize(b).Some?
      && NumValue(IsIntThenNormalize(a).value) == NumValue(IsIntThenNormalize(b).value)
    ensures r in {Equals, Matching, Different, Corrupted}
  {
    if Identical(a, b) then Equals
    else
      match (IsIntThenNormalize(a), IsIntThenNormalize(b))
      case (Some(n1), Some(n2)) => if PyEq(n1, n2) then Matching else Different
      case _ => Corrupted
  }

  /** The float reading of both sides, when both have one. */
  predicate BothFloatLike(a: Value, b: Value) {
    IsFloatThenNormalize(a).Some? && IsFloatThenNormalize(b).Some?
  }

  /** `NumberValidator.compare`: as `IntValidator` while both sides are
      int-like; otherwise both float readings are compared: equal gives
      MATCHING, equal after `round(x, float_precision)` gives ALMOST,
      else DIFFERENT. A side with no number is CORRUPTED. */
  function CompareNumber(p: int, a: Value, b: Value): (r: Outcome)
    ensures IsIntThenNormalize(a).Some? && IsIntThenNormalize(b).Some? ==> r == CompareInt(a, b)
    ensures r == Equals <==> Identical(a, b)
    ensures r == Corrupted <==> !Identical(a, b) && !BothFloatLike(a, b)
    ensures !Identical(a, b) && !(IsIntThenNormalize(a).Some? && IsIntThenNormalize(b).Some?) && BothFloatLike(a, b) ==>
      r == CompareReadings(p, IsFloatThenNormalize(a).value, IsFloatThenNormalize(b).value)
    ensures r in {Equals, Matching, Almost, Different, Corrupted}
  {
    if Identical(a, b) then Equals
    else
      match (IsIntThenNormalize(a), IsIntThenNormalize(b))
      case (Some(n1), Some(n2)) =>
        IntLikeIsFloatLike(a);
        IntLikeIsFloatLike(b);
        if PyEq(n1, n2) then Matching else Different
      case _ =>
        match (IsFloatThenNormalize(a), IsFloatThenNormalize(b))
        case (Some(x), Some(y)) => CompareReadings(p, x, y)
        case _ => Corrupted
  }

  /** Two float readings: equal gives MATCHING, equal after
      `round(x, float_precision)` gives ALMOST, else DIFFERENT. */
  function CompareReadings(p: int, x: real, y: real): (r: Outcome)
    ensures r == Matching <==> x == y
    ensures r == Almost <==> x != y && RoundTo(x, p) == RoundTo(y, p)
    ensures r in {Matching, Almost, Different}
  {
    if x == y then Matching
    else if RoundTo(x, p) == RoundTo(y, p) then Almost
    else Different
  }

  /** What a number comparison means for two numbers: EQUALS or MATCHING
      exactly when they are the same number, ALMOST only for different
      numbers that round alike (always so unless both are int-like), and
      never ALMOST for two int-like values. */
  lemma NumberOutcomeMeaning(p: int, a: Value, b: Value)
    requires BothFloatLike(a, b)
    ensures var x, y := IsFloatThenNormalize(a).value, IsFloatThenNormalize(b).value;
      && (CompareNumber(p, a, b) in {Equals, Matching} <==> x == y)
      && (CompareNumber(p, a, b) == Almost ==> x != y && RoundTo(x, p) == RoundTo(y, p))
      && (x != y && RoundTo(x, p) == RoundTo(y, p) && !(IsIntThenNormalize(a).Some? && IsIntThenNormalize(b).Some?)
          ==> CompareNumber(p, a, b) == Almost)
      && (CompareNumber(p, a, b) == Different ==> x != y)
    ensures IsIntThenNormalize(a).Some? && IsIntThenNormalize(b).Some? ==> CompareNumber(p, a, b) != Almost
  {
    var x, y := IsFloatThenNormalize(a).value, IsFloatThenNormalize(b).value;
    if Identical(a, b) {
      IdenticalSameNumber(a, b);
    } else if IsIntThenNormalize(a).Some? && IsIntThenNormalize(b).Some? {
      IntLikeIsFloatLike(a);
      IntLikeIsFloatLike(b);
    } else {
      assert CompareNumber(p, a, b) == CompareReadings(p, x, y);
    }
  }

  /** Identical values have the same float reading. */
  lemma IdenticalSameNumber(a: Value, b: Value)
    requires Identical(a, b)
    ensures IsFloatThenNormalize(a) == IsFloatThenNormalize(b)
  {
  }

  // ------------------------------------------------------------------
  // TolerantFloatValidator
  // ------------------------------------------------------------------

  /** `TolerantFloatValidator.compare`: the first that applies of raw `==`
      (EQUALS, whatever the types), equal float readings (MATCHING),
      equal after rounding (ALMOST), the measured value within
      `[reference - delta_down, reference + delta_up]` of the reference
      (ACCEPTED; `a` is `val1`, checked against the band around `b`),
      any other pair of numbers (DIFFERENT); a side with no number is
      CORRUPTED. */
  function CompareTolerant(up: real, down: real, p: int, a: Value, b: Value): (r: Outcome)
    ensures r == Equals <==> PyEq(a, b)
    ensures r == Corrupted <==> !PyEq(a, b) && !BothFloatLike(a, b)
    ensures r == Matching <==> !PyEq(a, b) && BothFloatLike(a, b)
                               && IsFloatThenNormalize(a) == IsFloatThenNormalize(b)
    ensures r == Almost <==>
      && BothFloatLike(a, b) && !PyEq(a, b)
      && var x, y := IsFloatThenNormalize(a).value, IsFloatThenNormalize(b).value;
         x != y && RoundTo(x, p) == RoundTo(y, p)
    ensures r == Accepted <==>
      && BothFloatLike(a, b) && !PyEq(a, b)
      && var x, y := IsFloatThenNormalize(a).value, IsFloatThenNormalize(b).value;
         x != y && RoundTo(x, p) != RoundTo(y, p) && y - down <= x <= y + up
    ensures r == Different <==>
      && BothFloatLike(a, b) && !PyEq(a, b)
      && var x, y := IsFloatThenNormalize(a).value, IsFloatThenNormalize(b).value;
         x != y && RoundTo(x, p) != RoundTo(y, p) && !(y - down <= x <= y + up)
    ensures r in {Equals, Matching, Almost, Accepted, Different, Corrupted}
  {
    if PyEq(a, b) then Equals
    else
      match (IsFloatThenNormalize(a), IsFloatThenNormalize(b))
      case (Some(x), Some(y)) =>
        if x == y then Matching
        else if RoundTo(x, p) == RoundTo(y, p) then Almost
        else if y - down <= x <= y + up then Accepted
        else Different
      case _ => Corrupted
  }

  /** A measured number inside the tolerance band is always acceptable. */
  lemma TolerantBandIsOk(up: real, down: real, p: int, a: Value, b: Value)
    requires BothFloatLike(a, b)
    requires IsFloatThenNormalize(b).value - down <= IsFloatThenNormalize(a).value <= IsFloatThenNormalize(b).value + up
    ensures Ok(CompareTolerant(up, down, p, a, b))
  {
  }

  // ------------------------------------------------------------------
  // ExcelValueValidator
  // ------------------------------------------------------------------

  /** `ExcelValueValidator.compare`: raw `==` gives EQUALS and a None
      side DIFFERENT; then, in this order, two date-like values go to a
      day-precision `DateValidator`, two number-like values to a
      `NumberValidator` of precision 10, both on their normalised forms,
      and two bool-like values to a `BoolValidator` on the raw values;
      anything else is DIFFERENT. */
  function CompareExcelValue(a: Value, b: Value): (r: Outcome)
    ensures PyEq(a, b) ==> r == Equals
    ensures !PyEq(a, b) && (a.NoneVal? || b.NoneVal?) ==> r == Different
    ensures IsDateThenNormalize(a).Some? && IsDateThenNormalize(b).Some? && !PyEq(a, b) && !a.NoneVal? && !b.NoneVal? ==>
      r == CompareDate(DefaultPrecision, DateTimeVal(IsDateThenNormalize(a).value), DateTimeVal(IsDateThenNormalize(b).value))
    ensures PastDates(a, b) && IsNumberThenNormalize(a).Some? && IsNumberThenNormalize(b).Some? ==>
      r == CompareNumber(DefaultFloatPrecision, IsNumberThenNormalize(a).value, IsNumberThenNormalize(b).value)
    ensures PastNumbers(a, b) && IsBoolLike(a) && IsBoolLike(b) ==> r == CompareBool(a, b)
    ensures PastNumbers(a, b) && !(IsBoolLike(a) && IsBoolLike(b)) ==> r == Different
    ensures r in {Equals, Matching, Almost, Different}
  {
    if PyEq(a, b) then Equals
    else if a.NoneVal? || b.NoneVal? then Different
    else
      match (IsDateThenNormalize(a), IsDateThenNormalize(b))
      case (Some(d1), Some(d2)) =>
        assert PrecisionOf(DefaultPrecision).Some?;
        CompareDate(DefaultPrecision, DateTimeVal(d1), DateTimeVal(d2))
      case _ =>
        match (IsNumberThenNormalize(a), IsNumberThenNormalize(b))
        case (Some(n1), Some(n2)) =>
          NumberOfNormalized(n1);
          NumberOfNormalized(n2);
          CompareNumber(DefaultFloatPrecision, n1, n2)
        case _ =>
          if IsBoolLike(a) && IsBoolLike(b) then
            BoolLikeNormalizes(a);
            BoolLikeNormalizes(b);
            CompareBool(a, b)
          else Different
  }

  /** The pair reaches the number test of `ExcelValueValidator`: not
      equal, neither None, and not both date-like. */
  predicate PastDates(a: Value, b: Value) {
    && !PyEq(a, b) && !a.NoneVal? && !b.NoneVal?
    && !(IsDateThenNormalize(a).Some? && IsDateThenNormalize(b).Some?)
  }

  /** The pair reaches the boolean test: past the dates, and not both
      number-like. */
  predicate PastNumbers(a: Value, b: Value) {
    PastDates(a, b) && !(IsNumberThenNormalize(a).Some? && IsNumberThenNormalize(b).Some?)
  }

  /** A normalised number is its own float reading, so the number path of
      `ExcelValueValidator` is never CORRUPTED. */
  lemma NumberOfNormalized(n: Value)
    requires IsNumeric(n)
    ensures IsFloatThenNormalize(n) == Some(NumValue(n))
  {
  }

  /** A format-only difference is no difference: a string holding an
      integer literal and the int it writes compare EQUALS (not MATCHING),
      because the number path receives the normalised values. */
  lemma FormatOnlyDifference(s: string)
    requires MatchIntPattern(Strip(s)).Some?
    ensures CompareExcelValue(StrVal(s), IntVal(IntValue(MatchIntPattern(Strip(s)).value))) == Equals
  {
    var n := IntVal(IntValue(MatchIntPattern(Strip(s)).value));
    IntTextReadsAsInt(s);
    assert IsNumberThenNormalize(n) == Some(n) && IsDateThenNormalize(n).None?;
    assert CompareExcelValue(StrVal(s), n) == CompareNumber(DefaultFloatPrecision, n, n);
  }

  /** A bool keeps its type through the number path: a bool against a
      text holding the integer it equals (True against "1") is MATCHING,
      never EQUALS, because the types differ. */
  lemma BoolAgainstIntText(b: bool, s: string)
    requires MatchIntPattern(Strip(s)).Some?
    requires IntValue(MatchIntPattern(Strip(s)).value) == (if b then 1 else 0)
    ensures CompareExcelValue(BoolVal(b), StrVal(s)) == Matching
  {
    IntTextReadsAsInt(s);
    assert IsNumberThenNormalize(BoolVal(b)) == Some(BoolVal(b));
    assert PastDates(BoolVal(b), StrVal(s));
    BoolAgainstEqualInt(b, IntValue(MatchIntPattern(Strip(s)).value));
  }

  /** The number validator on a bool and the int it equals. */
  lemma BoolAgainstEqualInt(b: bool, n: int)
    requires n == if b then 1 else 0
    ensures CompareNumber(DefaultFloatPrecision, BoolVal(b), IntVal(n)) == Matching
  {
    assert !Identical(BoolVal(b), IntVal(n));
  }

  /** A string holding an integer literal reads as the int it writes. */
  lemma IntTextReadsAsInt(s: string)
    requires MatchIntPattern(Strip(s)).Some?
    ensures IsNumberThenNormalize(StrVal(s)) == Some(IntVal(IntValue(MatchIntPattern(Strip(s)).value)))
  {
  }

  // ------------------------------------------------------------------
  // Dispatch
  // ------------------------------------------------------------------

  /** `validator.compare(val1, val2)`. Strategies never report a row
      shape (SHORTER or LONGER), and OMITTED comes from the omitting
      strategy alone. */
  function Compare(v: Validator, a: Value, b: Value): (r: Outcome)
    ensures r != Shorter && r != Longer
    ensures r == Omitted <==> v.OmittedValidator?
    ensures v.IgnoreValidator? ==> r == Matching
    ensures v.EqualValidator? ==> r == CompareEqual(a, b)
    ensures v.BoolValidator? ==> r == CompareBool(a, b)
    ensures v.DateValidator? ==> r == CompareDate(v.precision, a, b)
    ensures v.IntValidator? ==> r == CompareInt(a, b)
    ensures v.NumberValidator? ==> r == CompareNumber(v.floatPrecision, a, b)
    ensures v.TolerantFloatValidator? ==> r == CompareTolerant(v.deltaUp, v.deltaDown, v.floatPrecision, a, b)
    ensures v.ExcelValueValidator? ==> r == CompareExcelValue(a, b)
  {
    match v
    case EqualValidator => CompareEqual(a, b)
    case BoolValidator => CompareBool(a, b)
    case DateValidator(precision) => CompareDate(precision, a, b)
    case OmittedValidator => Omitted
    case IgnoreValidator => Matching
    case IntValidator => CompareInt(a, b)
    case NumberValidator(p) => CompareNumber(p, a, b)
    case TolerantFloatValidator(up, down, p) => CompareTolerant(up, down, p, a, b)
    case ExcelValueValidator => CompareExcelValue(a, b)
  }

  /** Every strategy but the tolerant one is symmetric in its two
      arguments. */
  lemma CompareSymmetric(v: Validator, a: Value, b: Value)
    requires !v.TolerantFloatValidator?
    ensures Compare(v, a, b) == Compare(v, b, a)
  {
    match v
    case BoolValidator => BoolSymmetric(a, b);
    case DateValidator(precision) => DateSymmetric(precision, a, b);
    case IntValidator => IntSymmetric(a, b);
    case NumberValidator(p) => NumberSymmetric(p, a, b);
    case ExcelValueValidator => ExcelValueSymmetric(a, b);
    case _ =>
  }

  lemma BoolSymmetric(a: Value, b: Value)
    ensures CompareBool(a, b) == CompareBool(b, a)
  {
  }

  lemma DateSymmetric(precision: string, a: Value, b: Value)
    ensures CompareDate(precision, a, b) == CompareDate(precision, b, a)
  {
  }

  lemma IntSymmetric(a: Value, b: Value)
    ensures CompareInt(a, b) == CompareInt(b, a)
  {
  }

  lemma NumberSymmetric(p: int, a: Value, b: Value)
    ensures CompareNumber(p, a, b) == CompareNumber(p, b, a)
  {
    if Identical(a, b) {
      assert Identical(b, a);
    } else if IsIntThenNormalize(a).Some? && IsIntThenNormalize(b).Some? {
      IntSymmetric(a, b);
    } else if BothFloatLike(a, b) {
      FloatReadingsSymmetric(p, a, b);
    } else {
      assert !Identical(b, a) && !BothFloatLike(b, a);
    }
  }

  /** The branch of NumberSymmetric that compares float readings. */
  lemma FloatReadingsSymmetric(p: int, a: Value, b: Value)
    requires !Identical(a, b) && BothFloatLike(a, b)
    requires !(IsIntThenNormalize(a).Some? && IsIntThenNormalize(b).Some?)
    ensures CompareNumber(p, a, b) == CompareNumber(p, b, a)
  {
    assert !Identical(b, a);
    var x, y := IsFloatThenNormalize(a).value, IsFloatThenNormalize(b).value;
    assert CompareNumber(p, a, b) == CompareReadings(p, x, y);
    assert CompareNumber(p, b, a) == CompareReadings(p, y, x);
    ReadingsSymmetric(p, x, y);
  }

  lemma ReadingsSymmetric(p: int, x: real, y: real)
    ensures CompareReadings(p, x, y) == CompareReadings(p, y, x)
  {
  }

  lemma ExcelValueSymmetric(a: Value, b: Value)
    ensures CompareExcelValue(a, b) == CompareExcelValue(b, a)
  {
    if PyEq(a, b) || a.NoneVal? || b.NoneVal? {
    } else if IsDateThenNormalize(a).Some? && IsDateThenNormalize(b).Some? {
      ExcelDateSymmetric(a, b);
    } else if IsNumberThenNormalize(a).Some? && IsNumberThenNormalize(b).Some? {
      ExcelNumberSymmetric(a, b);
    } else {
      ExcelBoolSymmetric(a, b);
    }
  }

  lemma ExcelDateSymmetric(a: Value, b: Value)
    requires !PyEq(a, b) && !a.NoneVal? && !b.NoneVal?
    requires IsDateThenNormalize(a).Some? && IsDateThenNormalize(b).Some?
    ensures CompareExcelValue(a, b) == CompareExcelValue(b, a)
  {
    DateSymmetric(DefaultPrecision, DateTimeVal(IsDateThenNormalize(a).value),
                  DateTimeVal(IsDateThenNormalize(b).value));
  }

  lemma ExcelNumberSymmetric(a: Value, b: Value)
    requires !PyEq(a, b) && !a.NoneVal? && !b.NoneVal?
    requires !(IsDateThenNormalize(a).Some? && IsDateThenNormalize(b).Some?)
    requires IsNumberThenNormalize(a).Some? && IsNumberThenNormalize(b).Some?
    ensures CompareExcelValue(a, b) == CompareExcelValue(b, a)
  {
    NumberSymmetric(DefaultFloatPrecision, IsNumberThenNormalize(a).value,
                    IsNumberThenNormalize(b).value);
  }

  lemma ExcelBoolSymmetric(a: Value, b: Value)
    requires !PyEq(a, b) && !a.NoneVal? && !b.NoneVal?
    requires !(IsDateThenNormalize(a).Some? && IsDateThenNormalize(b).Some?)
    requires !(IsNumberThenNormalize(a).Some? && IsNumberThenNormalize(b).Some?)
    ensures CompareExcelValue(a, b) == CompareExcelValue(b, a)
  {
    BoolSymmetric(a, b);
  }
}
