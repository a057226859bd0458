/** Cell values as Python sees them: a tagged union over the run-time types
    the validators inspect, with Python's `==` and `type(a) == type(b)`
    written out. */
module Values {

  /** A naive `datetime.date`. */
  datatype DateRec = DateRec(year: int, month: int, day: int)

  /** A naive `datetime.datetime`. */
  datatype DateTimeRec = DateTimeRec(year: int, month: int, day: int,
                                     hour: int, minute: int, second: int, micro: int)

  /** A cell value. `bool` is kept apart from `int` although Python treats it
      as a subclass of `int`: `Numeric` and `PyEq` restore that relation. */
  datatype Value =
    | NoneVal
    | BoolVal(b: bool)
    | IntVal(i: int)
    | FloatVal(x: real)
    | StrVal(s: string)
    | DateTimeVal(dt: DateTimeRec)
    | DateVal(d: DateRec)
    | OtherVal(id: nat)   // any other Python object, equal only to itself

  /** The Python run-time type of a value (what `type(v)` returns). */
  datatype PyType = NoneType | BoolType | IntType | FloatType | StrType | DateTimeType | DateType | ObjectType(id: nat)

  function TypeOf(v: Value): PyType {
    match v
    case NoneVal => NoneType
    case BoolVal(_) => BoolType
    case IntVal(_) => IntType
    case FloatVal(_) => FloatType
    case StrVal(_) => StrType
    case DateTimeVal(_) => DateTimeType
    case DateVal(_) => DateType
    case OtherVal(id) => ObjectType(id)
  }

  /** `type(a) == type(b)` */
  predicate SameType(a: Value, b: Value) {
    TypeOf(a) == TypeOf(b)
  }

  /** Values in Python's numeric tower: bool, int and float. */
  predicate IsNumeric(v: Value) {
    v.BoolVal? || v.IntVal? || v.FloatVal?
  }

  /** The number a numeric value stands for (`True` is 1, `False` is 0). */
  function NumValue(v: Value): real
    requires IsNumeric(v)
  {
    match v
    case BoolVal(b) => if b then 1.0 else 0.0
    case IntVal(i) => i as real
    case FloatVal(x) => x
  }

  /** Python's `a == b`: numbers compare by magnitude across bool, int and
      float; every other type is equal only to a value of the same type with
      the same content. A `date` never equals a `datetime`. */
  predicate PyEq(a: Value, b: Value) {
    if IsNumeric(a) || IsNumeric(b) then
      IsNumeric(a) && IsNumeric(b) && NumValue(a) == NumValue(b)
    else
      a == b
  }

  /** `==` is an equivalence on cell values, and on two values of one type it
      is structural equality except for numbers. */
  lemma PyEqIsEquivalence(a: Value, b: Value, c: Value)
    ensures PyEq(a, a)
    ensures PyEq(a, b) ==> PyEq(b, a)
    ensures PyEq(a, b) && PyEq(b, c) ==> PyEq(a, c)
    ensures PyEq(a, b) && !IsNumeric(a) ==> a == b
  {
  }

  /** `True == 1 == 1.0`, yet the three have different types. */
  lemma BoolIntFloatEqual()
    ensures PyEq(BoolVal(true), IntVal(1)) && PyEq(IntVal(1), FloatVal(1.0))
    ensures !SameType(BoolVal(true), IntVal(1)) && !SameType(IntVal(1), FloatVal(1.0))
    ensures !PyEq(DateVal(DateRec(2023, 10, 1)), DateTimeVal(DateTimeRec(2023, 10, 1, 0, 0, 0, 0)))
  {
  }
}
