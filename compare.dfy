/** The row-by-row comparison: one outcome per cell of a row pair, the
    per-column validator list, and the lockstep walk over two cursors that
    collects every row pair's outcomes. */
module Compare {
  import opened Wrappers
  import opened Values
  import opened Outcomes
  import opened Validators
  import opened Engine

  // ------------------------------------------------------------------
  // One row pair
  // ------------------------------------------------------------------

  /** One column's outcome: a missing validator omits the column. */
  function CellOutcome(v: Option<Validator>, a: Value, b: Value): (r: Outcome)
    ensures r != Shorter && r != Longer
    ensures r == Omitted <==> v.None? || v.value.OmittedValidator?
  {
    match v
    case None => Omitted
    case Some(w) => Compare(w, a, b)
  }

  /** `compare_a_row(row1, row2, validator_arr)`: the paired columns take
      their validator's outcome and the unpaired rest of the longer row is
      structural, LONGER when the measured row is the longer one and
      SHORTER when the reference row is; a validator list shorter than the
      paired columns is an IndexError. */
  function RowOutcomes(row1: seq<Value>, row2: seq<Value>, arr: seq<Option<Validator>>): (r: Result<seq<Outcome>>)
    ensures r.Failure? <==> |arr| < Min(|row1|, |row2|)
    ensures r.Failure? ==> r.error == IndexError
    ensures r.Success? ==> |r.value| == Max(|row1|, |row2|)
    ensures r.Success? ==> forall c :: 0 <= c < |r.value| ==>
      ((r.value[c] == Shorter || r.value[c] == Longer) <==> c >= Min(|row1|, |row2|))
    ensures r.Success? ==> forall c :: Min(|row1|, |row2|) <= c < |r.value| ==>
      r.value[c] == if |row1| > |row2| then Longer else Shorter
  {
    var n := Min(|row1|, |row2|);
    if |arr| < n then Failure(IndexError)
    else
      Success(seq(Max(|row1|, |row2|), c requires 0 <= c < Max(|row1|, |row2|) =>
        if c < n then CellOutcome(arr[c], row1[c], row2[c])
        else if |row1| > |row2| then Longer else Shorter))
  }

  /** Each paired column takes its own validator's outcome. (Kept apart
      from the contract of `RowOutcomes`, so that reasoning about rows
      only as shapes does not unfold every strategy.) */
  lemma RowOutcomesPaired(row1: seq<Value>, row2: seq<Value>, arr: seq<Option<Validator>>, c: int)
    requires RowOutcomes(row1, row2, arr).Success? && 0 <= c < Min(|row1|, |row2|)
    ensures RowOutcomes(row1, row2, arr).value[c] == CellOutcome(arr[c], row1[c], row2[c])
  {
  }

  /** `compare_a_row` as the loop it is. */
  method CompareARow(row1: seq<Value>, row2: seq<Value>, arr: seq<Option<Validator>>) returns (res: Result<seq<Outcome>>)
    ensures res == RowOutcomes(row1, row2, arr)
  {
    var n := Min(|row1|, |row2|);
    var differences: seq<Outcome> := [];
    var c := 0;
    while c < n
      invariant 0 <= c <= n && c <= |arr|
      invariant |differences| == c
      invariant forall i :: 0 <= i < c ==> differences[i] == CellOutcome(arr[i], row1[i], row2[i])
    {
      if c >= |arr| {
        return Failure(IndexError);
      }
      differences := differences + [CellOutcome(arr[c], row1[c], row2[c])];
      c := c + 1;
    }
    if |row1| > |row2| {
      differences := differences + Repeat(Longer, |row1| - |row2|);
    } else if |row2| > |row1| {
      differences := differences + Repeat(Shorter, |row2| - |row1|);
    }
    ghost var expected := RowOutcomes(row1, row2, arr).value;
    assert |differences| == |expected|;
    assert forall i :: 0 <= i < |expected| ==> differences[i] == expected[i];
    assert differences == expected;
    return Success(differences);
  }

  /** A row against an exhausted cursor's empty row is all structure. */
  lemma AgainstEmptyRow(row: seq<Value>, arr: seq<Option<Validator>>)
    ensures RowOutcomes(row, [], arr) == Success(Repeat(Longer, |row|))
    ensures RowOutcomes([], row, arr) == Success(Repeat(Shorter, |row|))
  {
    var longer := RowOutcomes(row, [], arr).value;
    assert forall c :: 0 <= c < |row| ==> longer[c] == Longer;
    assert longer == Repeat(Longer, |row|);
    var shorter := RowOutcomes([], row, arr).value;
    assert forall c :: 0 <= c < |row| ==> shorter[c] == Shorter;
    assert shorter == Repeat(Shorter, |row|);
  }

  // ------------------------------------------------------------------
  // The validator list
  // ------------------------------------------------------------------

  /** A key of `validator_dict`: an int (bools included), a str, or any
      other hashable, which is ignored. */
  datatype Key = IntKey(i: int) | StrKey(s: string) | OtherKey

  /** The first position holding `x` under `==`, as `list.index`. */
  function FirstIndex(xs: seq<Value>, x: Value): (r: Option<nat>)
    ensures r.Some? ==> r.value < |xs| && PyEq(xs[r.value], x)
    ensures r.Some? ==> forall j :: 0 <= j < r.value ==> !PyEq(xs[j], x)
    ensures r.None? ==> forall j :: 0 <= j < |xs| ==> !PyEq(xs[j], x)
    decreases |xs|
  {
    if xs == [] then None
    else if PyEq(xs[0], x) then Some(0)
    else match FirstIndex(xs[1..], x)
      case None => None
      case Some(j) => Some(j + 1)
  }

  /** Whether applying a key to a list of length n raises IndexError. */
  predicate KeyFails(key: Key, header: seq<Value>, maxCols: int, n: nat) {
    match key
    case IntKey(i) => i < maxCols && !(-(n as int) <= i < n)
    case StrKey(s) => FirstIndex(header, StrVal(s)).Some? && FirstIndex(header, StrVal(s)).value >= n
    case OtherKey => false
  }

  /** The slot a key overwrites in a list of length n, if any: an int key
      below `max_cols` (negative ones count from the end), or the first
      header position holding a str key. */
  function Target(key: Key, header: seq<Value>, maxCols: int, n: nat): (r: Option<nat>)
    requires !KeyFails(key, header, maxCols, n)
    ensures r.Some? ==> r.value < n
  {
    match key
    case IntKey(i) =>
      if i >= maxCols then None
      else if i >= 0 then Some(i) else Some(n + i)
    case StrKey(s) => FirstIndex(header, StrVal(s))
    case OtherKey => None
  }

  /** The overrides applied in dict order. The list keeps its length; the
      first failing key stops the loop with the list as it was then. */
  function Overridden(vs: seq<Option<Validator>>, ovs: seq<(Key, Option<Validator>)>, header: seq<Value>, maxCols: int): (r: (seq<Option<Validator>>, Status))
    ensures |r.0| == |vs|
    decreases |ovs|
  {
    if ovs == [] then (vs, Done)
    else
      var (ws, st) := Overridden(vs, ovs[..|ovs| - 1], header, maxCols);
      var (key, v) := ovs[|ovs| - 1];
      if st.Raised? then (ws, st)
      else if KeyFails(key, header, maxCols, |ws|) then (ws, Raised(IndexError))
      else match Target(key, header, maxCols, |ws|)
        case None => (ws, Done)
        case Some(j) => (ws[j := v], Done)
  }

  /** The value the last override aimed at slot j wrote there, if any. */
  function LastWrite(ovs: seq<(Key, Option<Validator>)>, j: nat, header: seq<Value>, maxCols: int, n: nat): Option<Option<Validator>>
    decreases |ovs|
  {
    if ovs == [] then None
    else
      var (key, v) := ovs[|ovs| - 1];
      if !KeyFails(key, header, maxCols, n) && Target(key, header, maxCols, n) == Some(j) then Some(v)
      else LastWrite(ovs[..|ovs| - 1], j, header, maxCols, n)
  }

  /** When no override fails, each slot holds what the last override aimed
      at it wrote, or what it held before. */
  lemma {:induction false} OverriddenAt(vs: seq<Option<Validator>>, ovs: seq<(Key, Option<Validator>)>, header: seq<Value>, maxCols: int)
    requires Overridden(vs, ovs, header, maxCols).1 == Done
    ensures forall j :: 0 <= j < |vs| ==>
      Overridden(vs, ovs, header, maxCols).0[j] ==
        match LastWrite(ovs, j, header, maxCols, |vs|) case Some(v) => v case None => vs[j]
    decreases |ovs|
  {
    if ovs != [] {
      var front := ovs[..|ovs| - 1];
      OverriddenAt(vs, front, header, maxCols);
    }
  }

  /** Keys that are non-negative ints or header names never fail once the
      list covers the header. */
  lemma {:induction false} OverridesSucceed(vs: seq<Option<Validator>>, ovs: seq<(Key, Option<Validator>)>, header: seq<Value>, maxCols: int)
    requires |header| <= |vs| && maxCols <= |vs|
    requires forall k :: 0 <= k < |ovs| ==> !(ovs[k].0.IntKey? && ovs[k].0.i < 0)
    ensures Overridden(vs, ovs, header, maxCols).1 == Done
    decreases |ovs|
  {
    if ovs != [] {
      OverridesSucceed(vs, ovs[..|ovs| - 1], header, maxCols);
    }
  }

  /** The starting list: a copy of the default per column when none is
      given, else the given list padded with the default up to `max_cols`. */
  function Padded(base: seq<Option<Validator>>, maxCols: nat, d: Option<Validator>): (r: seq<Option<Validator>>)
    ensures |r| == Max(|base|, maxCols)
    ensures r[..|base|] == base
    ensures forall j :: |base| <= j < |r| ==> r[j] == d
  {
    if |base| < maxCols then base + Repeat(d, maxCols - |base|) else base
  }

  /** A Python list of validators that the caller shares. */
  class ValidatorList {
    var items: seq<Option<Validator>>

    constructor (items: seq<Option<Validator>>)
      ensures this.items == items
    {
      this.items := items;
    }
  }

  /** `calculate_validator_array(eng2, validator_arr, validator_dict,
      default_validator)`: a given list is extended and overwritten in
      place and returned; without one a new list is made. */
  method CalculateValidatorArray(eng2: Table, given: ValidatorList?, overrides: seq<(Key, Option<Validator>)>, d: Option<Validator>)
    returns (res: Result<ValidatorList>)
    requires eng2.Valid()
    modifies if given == null then {} else {given}
    ensures given != null && res.Success? ==> res.value == given
    ensures given == null && res.Success? ==> fresh(res.value)
    ensures var base := if given == null then [] else old(given.items);
      var (items, st) := Overridden(Padded(base, eng2.MaxCol(), d), overrides, eng2.GetRowValues(1), eng2.MaxCol());
      && (res.Success? <==> st == Done)
      && (res.Failure? ==> res.error == st.error && (given != null ==> given.items == items))
      && (res.Success? ==> res.value.items == items)
  {
    var maxCols := eng2.MaxCol();
    var list: ValidatorList;
    if given == null {
      list := new ValidatorList(Repeat(d, maxCols));
    } else {
      list := given;
      if |list.items| < maxCols {
        list.items := list.items + Repeat(d, maxCols - |list.items|);
      }
    }
    var header := eng2.GetRowValues(1);
    ghost var start := list.items;
    var k := 0;
    while k < |overrides|
      invariant 0 <= k <= |overrides|
      invariant list == given || (given == null && fresh(list))
      invariant |list.items| == |start|
      invariant Overridden(start, overrides[..k], header, maxCols) == (list.items, Done)
    {
      var (key, v) := overrides[k];
      assert overrides[..k + 1][..k] == overrides[..k];
      if KeyFails(key, header, maxCols, |list.items|) {
        OverriddenFailurePersists(start, overrides, k + 1, header, maxCols);
        return Failure(IndexError);
      }
      var j := Target(key, header, maxCols, |list.items|);
      if j.Some? {
        list.items := list.items[j.value := v];
      }
      k := k + 1;
    }
    assert overrides[..k] == overrides;
    return Success(list);
  }

  /** A failed override leaves the rest of the dict unapplied. */
  lemma {:induction false} OverriddenFailurePersists(vs: seq<Option<Validator>>, ovs: seq<(Key, Option<Validator>)>, n: nat, header: seq<Value>, maxCols: int)
    requires n <= |ovs|
    requires Overridden(vs, ovs[..n], header, maxCols).1.Raised?
    ensures Overridden(vs, ovs, header, maxCols) == Overridden(vs, ovs[..n], header, maxCols)
    decreases |ovs| - n
  {
    if n < |ovs| {
      assert ovs[..n + 1][..n] == ovs[..n];
      OverriddenFailurePersists(vs, ovs, n + 1, header, maxCols);
    } else {
      assert ovs[..n] == ovs;
    }
  }

  // ------------------------------------------------------------------
  // Walking two cursors
  // ------------------------------------------------------------------

  /** What `compare_next` hands on for one row pair. */
  datatype RowDiff = RowDiff(index1: int, row1: seq<Value>, index2: int, row2: seq<Value>, differences: seq<Outcome>)

  /** A cursor's state over an unchanging sheet. */
  datatype Cursor = Cursor(sheet: Sheet, current: int, maxRow: int)

  /** The k-th `next` from a cursor (counting from 0), with an exhausted
      cursor read as index -1 and an empty row. */
  function Fetch(c: Cursor, k: nat): (r: (int, seq<Value>))
    requires c.sheet.Valid()
    ensures r.0 == -1 ==> r.1 == []
  {
    if c.current + k > c.maxRow then (-1, [])
    else (c.current + k, c.sheet.Row(c.current + k))
  }

  /** Where a cursor stands after m calls of `next`. */
  function Advance(c: Cursor, m: nat): int {
    if c.current > c.maxRow then c.current else Min(c.current + m, c.maxRow + 1)
  }

  /** The row pair k and its outcomes. */
  function DiffAt(c1: Cursor, c2: Cursor, arr: seq<Option<Validator>>, k: nat): Result<RowDiff>
    requires c1.sheet.Valid() && c2.sheet.Valid()
  {
    var (i1, r1) := Fetch(c1, k);
    var (i2, r2) := Fetch(c2, k);
    match RowOutcomes(r1, r2, arr)
    case Failure(e) => Failure(e)
    case Success(ds) => Success(RowDiff(i1, r1, i2, r2, ds))
  }

  /** Row 1 is compared with `EqualValidator` in every column of the
      reference sheet. */
  function FirstRowValidators(s2: Sheet): seq<Option<Validator>> {
    Repeat(Some(EqualValidator), s2.MaxCol())
  }

  function ValidatorsFor(k: nat, first: seq<Option<Validator>>, arr: seq<Option<Validator>>): seq<Option<Validator>> {
    if k == 0 then first else arr
  }

  /** Row pair k of a walk from two cursors. */
  function Pairs(c1: Cursor, c2: Cursor, first: seq<Option<Validator>>, arr: seq<Option<Validator>>, n: nat): (r: seq<Result<RowDiff>>)
    requires c1.sheet.Valid() && c2.sheet.Valid()
    ensures |r| == n
    ensures forall k :: 0 <= k < n ==> r[k] == DiffAt(c1, c2, ValidatorsFor(k, first, arr), k)
  {
    seq(n, k requires 0 <= k < n => DiffAt(c1, c2, ValidatorsFor(k, first, arr), k))
  }

  /** The results in order, or the first failure among them. */
  function Collect<T>(rs: seq<Result<T>>): Result<seq<T>>
    decreases |rs|
  {
    if rs == [] then Success([])
    else
      var front := Collect(rs[..|rs| - 1]);
      var last := rs[|rs| - 1];
      if front.Failure? then front
      else if last.Failure? then Failure(last.error)
      else Success(front.value + [last.value])
  }

  /** How many results were looked at before the first failure, that one
      included. */
  function Consumed<T>(rs: seq<Result<T>>): (m: nat)
    ensures m <= |rs|
    decreases |rs|
  {
    if rs == [] then 0
    else if Collect(rs[..|rs| - 1]).Failure? then Consumed(rs[..|rs| - 1])
    else |rs|
  }

  /** A successful collection holds every result's value in order. */
  lemma {:induction false} CollectAt<T>(rs: seq<Result<T>>)
    requires Collect(rs).Success?
    ensures |Collect(rs).value| == |rs|
    ensures forall k :: 0 <= k < |rs| ==> rs[k] == Success(Collect(rs).value[k])
    decreases |rs|
  {
    if rs != [] {
      var front := rs[..|rs| - 1];
      CollectAt(front);
      var all := Collect(rs).value;
      forall k | 0 <= k < |rs|
        ensures rs[k] == Success(all[k])
      {
        if k < |rs| - 1 {
          assert rs[k] == front[k];
        }
      }
    }
  }

  /** A collection fails exactly when some result is a failure, and then
      with the first failure's error after reading up to it. */
  lemma {:induction false} CollectFails<T>(rs: seq<Result<T>>)
    ensures Collect(rs).Failure? <==> exists k :: 0 <= k < |rs| && rs[k].Failure?
    ensures Collect(rs).Failure? ==> Consumed(rs) >= 1 && rs[Consumed(rs) - 1] == Failure(Collect(rs).error)
    ensures Collect(rs).Failure? ==> forall k :: 0 <= k < Consumed(rs) - 1 ==> rs[k].Success?
    ensures Collect(rs).Success? ==> Consumed(rs) == |rs|
    decreases |rs|
  {
    if rs != [] {
      var front := rs[..|rs| - 1];
      CollectFails(front);
      assert forall k :: 0 <= k < |front| ==> rs[k] == front[k];
      if Collect(rs).Failure? && Collect(front).Success? {
        CollectAt(front);
      }
    }
  }

  /** Collecting one more result. */
  lemma CollectStep<T>(rs: seq<Result<T>>, k: nat)
    requires k < |rs|
    ensures Collect(rs[..k + 1]) == match Collect(rs[..k])
      case Failure(e) => Failure(e)
      case Success(vs) => if rs[k].Failure? then Failure(rs[k].error) else Success(vs + [rs[k].value])
  {
    assert rs[..k + 1][..k] == rs[..k];
  }

  /** Once a prefix has failed, the whole fails the same way and reads no
      further. */
  lemma {:induction false} CollectFailurePersists<T>(rs: seq<Result<T>>, m: nat)
    requires m <= |rs|
    requires Collect(rs[..m]).Failure?
    ensures Collect(rs) == Collect(rs[..m])
    ensures Consumed(rs) == Consumed(rs[..m])
    decreases |rs| - m
  {
    if m < |rs| {
      assert rs[..m + 1][..m] == rs[..m];
      CollectFailurePersists(rs, m + 1);
    } else {
      assert rs[..m] == rs;
    }
  }

  /** The first n row pairs, or the first failure among them. */
  function Bulk(c1: Cursor, c2: Cursor, first: seq<Option<Validator>>, arr: seq<Option<Validator>>, n: nat): Result<seq<RowDiff>>
    requires c1.sheet.Valid() && c2.sheet.Valid()
  {
    Collect(Pairs(c1, c2, first, arr, n))
  }

  /** How many row pairs were read before the walk ended or failed. */
  function Processed(c1: Cursor, c2: Cursor, first: seq<Option<Validator>>, arr: seq<Option<Validator>>, n: nat): nat
    requires c1.sheet.Valid() && c2.sheet.Valid()
  {
    Consumed(Pairs(c1, c2, first, arr, n))
  }

  /** The number of row pairs: both cursors' row counts, at least one. */
  function RowCount(max1: int, max2: int): nat {
    Max(1, Max(max1, max2))
  }

  /** A successful walk lists every row pair in order: entry k holds the
      k-th rows of both cursors and their outcomes under the row-1
      validators for k = 0 and the given ones after. */
  lemma BulkAt(c1: Cursor, c2: Cursor, first: seq<Option<Validator>>, arr: seq<Option<Validator>>, n: nat)
    requires c1.sheet.Valid() && c2.sheet.Valid()
    requires Bulk(c1, c2, first, arr, n).Success?
    ensures |Bulk(c1, c2, first, arr, n).value| == n
    ensures forall k :: 0 <= k < n ==>
      DiffAt(c1, c2, ValidatorsFor(k, first, arr), k) == Success(Bulk(c1, c2, first, arr, n).value[k])
  {
    CollectAt(Pairs(c1, c2, first, arr, n));
  }

  /** The walk fails exactly when some row pair fails, with the error of
      the first failing pair. */
  lemma BulkFails(c1: Cursor, c2: Cursor, first: seq<Option<Validator>>, arr: seq<Option<Validator>>, n: nat)
    requires c1.sheet.Valid() && c2.sheet.Valid()
    ensures Bulk(c1, c2, first, arr, n).Failure? <==>
      exists k :: 0 <= k < n && Pairs(c1, c2, first, arr, n)[k].Failure?
    ensures Bulk(c1, c2, first, arr, n).Failure? ==>
      var m := Processed(c1, c2, first, arr, n);
      1 <= m <= n && Pairs(c1, c2, first, arr, n)[m - 1] == Failure(Bulk(c1, c2, first, arr, n).error)
  {
    var rs := Pairs(c1, c2, first, arr, n);
    assert Bulk(c1, c2, first, arr, n) == Collect(rs);
    assert Processed(c1, c2, first, arr, n) == Consumed(rs);
    CollectFails(rs);
  }

  function CursorOf(e: RowEnumerator): Cursor
    reads e, e.engine
  {
    Cursor(e.engine.sheet, e.current, e.maxRow)
  }

  /** `compare_next` without a consumer: one `next` from each cursor and
      the outcomes of the pair. */
  method CompareNext(enum1: RowEnumerator, enum2: RowEnumerator, arr: seq<Option<Validator>>) returns (res: Result<RowDiff>)
    requires enum1 != enum2
    requires enum1.engine.Valid() && enum2.engine.Valid()
    modifies enum1, enum2
    ensures res == DiffAt(old(CursorOf(enum1)), old(CursorOf(enum2)), arr, 0)
    ensures enum1.current == Advance(old(CursorOf(enum1)), 1) && enum1.maxRow == old(enum1.maxRow)
    ensures enum2.current == Advance(old(CursorOf(enum2)), 1) && enum2.maxRow == old(enum2.maxRow)
  {
    var n1 := enum1.Next();
    var index1, row1 := -1, [];
    if n1.Some? {
      index1, row1 := n1.value.0, n1.value.1;
    }
    var n2 := enum2.Next();
    var index2, row2 := -1, [];
    if n2.Some? {
      index2, row2 := n2.value.0, n2.value.1;
    }
    var differences := CompareARow(row1, row2, arr);
    if differences.Failure? {
      return Failure(differences.error);
    }
    return Success(RowDiff(index1, row1, index2, row2, differences.value));
  }

  /** `compare_sheets_by_enum` without a consumer: row 1 under
      `EqualValidator`, then rows 2 .. max_rows under `arr`, where
      max_rows is fixed from both cursors before the first row. */
  method CompareSheetsByEnum(enum1: RowEnumerator, enum2: RowEnumerator, arr: seq<Option<Validator>>)
    returns (res: Result<seq<RowDiff>>)
    requires enum1 != enum2
    requires enum1.engine.Valid() && enum2.engine.Valid()
    modifies enum1, enum2
    ensures var c1, c2 := old(CursorOf(enum1)), old(CursorOf(enum2));
      var first, n := FirstRowValidators(c2.sheet), RowCount(c1.maxRow, c2.maxRow);
      && res == Bulk(c1, c2, first, arr, n)
      && enum1.current == Advance(c1, Processed(c1, c2, first, arr, n))
      && enum2.current == Advance(c2, Processed(c1, c2, first, arr, n))
      && enum1.maxRow == c1.maxRow && enum2.maxRow == c2.maxRow
  {
    ghost var c1, c2 := CursorOf(enum1), CursorOf(enum2);
    var n := RowCount(enum1.GetMaxRow(), enum2.GetMaxRow());
    var first := FirstRowValidators(enum2.engine.sheet);
    ghost var rs := Pairs(c1, c2, first, arr, n);
    var all: seq<RowDiff> := [];
    var k := 0;
    while k < n
      invariant 0 <= k <= n
      invariant Collect(rs[..k]) == Success(all)
      invariant CursorOf(enum1) == Cursor(c1.sheet, Advance(c1, k), c1.maxRow)
      invariant CursorOf(enum2) == Cursor(c2.sheet, Advance(c2, k), c2.maxRow)
    {
      var v := if k == 0 then first else arr;
      var d := CollectNext(enum1, enum2, v, c1, c2, first, arr, rs, k, all);
      if d.Failure? {
        return Failure(d.error);
      }
      all := all + [d.value];
      k := k + 1;
    }
    assert rs[..k] == rs;
    CollectFails(rs);
    assert Collect(rs) == Success(all) && Consumed(rs) == n;
    return Success(all);
  }

  /** Step k of the walk: row pair k joins the collection, or its failure
      ends the walk. */
  method CollectNext(enum1: RowEnumerator, enum2: RowEnumerator, v: seq<Option<Validator>>,
                     ghost c1: Cursor, ghost c2: Cursor, ghost first: seq<Option<Validator>>, ghost arr: seq<Option<Validator>>,
                     ghost rs: seq<Result<RowDiff>>, ghost k: nat, ghost all: seq<RowDiff>)
    returns (d: Result<RowDiff>)
    requires enum1 != enum2
    requires enum1.engine.Valid() && enum2.engine.Valid()
    requires c1.sheet.Valid() && c2.sheet.Valid()
    requires rs == Pairs(c1, c2, first, arr, |rs|) && k < |rs| && v == ValidatorsFor(k, first, arr)
    requires Collect(rs[..k]) == Success(all)
    requires CursorOf(enum1) == Cursor(c1.sheet, Advance(c1, k), c1.maxRow)
    requires CursorOf(enum2) == Cursor(c2.sheet, Advance(c2, k), c2.maxRow)
    modifies enum1, enum2
    ensures CursorOf(enum1) == Cursor(c1.sheet, Advance(c1, k + 1), c1.maxRow)
    ensures CursorOf(enum2) == Cursor(c2.sheet, Advance(c2, k + 1), c2.maxRow)
    ensures d.Success? ==> Collect(rs[..k + 1]) == Success(all + [d.value])
    ensures d.Failure? ==> Collect(rs) == Failure(d.error) && Consumed(rs) == k + 1
  {
    d := PairAt(enum1, enum2, v, c1, c2, k);
    assert d == rs[k];
    CollectStep(rs, k);
    if d.Failure? {
      assert rs[..k + 1][..k] == rs[..k];
      assert Consumed(rs[..k + 1]) == k + 1;
      CollectFailurePersists(rs, k + 1);
    }
  }

  /** `compare_next` after k calls: row pair k of the walk. */
  method PairAt(enum1: RowEnumerator, enum2: RowEnumerator, v: seq<Option<Validator>>, ghost c1: Cursor, ghost c2: Cursor, ghost k: nat)
    returns (d: Result<RowDiff>)
    requires enum1 != enum2
    requires enum1.engine.Valid() && enum2.engine.Valid()
    requires CursorOf(enum1) == Cursor(c1.sheet, Advance(c1, k), c1.maxRow)
    requires CursorOf(enum2) == Cursor(c2.sheet, Advance(c2, k), c2.maxRow)
    modifies enum1, enum2
    ensures d == DiffAt(c1, c2, v, k)
    ensures CursorOf(enum1) == Cursor(c1.sheet, Advance(c1, k + 1), c1.maxRow)
    ensures CursorOf(enum2) == Cursor(c2.sheet, Advance(c2, k + 1), c2.maxRow)
  {
    d := CompareNext(enum1, enum2, v);
    DiffAtShift(c1, c2, v, k);
  }

  /** After k calls a cursor reads what its k-th call reads from the
      start, and one more call moves it on by one. */
  lemma AdvanceFetch(c: Cursor, k: nat)
    requires c.sheet.Valid()
    ensures Fetch(Cursor(c.sheet, Advance(c, k), c.maxRow), 0) == Fetch(c, k)
    ensures Advance(Cursor(c.sheet, Advance(c, k), c.maxRow), 1) == Advance(c, k + 1)
  {
  }

  /** Row pair k of the walk is the first pair read by cursors that have
      already made k calls. */
  lemma DiffAtShift(c1: Cursor, c2: Cursor, v: seq<Option<Validator>>, k: nat)
    requires c1.sheet.Valid() && c2.sheet.Valid()
    ensures DiffAt(Cursor(c1.sheet, Advance(c1, k), c1.maxRow), Cursor(c2.sheet, Advance(c2, k), c2.maxRow), v, 0)
      == DiffAt(c1, c2, v, k)
    ensures Advance(Cursor(c1.sheet, Advance(c1, k), c1.maxRow), 1) == Advance(c1, k + 1)
    ensures Advance(Cursor(c2.sheet, Advance(c2, k), c2.maxRow), 1) == Advance(c2, k + 1)
  {
    AdvanceFetch(c1, k);
    AdvanceFetch(c2, k);
  }

  /** `compare_sheets_by_ws` without a consumer: the validator list, two
      fresh cursors from row 1, and the walk. */
  method CompareSheetsByWs(eng1: Table, eng2: Table, given: ValidatorList?, overrides: seq<(Key, Option<Validator>)>, d: Option<Validator>)
    returns (res: Result<seq<RowDiff>>)
    requires eng1.Valid() && eng2.Valid() && eng1.Nonempty() && eng2.Nonempty()
    modifies if given == null then {} else {given}
    ensures var base := if given == null then [] else old(given.items);
      var (items, st) := Overridden(Padded(base, eng2.MaxCol(), d), overrides, eng2.GetRowValues(1), eng2.MaxCol());
      var c1, c2 := Cursor(eng1.sheet, 1, eng1.MaxRow()), Cursor(eng2.sheet, 1, eng2.MaxRow());
      res == if st.Raised? then Failure(st.error)
             else Bulk(c1, c2, FirstRowValidators(eng2.sheet), items, RowCount(eng1.MaxRow(), eng2.MaxRow()))
  {
    var arr := CalculateValidatorArray(eng2, given, overrides, d);
    if arr.Failure? {
      return Failure(arr.error);
    }
    var enum1 := new RowEnumerator(eng1, 1);
    var enum2 := new RowEnumerator(eng2, 1);
    res := CompareSheetsByEnum(enum1, enum2, arr.value.items);
  }
}
