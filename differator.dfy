/** The differator: a consumer that receives each row pair's outcomes,
    paints the reference row, inserts the measured row below it when the
    pair is not acceptable, and records the mismatching cells in a
    summary. */
module Differator {
  import opened Wrappers
  import opened Values
  import opened Outcomes
  import opened Validators
  import opened Engine
  import opened Registry
  import opened Summary
  import opened Compare

  // ------------------------------------------------------------------
  // One row pair
  // ------------------------------------------------------------------

  /** `row[c] if c < len(row) else None` */
  function CellOf(row: seq<Value>, c: nat): Value {
    if c < |row| then row[c] else NoneVal
  }

  /** Every outcome of the pair is acceptable. */
  predicate RowOk(ds: seq<Outcome>) {
    forall c :: 0 <= c < |ds| ==> Ok(ds[c])
  }

  /** The pair is not acceptable and there is a measured row to insert. */
  predicate Inserts(row1: seq<Value>, ds: seq<Outcome>) {
    !RowOk(ds) && row1 != []
  }

  /** The reference row's fill per column: the first colour of each outcome. */
  function RefColors(ds: seq<Outcome>): (r: seq<string>)
    ensures |r| == |ds|
    ensures forall c :: 0 <= c < |ds| ==> r[c] == CellColors(ds[c]).0
  {
    seq(|ds|, c requires 0 <= c < |ds| => CellColors(ds[c]).0)
  }

  /** The inserted row's fill per column: the second colour of each outcome. */
  function MessColors(ds: seq<Outcome>): (r: seq<string>)
    ensures |r| == |ds|
    ensures forall c :: 0 <= c < |ds| ==> r[c] == CellColors(ds[c]).1
  {
    seq(|ds|, c requires 0 <= c < |ds| => CellColors(ds[c]).1)
  }

  /** The summary entry of column c, when its outcome is a mismatch. */
  function FoulAt(r: int, row1: seq<Value>, row2: seq<Value>, c: nat, d: Outcome): seq<Added> {
    if Foul(d) then [Added(Entry(r, c + 1, CellOf(row1, c), CellOf(row2, c)), d)] else []
  }

  /** The summary entries of row pair r: one per mismatching column, in
      column order, with 1-based columns and None past a row's end. */
  function FoulAdds(r: int, row1: seq<Value>, row2: seq<Value>, ds: seq<Outcome>): seq<Added>
    decreases |ds|
  {
    if ds == [] then []
    else
      var c := |ds| - 1;
      FoulAdds(r, row1, row2, ds[..c]) + FoulAt(r, row1, row2, c, ds[c])
  }

  /** The summary receives exactly the mismatching cells of the pair, each
      once, in column order. */
  lemma FoulAddsExact(r: int, row1: seq<Value>, row2: seq<Value>, ds: seq<Outcome>)
    ensures forall x :: x in FoulAdds(r, row1, row2, ds) <==>
      exists c :: 0 <= c < |ds| && Foul(ds[c]) && x == Added(Entry(r, c + 1, CellOf(row1, c), CellOf(row2, c)), ds[c])
    ensures forall i, j :: 0 <= i < j < |FoulAdds(r, row1, row2, ds)| ==>
      FoulAdds(r, row1, row2, ds)[i].entry.col < FoulAdds(r, row1, row2, ds)[j].entry.col
    ensures forall i :: 0 <= i < |FoulAdds(r, row1, row2, ds)| ==>
      1 <= FoulAdds(r, row1, row2, ds)[i].entry.col <= |ds|
  {
    FoulAddsMembers(r, row1, row2, ds);
    FoulAddsOrdered(r, row1, row2, ds);
  }

  /** Every entry of the pair lies in one of its columns. */
  lemma {:induction false} FoulAddsColumns(r: int, row1: seq<Value>, row2: seq<Value>, ds: seq<Outcome>)
    ensures forall i :: 0 <= i < |FoulAdds(r, row1, row2, ds)| ==>
      1 <= FoulAdds(r, row1, row2, ds)[i].entry.col <= |ds|
    decreases |ds|
  {
    if ds != [] {
      var c := |ds| - 1;
      FoulAddsColumns(r, row1, row2, ds[..c]);
      var f := FoulAdds(r, row1, row2, ds[..c]);
      var a := FoulAt(r, row1, row2, c, ds[c]);
      var all := FoulAdds(r, row1, row2, ds);
      assert all == f + a;
      forall i | 0 <= i < |all|
        ensures 1 <= all[i].entry.col <= |ds|
      {
        if i < |f| { assert all[i] == f[i]; } else { assert all[i] == a[i - |f|]; }
      }
    }
  }

  /** The entries of the pair come in strictly increasing column order. */
  lemma {:induction false} FoulAddsOrdered(r: int, row1: seq<Value>, row2: seq<Value>, ds: seq<Outcome>)
    ensures forall i, j :: 0 <= i < j < |FoulAdds(r, row1, row2, ds)| ==>
      FoulAdds(r, row1, row2, ds)[i].entry.col < FoulAdds(r, row1, row2, ds)[j].entry.col
    ensures forall i :: 0 <= i < |FoulAdds(r, row1, row2, ds)| ==>
      1 <= FoulAdds(r, row1, row2, ds)[i].entry.col <= |ds|
    decreases |ds|
  {
    FoulAddsColumns(r, row1, row2, ds);
    if ds != [] {
      var c := |ds| - 1;
      FoulAddsOrdered(r, row1, row2, ds[..c]);
      var f := FoulAdds(r, row1, row2, ds[..c]);
      var a := FoulAt(r, row1, row2, c, ds[c]);
      var all := FoulAdds(r, row1, row2, ds);
      assert all == f + a;
      forall i, j | 0 <= i < j < |all|
        ensures all[i].entry.col < all[j].entry.col
      {
        assert all[i] == f[i];
        if j < |f| { assert all[j] == f[j]; } else { assert all[j] == a[0]; }
      }
    }
  }

  /** The entries of the pair are exactly its mismatching cells. */
  lemma {:induction false} FoulAddsMembers(r: int, row1: seq<Value>, row2: seq<Value>, ds: seq<Outcome>)
    ensures forall x :: x in FoulAdds(r, row1, row2, ds) <==>
      exists c :: 0 <= c < |ds| && Foul(ds[c]) && x == Added(Entry(r, c + 1, CellOf(row1, c), CellOf(row2, c)), ds[c])
    decreases |ds|
  {
    if ds != [] {
      var c := |ds| - 1;
      var front := ds[..c];
      FoulAddsMembers(r, row1, row2, front);
      var f := FoulAdds(r, row1, row2, front);
      var a := FoulAt(r, row1, row2, c, ds[c]);
      assert FoulAdds(r, row1, row2, ds) == f + a;
      forall x
        ensures x in f + a <==>
          exists k :: 0 <= k < |ds| && Foul(ds[k]) && x == Added(Entry(r, k + 1, CellOf(row1, k), CellOf(row2, k)), ds[k])
      {
        if x in f {
          var k :| 0 <= k < |front| && Foul(front[k]) && x == Added(Entry(r, k + 1, CellOf(row1, k), CellOf(row2, k)), front[k]);
          assert front[k] == ds[k];
        } else if x in a {
          assert Foul(ds[c]) && x == Added(Entry(r, c + 1, CellOf(row1, c), CellOf(row2, c)), ds[c]);
        }
        if exists k :: 0 <= k < |ds| && Foul(ds[k]) && x == Added(Entry(r, k + 1, CellOf(row1, k), CellOf(row2, k)), ds[k]) {
          var k :| 0 <= k < |ds| && Foul(ds[k]) && x == Added(Entry(r, k + 1, CellOf(row1, k), CellOf(row2, k)), ds[k]);
          if k < c {
            assert front[k] == ds[k];
            assert x in f;
          } else {
            assert x in a;
          }
        }
      }
    }
  }

  /** A measured row whose length differs from the reference row's is
      always inserted: the structural outcomes are never acceptable. */
  lemma StructuralInserts(row1: seq<Value>, row2: seq<Value>, arr: seq<Option<Validator>>)
    requires |row1| != |row2| && row1 != []
    requires RowOutcomes(row1, row2, arr).Success?
    ensures Inserts(row1, RowOutcomes(row1, row2, arr).value)
  {
    var ds := RowOutcomes(row1, row2, arr).value;
    var c := Min(|row1|, |row2|);
    OkFoulPartition(ds[c]);
  }

  /** The first half of `diff`: the reference row read by the pair (when
      there was one) is painted with the first colours. The read-only
      engine refuses the write and is left unchanged. */
  function PaintEffect(ref: Cursor, ro: bool, index2: int, ds: seq<Outcome>): (res: (Status, Cursor))
    requires ref.sheet.Valid() && ref.current >= 1
    ensures res.1.sheet.Valid() && res.1.current == ref.current && res.1.maxRow == ref.maxRow
  {
    if ro then (if index2 > 0 then Raised(NotImplementedError) else Done, ref)
    else if index2 > 0 then (Done, ref.(sheet := ref.sheet.WithFills(index2, RefColors(ds))))
    else (Done, ref)
  }

  /** The second half of `diff`: an unacceptable pair inserts the measured
      row at the cursor, painted with the second colours, and steps the
      cursor over it. The read-only engine refuses the insertion. */
  function InsertEffect(ref: Cursor, ro: bool, row1: seq<Value>, ds: seq<Outcome>): (res: (Status, Cursor))
    requires ref.sheet.Valid() && ref.current >= 1
    ensures res.1.sheet.Valid() && res.1.current >= 1
  {
    if !Inserts(row1, ds) then (Done, ref)
    else if ro then (Raised(NotImplementedError), ref)
    else
      var at := ref.current;
      (Done, Cursor(ref.sheet.WithBlankRow(at).WithValues(at, row1).WithFills(at, MessColors(ds)), at + 1, ref.maxRow + 1))
  }

  /** What `diff` does to the reference cursor and its sheet: the painting,
      then, unless it was refused, the insertion. */
  function DiffEffect(ref: Cursor, ro: bool, index2: int, row1: seq<Value>, ds: seq<Outcome>): (res: (Status, Cursor))
    requires ref.sheet.Valid() && ref.current >= 1
    ensures res.1.sheet.Valid() && res.1.current >= 1
  {
    var (st, painted) := PaintEffect(ref, ro, index2, ds);
    if st.Raised? then (st, painted) else InsertEffect(painted, ro, row1, ds)
  }

  /** The reference row read by the pair carries the first colour of each
      outcome, whether or not a row is inserted below it. */
  lemma DiffPaintsReferenceRow(ref: Cursor, index2: int, row1: seq<Value>, ds: seq<Outcome>)
    requires ref.sheet.Valid() && 1 <= index2 < ref.current
    ensures var g := DiffEffect(ref, false, index2, row1, ds).1.sheet;
      forall c :: 1 <= c <= |ds| ==> g.At(index2, c).fill == Solid(CellColors(ds[c - 1]).0)
  {
    var s1 := ref.sheet.WithFills(index2, RefColors(ds));
    FillsReadBack(ref.sheet, index2, RefColors(ds));
    if Inserts(row1, ds) {
      var at := ref.current;
      var b := s1.WithBlankRow(at);
      var v := b.WithValues(at, row1);
      forall c | 1 <= c <= |ds|
        ensures v.At(index2, c) == s1.At(index2, c)
      {
        if at <= s1.MaxRow() {
          BlankRowShifts(s1, at, index2, c);
        }
        ValuesReadBack(b, at, row1);
      }
      FillsReadBack(v, at, MessColors(ds));
    }
  }

  /** An inserted row holds the measured values (None past their end) and
      carries the second colour of each outcome. */
  lemma DiffInsertsMeasuredRow(ref: Cursor, index2: int, row1: seq<Value>, ds: seq<Outcome>)
    requires ref.sheet.Valid() && ref.current >= 1
    requires Inserts(row1, ds)
    ensures var g := DiffEffect(ref, false, index2, row1, ds).1;
      && g.current == ref.current + 1 && g.maxRow == ref.maxRow + 1
      && (forall c :: 1 <= c ==> g.sheet.CellValue(ref.current, c) == CellOf(row1, c - 1))
      && (forall c :: 1 <= c <= |ds| ==> g.sheet.At(ref.current, c).fill == Solid(CellColors(ds[c - 1]).1))
  {
    var at := ref.current;
    var s1 := if index2 > 0 then ref.sheet.WithFills(index2, RefColors(ds)) else ref.sheet;
    var v := s1.WithBlankRow(at).WithValues(at, row1);
    forall c | 1 <= c
      ensures v.CellValue(at, c) == CellOf(row1, c - 1)
    {
      InsertedRow(s1, at, row1, at, c);
    }
    FillsKeepValues(v, at, MessColors(ds));
    FillsReadBack(v, at, MessColors(ds));
  }

  // ------------------------------------------------------------------
  // The walk in consumer mode
  // ------------------------------------------------------------------

  /** Both cursors and the summary entries made so far. */
  datatype Walk = Walk(measured: Cursor, ref: Cursor, adds: seq<Added>)

  /** One step's result: both cursors, the step's summary entries and
      whether it raised. */
  datatype Moved = Moved(measured: Cursor, ref: Cursor, adds: seq<Added>, status: Status)

  ghost predicate WalkValid(w: Walk) {
    w.measured.sheet.Valid() && w.ref.sheet.Valid() && w.ref.current >= 1
  }

  /** How a row pair becomes its outcomes. The walk uses `compare_a_row`,
      `Compare.RowOutcomes`; nothing below but the consumer's methods
      depends on which comparison it is. */
  type RowComparison = (seq<Value>, seq<Value>, seq<Option<Validator>>) -> Result<seq<Outcome>>

  /** `compare_next(r, ...)` handing the pair to the consumer: one `next`
      from each cursor, the row's outcomes, then `diff`. */
  function Step(measured: Cursor, ref: Cursor, ro: bool, cmp: RowComparison, v: seq<Option<Validator>>, r: int): (res: Moved)
    requires measured.sheet.Valid() && ref.sheet.Valid() && ref.current >= 1
    ensures res.measured == measured.(current := Advance(measured, 1))
    ensures res.ref.sheet.Valid() && res.ref.current >= 1
  {
    var (i1, row1) := Fetch(measured, 0);
    var (i2, row2) := Fetch(ref, 0);
    var m := measured.(current := Advance(measured, 1));
    var next := ref.(current := Advance(ref, 1));
    match cmp(row1, row2, v)
    case Failure(e) => Moved(m, next, [], Raised(e))
    case Success(ds) =>
      var (st, ref2) := DiffEffect(next, ro, i2, row1, ds);
      Moved(m, ref2, FoulAdds(r, row1, row2, ds), st)
  }

  /** With `compare_a_row` as the comparison, a step is the row pair of
      `compare_next` followed by `diff`. */
  lemma StepOfPair(measured: Cursor, ref: Cursor, ro: bool, v: seq<Option<Validator>>, r: int)
    requires measured.sheet.Valid() && ref.sheet.Valid() && ref.current >= 1
    ensures var m := Step(measured, ref, ro, RowOutcomes, v, r);
      var next := ref.(current := Advance(ref, 1));
      && m.measured == measured.(current := Advance(measured, 1))
      && var pair := DiffAt(measured, ref, v, 0);
         if pair.Failure? then
           m.status == Raised(pair.error) && m.ref == next && m.adds == []
         else
           var d := pair.value;
           && (m.status, m.ref) == DiffEffect(next, ro, d.index2, d.row1, d.differences)
           && m.adds == FoulAdds(r, d.row1, d.row2, d.differences)
  {
  }

  /** The first n steps, stopping at the first error. */
  function Run(w0: Walk, ro: bool, cmp: RowComparison, first: seq<Option<Validator>>, arr: seq<Option<Validator>>, n: nat): (res: (Walk, Status))
    requires WalkValid(w0)
    ensures WalkValid(res.0) && res.0.measured.sheet == w0.measured.sheet
    decreases n, 2
  {
    if n == 0 then (w0, Done) else Extend(w0, ro, cmp, first, arr, n)
  }

  /** The first n >= 1 steps: the first n - 1, then, unless they raised,
      the n-th with its entries appended. */
  function Extend(w0: Walk, ro: bool, cmp: RowComparison, first: seq<Option<Validator>>, arr: seq<Option<Validator>>, n: nat): (res: (Walk, Status))
    requires WalkValid(w0) && n >= 1
    ensures WalkValid(res.0) && res.0.measured.sheet == w0.measured.sheet
    decreases n, 1
  {
    var (w, st) := Run(w0, ro, cmp, first, arr, n - 1);
    if st.Raised? then (w, st)
    else
      var m := NthStep(w0, ro, cmp, first, arr, n);
      (Walk(m.measured, m.ref, w.adds + m.adds), m.status)
  }

  /** The n-th step, taken from where the first n - 1 steps left the
      cursors, with the validators of row n. */
  function NthStep(w0: Walk, ro: bool, cmp: RowComparison, first: seq<Option<Validator>>, arr: seq<Option<Validator>>, n: nat): (res: Moved)
    requires WalkValid(w0) && n >= 1
    ensures var w := Run(w0, ro, cmp, first, arr, n - 1).0;
      && res.measured == w.measured.(current := Advance(w.measured, 1))
      && res.ref.sheet.Valid() && res.ref.current >= 1
    decreases n, 0
  {
    var w := Run(w0, ro, cmp, first, arr, n - 1).0;
    Step(w.measured, w.ref, ro, cmp, ValidatorsFor(n - 1, first, arr), n)
  }

  /** The walk one step longer, when it has not raised yet: the next step
      from where it stands, with that step's entries appended. */
  lemma RunNext(w0: Walk, ro: bool, cmp: RowComparison, first: seq<Option<Validator>>, arr: seq<Option<Validator>>,
                k: nat, w: Walk, v: seq<Option<Validator>>)
    requires WalkValid(w0) && Run(w0, ro, cmp, first, arr, k) == (w, Done)
    requires v == ValidatorsFor(k, first, arr)
    ensures WalkValid(w)
    ensures var m := Step(w.measured, w.ref, ro, cmp, v, k + 1);
      Run(w0, ro, cmp, first, arr, k + 1) == (Walk(m.measured, m.ref, w.adds + m.adds), m.status)
  {
    assert Run(w0, ro, cmp, first, arr, k + 1) == Extend(w0, ro, cmp, first, arr, k + 1);
    assert NthStep(w0, ro, cmp, first, arr, k + 1) == Step(w.measured, w.ref, ro, cmp, v, k + 1);
  }

  /** Once the walk has raised, longer walks end in the same state. */
  lemma {:induction false} RunFailurePersists(w0: Walk, ro: bool, cmp: RowComparison, first: seq<Option<Validator>>, arr: seq<Option<Validator>>, m: nat, n: nat)
    requires WalkValid(w0) && m <= n
    requires Run(w0, ro, cmp, first, arr, m).1.Raised?
    ensures Run(w0, ro, cmp, first, arr, n) == Run(w0, ro, cmp, first, arr, m)
    decreases n - m
  {
    if m < n {
      RunFailurePersists(w0, ro, cmp, first, arr, m, n - 1);
      assert Run(w0, ro, cmp, first, arr, n) == Extend(w0, ro, cmp, first, arr, n);
    }
  }

  /** A cursor over an unchanged sheet: its row count is the sheet's and it
      stands on a row or just past the last. */
  ghost predicate Untouched(c: Cursor)
    requires c.sheet.Valid()
  {
    c.maxRow == c.sheet.MaxRow() && 1 <= c.current <= c.maxRow + 1
  }

  /** The value the reference sheet holds at (r, c) while it is tracked.
      Only reads of the tracked sheet go through this name, so the
      tracking below never applies to its own right-hand side. */
  ghost function Held(s: Sheet, r: int, c: int): Value
    requires s.Valid()
  {
    s.CellValue(r, c)
  }

  /** The reference cursor `ref` has the same rows still to come as the
      untouched cursor `orig` after k steps: every row from its position on
      reads, cell by cell, as the original row at the same offset, and the
      sheet is no narrower than it was. */
  ghost predicate Tracks(orig: Cursor, k: nat, ref: Cursor)
    requires orig.sheet.Valid() && ref.sheet.Valid()
  {
    && ref.maxRow == ref.sheet.MaxRow()
    && 1 <= ref.current <= ref.maxRow + 1
    && ref.sheet.MaxCol() >= orig.sheet.MaxCol()
    && ref.maxRow - ref.current == orig.maxRow - Advance(orig, k)
    && forall r, c :: r >= ref.current ==>
         Held(ref.sheet, r, c) == orig.sheet.CellValue(r - ref.current + Advance(orig, k), c)
  }

  /** Reading the next row keeps the tracking, one step further on. */
  lemma TracksAdvance(orig: Cursor, k: nat, ref: Cursor)
    requires orig.sheet.Valid() && ref.sheet.Valid() && Untouched(orig)
    requires Tracks(orig, k, ref)
    ensures Tracks(orig, k + 1, ref.(current := Advance(ref, 1)))
  {
    AdvanceFetch(orig, k);
  }

  /** Painting a row changes no value, so the tracking survives it. */
  lemma TracksFill(orig: Cursor, k: nat, ref: Cursor, index2: int, colors: seq<string>)
    requires orig.sheet.Valid() && ref.sheet.Valid()
    requires Tracks(orig, k, ref) && 1 <= index2 < ref.current
    ensures Tracks(orig, k, ref.(sheet := ref.sheet.WithFills(index2, colors)))
  {
    FillsKeepValues(ref.sheet, index2, colors);
    var g := ref.sheet.WithFills(index2, colors);
    forall r, c | r >= ref.current
      ensures Held(g, r, c) == orig.sheet.CellValue(r - ref.current + Advance(orig, k), c)
    {
      assert Held(ref.sheet, r, c) == g.CellValue(r, c);
    }
  }

  /** Inserting a row at the cursor and stepping over it keeps the
      tracking: the rows still to come have moved one down. */
  lemma TracksInsert(orig: Cursor, k: nat, ref: Cursor, row1: seq<Value>, colors: seq<string>)
    requires orig.sheet.Valid() && ref.sheet.Valid()
    requires Tracks(orig, k, ref) && row1 != [] && colors != []
    ensures var at := ref.current;
      var g := ref.sheet.WithBlankRow(at).WithValues(at, row1).WithFills(at, colors);
      Tracks(orig, k, Cursor(g, at + 1, ref.maxRow + 1))
  {
    var at := ref.current;
    var v := ref.sheet.WithBlankRow(at).WithValues(at, row1);
    var g := v.WithFills(at, colors);
    FillsKeepValues(v, at, colors);
    forall r, c | r >= at + 1
      ensures Held(g, r, c) == orig.sheet.CellValue(r - (at + 1) + Advance(orig, k), c)
    {
      InsertedRow(ref.sheet, at, row1, r, c);
      assert Held(ref.sheet, r - 1, c) == orig.sheet.CellValue(r - 1 - at + Advance(orig, k), c);
    }
  }

  /** `diff` keeps the tracking when the row it paints has already been
      read. */
  lemma DiffTracks(orig: Cursor, k: nat, ref: Cursor, ro: bool, index2: int, row1: seq<Value>, ds: seq<Outcome>)
    requires orig.sheet.Valid() && ref.sheet.Valid() && ref.current >= 1
    requires Tracks(orig, k, ref) && index2 < ref.current
    ensures Tracks(orig, k, DiffEffect(ref, ro, index2, row1, ds).1)
  {
    if !ro {
      var s1 := if index2 > 0 then ref.sheet.WithFills(index2, RefColors(ds)) else ref.sheet;
      if index2 > 0 {
        TracksFill(orig, k, ref, index2, RefColors(ds));
      }
      if Inserts(row1, ds) {
        TracksInsert(orig, k, ref.(sheet := s1), row1, MessColors(ds));
      }
    }
  }

  /** One step keeps the tracking. */
  lemma StepTracks(orig: Cursor, k: nat, measured: Cursor, cur: Cursor, ro: bool, cmp: RowComparison, v: seq<Option<Validator>>, r: int)
    requires orig.sheet.Valid() && Untouched(orig)
    requires measured.sheet.Valid() && cur.sheet.Valid() && cur.current >= 1
    requires Tracks(orig, k, cur)
    requires Step(measured, cur, ro, cmp, v, r).status == Done
    ensures Tracks(orig, k + 1, Step(measured, cur, ro, cmp, v, r).ref)
  {
    var (i1, row1) := Fetch(measured, 0);
    var (i2, row2) := Fetch(cur, 0);
    var next := cur.(current := Advance(cur, 1));
    TracksAdvance(orig, k, cur);
    var ds := cmp(row1, row2, v).value;
    DiffTracks(orig, k + 1, next, ro, i2, row1, ds);
  }

  /** The measured cursor after k error-free steps has made k plain
      steps. */
  lemma {:induction false} RunMeasured(w0: Walk, ro: bool, cmp: RowComparison, first: seq<Option<Validator>>, arr: seq<Option<Validator>>, k: nat)
    requires WalkValid(w0)
    requires Run(w0, ro, cmp, first, arr, k).1 == Done
    ensures Run(w0, ro, cmp, first, arr, k).0.measured == w0.measured.(current := Advance(w0.measured, k))
    decreases k
  {
    if k > 0 {
      assert Run(w0, ro, cmp, first, arr, k) == Extend(w0, ro, cmp, first, arr, k);
      var w := Run(w0, ro, cmp, first, arr, k - 1).0;
      assert Run(w0, ro, cmp, first, arr, k - 1) == (w, Done);
      RunMeasured(w0, ro, cmp, first, arr, k - 1);
      RunNext(w0, ro, cmp, first, arr, k - 1, w, ValidatorsFor(k - 1, first, arr));
      AdvanceFetch(w0.measured, k - 1);
    }
  }

  /** A walk that has not raised after k >= 1 steps had not raised after
      k - 1 either. */
  lemma RunDonePrefix(w0: Walk, ro: bool, cmp: RowComparison, first: seq<Option<Validator>>, arr: seq<Option<Validator>>, k: nat)
    requires WalkValid(w0) && k >= 1
    requires Run(w0, ro, cmp, first, arr, k).1 == Done
    ensures Run(w0, ro, cmp, first, arr, k - 1).1 == Done
  {
    assert Run(w0, ro, cmp, first, arr, k) == Extend(w0, ro, cmp, first, arr, k);
  }

  /** A walk of k >= 1 steps whose first k - 1 did not raise is those
      steps followed by the k-th. */
  lemma RunExtends(w0: Walk, ro: bool, cmp: RowComparison, first: seq<Option<Validator>>, arr: seq<Option<Validator>>, k: nat)
    requires WalkValid(w0) && k >= 1
    requires Run(w0, ro, cmp, first, arr, k - 1).1 == Done
    ensures var m := NthStep(w0, ro, cmp, first, arr, k);
      Run(w0, ro, cmp, first, arr, k) == (Walk(m.measured, m.ref, Run(w0, ro, cmp, first, arr, k - 1).0.adds + m.adds), m.status)
  {
    assert Run(w0, ro, cmp, first, arr, k) == Extend(w0, ro, cmp, first, arr, k);
  }

  /** The k-th step, when it does not raise, carries the tracking from
      k - 1 to k. */
  lemma NthStepTracks(w0: Walk, ro: bool, cmp: RowComparison, first: seq<Option<Validator>>, arr: seq<Option<Validator>>, k: nat)
    requires WalkValid(w0) && Untouched(w0.ref) && k >= 1
    requires Tracks(w0.ref, k - 1, Run(w0, ro, cmp, first, arr, k - 1).0.ref)
    requires NthStep(w0, ro, cmp, first, arr, k).status == Done
    ensures Tracks(w0.ref, k, NthStep(w0, ro, cmp, first, arr, k).ref)
  {
    var w := Run(w0, ro, cmp, first, arr, k - 1).0;
    NthStepIsStep(w0, ro, cmp, first, arr, k);
    StepTracks(w0.ref, k - 1, w.measured, w.ref, ro, cmp, ValidatorsFor(k - 1, first, arr), k);
  }

  /** The k-th step is a step from where the first k - 1 left the walk. */
  lemma NthStepIsStep(w0: Walk, ro: bool, cmp: RowComparison, first: seq<Option<Validator>>, arr: seq<Option<Validator>>, k: nat)
    requires WalkValid(w0) && k >= 1
    ensures var w := Run(w0, ro, cmp, first, arr, k - 1).0;
      && WalkValid(w)
      && NthStep(w0, ro, cmp, first, arr, k) == Step(w.measured, w.ref, ro, cmp, ValidatorsFor(k - 1, first, arr), k)
  {
  }

  /** The reference cursor after k error-free steps tracks an untouched
      cursor that has made k steps. */
  lemma {:induction false} RunTracks(w0: Walk, ro: bool, cmp: RowComparison, first: seq<Option<Validator>>, arr: seq<Option<Validator>>, k: nat)
    requires WalkValid(w0) && Untouched(w0.ref)
    requires Run(w0, ro, cmp, first, arr, k).1 == Done
    ensures Tracks(w0.ref, k, Run(w0, ro, cmp, first, arr, k).0.ref)
    decreases k
  {
    if k == 0 {
      assert Advance(w0.ref, 0) == w0.ref.current;
    } else {
      RunDonePrefix(w0, ro, cmp, first, arr, k);
      RunTracks(w0, ro, cmp, first, arr, k - 1);
      RunExtends(w0, ro, cmp, first, arr, k);
      NthStepTracks(w0, ro, cmp, first, arr, k);
    }
  }

  /** Under tracking, the row the reference cursor reads next is the
      original row at that offset, extended with None to the sheet's
      present width, and it runs out exactly when the original would. */
  lemma TracksFetch(orig: Cursor, k: nat, ref: Cursor)
    requires orig.sheet.Valid() && ref.sheet.Valid() && Untouched(orig)
    requires Tracks(orig, k, ref)
    ensures (Fetch(ref, 0).0 == -1) <==> (Fetch(orig, k).0 == -1)
    ensures Fetch(orig, k).0 != -1 ==>
      && |Fetch(ref, 0).1| >= |Fetch(orig, k).1|
      && Fetch(ref, 0).1 == Fetch(orig, k).1 + Repeat(NoneVal, |Fetch(ref, 0).1| - |Fetch(orig, k).1|)
  {
    if Fetch(orig, k).0 != -1 {
      var a := Advance(orig, k);
      assert a == orig.current + k;
      var mine := Fetch(ref, 0).1;
      var theirs := Fetch(orig, k).1;
      var padded := theirs + Repeat(NoneVal, |mine| - |theirs|);
      forall i | 0 <= i < |mine|
        ensures mine[i] == padded[i]
      {
        assert Held(ref.sheet, ref.current, i + 1) == orig.sheet.CellValue(a, i + 1);
      }
    }
  }

  /** Every row pair of an error-free walk reads the k-th measured row and
      the k-th original reference row (extended with None): the rows the
      walk inserts are never compared themselves. */
  lemma ReadsOriginalRows(w0: Walk, ro: bool, cmp: RowComparison, first: seq<Option<Validator>>, arr: seq<Option<Validator>>, k: nat)
    requires WalkValid(w0) && Untouched(w0.ref)
    requires Run(w0, ro, cmp, first, arr, k).1 == Done
    ensures var w := Run(w0, ro, cmp, first, arr, k).0;
      && Fetch(w.measured, 0) == Fetch(w0.measured, k)
      && (Fetch(w.ref, 0).0 == -1 <==> Fetch(w0.ref, k).0 == -1)
      && (Fetch(w0.ref, k).0 != -1 ==>
            && |Fetch(w.ref, 0).1| >= |Fetch(w0.ref, k).1|
            && Fetch(w.ref, 0).1 == Fetch(w0.ref, k).1 + Repeat(NoneVal, |Fetch(w.ref, 0).1| - |Fetch(w0.ref, k).1|))
  {
    RunMeasured(w0, ro, cmp, first, arr, k);
    RunTracks(w0, ro, cmp, first, arr, k);
    AdvanceFetch(w0.measured, k);
    TracksFetch(w0.ref, k, Run(w0, ro, cmp, first, arr, k).0.ref);
  }

  // ------------------------------------------------------------------
  // The consumer
  // ------------------------------------------------------------------

  /** Scanning one more column adds that column's entry, if any. */
  lemma FoulAddsStep(r: int, row1: seq<Value>, row2: seq<Value>, ds: seq<Outcome>, c: nat)
    requires c < |ds|
    ensures FoulAdds(r, row1, row2, ds[..c + 1]) == FoulAdds(r, row1, row2, ds[..c]) + FoulAt(r, row1, row2, c, ds[c])
  {
    assert ds[..c + 1][..c] == ds[..c];
  }

  /** One column of the loop of `diff`: a mismatch goes to the summary. */
  method AddIfFoul(summary: ComparisonSummary, r: int, c: nat, row1: seq<Value>, row2: seq<Value>, d: Outcome)
    requires summary.Valid()
    modifies summary
    ensures summary.Valid()
    ensures summary.log == old(summary.log) + FoulAt(r, row1, row2, c, d)
    ensures summary.headerValues == old(summary.headerValues)
  {
    if Foul(d) {
      summary.Add(r, c + 1, CellOf(row1, c), CellOf(row2, c), d);
    }
  }

  /** The loop of `diff` over the outcomes: whether all are acceptable,
      both colour lists, and each mismatching cell added to the summary. */
  method ScanRow(summary: ComparisonSummary?, r: int, row1: seq<Value>, row2: seq<Value>, ds: seq<Outcome>)
    returns (okay: bool, formatsRef: seq<string>, formatsMess: seq<string>)
    requires summary != null ==> summary.Valid()
    modifies summary
    ensures okay == RowOk(ds) && formatsRef == RefColors(ds) && formatsMess == MessColors(ds)
    ensures summary != null ==> summary.Valid()
    ensures summary != null ==> summary.log == old(summary.log) + FoulAdds(r, row1, row2, ds)
    ensures summary != null ==> summary.headerValues == old(summary.headerValues)
  {
    okay := true;
    formatsRef := [];
    formatsMess := [];
    var c := 0;
    while c < |ds|
      invariant 0 <= c <= |ds|
      invariant okay == RowOk(ds[..c])
      invariant formatsRef == RefColors(ds[..c]) && formatsMess == MessColors(ds[..c])
      invariant summary != null ==> summary.Valid()
      invariant summary != null ==> summary.log == old(summary.log) + FoulAdds(r, row1, row2, ds[..c])
      invariant summary != null ==> summary.headerValues == old(summary.headerValues)
    {
      var result := ds[c];
      ScanStep(ds, c);
      FoulAddsStep(r, row1, row2, ds, c);
      okay := okay && Ok(result);
      var colors := CellColors(result);
      formatsRef := formatsRef + [colors.0];
      formatsMess := formatsMess + [colors.1];
      if summary != null {
        AddIfFoul(summary, r, c, row1, row2, result);
        assert (old(summary.log) + FoulAdds(r, row1, row2, ds[..c])) + FoulAt(r, row1, row2, c, result)
          == old(summary.log) + (FoulAdds(r, row1, row2, ds[..c]) + FoulAt(r, row1, row2, c, result));
      }
      c := c + 1;
    }
    assert ds[..c] == ds;
  }

  /** Scanning one more column extends the verdict and both colour lists
      by that column's. */
  lemma ScanStep(ds: seq<Outcome>, c: nat)
    requires c < |ds|
    ensures RowOk(ds[..c + 1]) == (RowOk(ds[..c]) && Ok(ds[c]))
    ensures RefColors(ds[..c + 1]) == RefColors(ds[..c]) + [CellColors(ds[c]).0]
    ensures MessColors(ds[..c + 1]) == MessColors(ds[..c]) + [CellColors(ds[c]).1]
  {
    var front, longer := ds[..c], ds[..c + 1];
    assert forall k :: 0 <= k < c ==> longer[k] == front[k];
    assert RefColors(longer) == RefColors(front) + [CellColors(ds[c]).0];
    assert MessColors(longer) == MessColors(front) + [CellColors(ds[c]).1];
  }

  /** `DiffConsumer`: two fresh cursors, the reference engine it writes to
      and an optional summary. */
  class DiffConsumer {
    const enum1: RowEnumerator
    const enum2: RowEnumerator
    const eng2: Table
    const summary: ComparisonSummary?

    ghost predicate Valid()
      reads this, enum1, enum2, enum1.engine, eng2, summary
    {
      && enum2.engine == eng2 && enum1 != enum2 && enum1.engine != eng2
      && enum1.engine.Valid() && eng2.Valid()
      && enum2.current >= 1
      && (summary != null ==> summary.Valid())
    }

    constructor (eng1: Table, eng2: Table, summary: ComparisonSummary?)
      requires eng1 != eng2 && eng1.Valid() && eng2.Valid()
      requires summary != null ==> summary.Valid()
      ensures Valid()
      ensures fresh(enum1) && fresh(enum2)
      ensures enum1.engine == eng1 && this.eng2 == eng2 && this.summary == summary
      ensures CursorOf(enum1) == Cursor(eng1.sheet, 1, eng1.MaxRow())
      ensures CursorOf(enum2) == Cursor(eng2.sheet, 1, eng2.MaxRow())
    {
      enum1 := new RowEnumerator(eng1, 1);
      enum2 := new RowEnumerator(eng2, 1);
      this.eng2 := eng2;
      this.summary := summary;
    }

    /** `diff(r, index1, row1, index2, row2, differences)` */
    method Diff(r: int, index1: int, row1: seq<Value>, index2: int, row2: seq<Value>, ds: seq<Outcome>)
      returns (st: Status)
      requires Valid()
      modifies eng2, enum2, summary
      ensures Valid()
      ensures (st, CursorOf(enum2)) == DiffEffect(old(CursorOf(enum2)), eng2.engineReadOnly, index2, row1, ds)
      ensures summary != null ==> summary.log == old(summary.log) + FoulAdds(r, row1, row2, ds)
      ensures summary != null ==> summary.headerValues == old(summary.headerValues)
    {
      var okay, formatsRef, formatsMess := ScanRow(summary, r, row1, row2, ds);
      st := PaintReferenceRow(index2, ds, formatsRef);
      if st.Raised? {
        return;
      }
      st := InsertMeasuredRow(row1, ds, okay, formatsMess);
    }

    /** The painting half of `diff`. */
    method PaintReferenceRow(index2: int, ghost ds: seq<Outcome>, formatsRef: seq<string>) returns (st: Status)
      requires Valid() && formatsRef == RefColors(ds)
      modifies eng2
      ensures Valid()
      ensures (st, CursorOf(enum2)) == PaintEffect(old(CursorOf(enum2)), eng2.engineReadOnly, index2, ds)
    {
      st := Done;
      if index2 > 0 {
        st := eng2.SetRowFormats(index2, formatsRef);
      }
    }

    /** The inserting half of `diff`. */
    method InsertMeasuredRow(row1: seq<Value>, ghost ds: seq<Outcome>, okay: bool, formatsMess: seq<string>) returns (st: Status)
      requires Valid() && okay == RowOk(ds) && formatsMess == MessColors(ds)
      modifies eng2, enum2
      ensures Valid()
      ensures (st, CursorOf(enum2)) == InsertEffect(old(CursorOf(enum2)), eng2.engineReadOnly, row1, ds)
    {
      st := Done;
      if !okay && row1 != [] {
        st := InsertRow(row1, formatsMess);
      }
    }

    /** Inserting the measured row at the reference cursor, painted with
        `colors`: the read-only engine refuses; otherwise the cursor steps
        over the new row. */
    method InsertRow(row1: seq<Value>, colors: seq<string>) returns (st: Status)
      requires Valid() && row1 != [] && colors != []
      modifies eng2, enum2
      ensures Valid()
      ensures var ref := old(CursorOf(enum2));
        var at := ref.current;
        if eng2.engineReadOnly then st == Raised(NotImplementedError) && CursorOf(enum2) == ref
        else st == Done && CursorOf(enum2) == Cursor(ref.sheet.WithBlankRow(at).WithValues(at, row1).WithFills(at, colors), at + 1, ref.maxRow + 1)
    {
      var newRow := enum2.AddRow(row1);
      if newRow.Failure? {
        return Raised(newRow.error);
      }
      st := eng2.SetRowFormats(newRow.value, colors);
    }

    /** `compare_next(r, enum1, enum2, validator_arr, consumer)`: the pair
        and its outcomes as without a consumer, then `diff`. */
    method CompareNext(r: int, v: seq<Option<Validator>>) returns (st: Status)
      requires Valid()
      modifies enum1, enum2, eng2, summary
      ensures Valid()
      ensures CursorOf(enum1) == old(CursorOf(enum1)).(current := Advance(old(CursorOf(enum1)), 1))
      ensures var next := old(CursorOf(enum2)).(current := Advance(old(CursorOf(enum2)), 1));
        var pair := DiffAt(old(CursorOf(enum1)), old(CursorOf(enum2)), v, 0);
        if pair.Failure? then
          && st == Raised(pair.error) && CursorOf(enum2) == next
          && (summary != null ==> summary.log == old(summary.log))
        else
          var d := pair.value;
          && (st, CursorOf(enum2)) == DiffEffect(next, eng2.engineReadOnly, d.index2, d.row1, d.differences)
          && (summary != null ==> summary.log == old(summary.log) + FoulAdds(r, d.row1, d.row2, d.differences))
      ensures summary != null ==> summary.headerValues == old(summary.headerValues)
    {
      var pair := Compare.CompareNext(enum1, enum2, v);
      if pair.Failure? {
        return Raised(pair.error);
      }
      var d := pair.value;
      st := Diff(r, d.index1, d.row1, d.index2, d.row2, d.differences);
    }

    /** The consumer's state after the first k steps of the walk from
        `w0` have run without raising: the cursors stand where the walk
        left them and the summary holds the walk's entries after `log0`. */
    ghost predicate Walked(w0: Walk, first: seq<Option<Validator>>, arr: seq<Option<Validator>>, log0: seq<Added>,
                           k: nat, walk: Walk)
      reads this, enum1, enum2, enum1.engine, eng2, summary
    {
      && Valid() && WalkValid(w0)
      && Run(w0, eng2.engineReadOnly, RowOutcomes, first, arr, k) == (walk, Done)
      && CursorOf(enum1) == walk.measured && CursorOf(enum2) == walk.ref
      && (summary != null ==> summary.log == log0 + walk.adds)
    }

    /** Step k + 1 of the walk `CompareSheetsConsumeDiff` takes, from where
        the first k steps left the cursors. */
    method TakeStep(k: nat, v: seq<Option<Validator>>, ghost w0: Walk, ghost first: seq<Option<Validator>>,
                    ghost arr: seq<Option<Validator>>, ghost walk: Walk, ghost log0: seq<Added>)
      returns (st: Status)
      requires Walked(w0, first, arr, log0, k, walk) && v == ValidatorsFor(k, first, arr)
      modifies enum1, enum2, eng2, summary
      ensures Valid()
      ensures st == Run(w0, eng2.engineReadOnly, RowOutcomes, first, arr, k + 1).1
      ensures st == Done ==> Walked(w0, first, arr, log0, k + 1, Run(w0, eng2.engineReadOnly, RowOutcomes, first, arr, k + 1).0)
      ensures var w := Run(w0, eng2.engineReadOnly, RowOutcomes, first, arr, k + 1).0;
        && CursorOf(enum1) == w.measured && CursorOf(enum2) == w.ref
        && (summary != null ==> summary.log == log0 + w.adds)
      ensures summary != null ==> summary.headerValues == old(summary.headerValues)
    {
      ghost var m := Step(walk.measured, walk.ref, eng2.engineReadOnly, RowOutcomes, v, k + 1);
      RunNext(w0, eng2.engineReadOnly, RowOutcomes, first, arr, k, walk, v);
      StepOfPair(walk.measured, walk.ref, eng2.engineReadOnly, v, k + 1);
      st := CompareNext(k + 1, v);
      if summary != null {
        AppendAssociates(log0, walk.adds, m.adds);
      }
    }

    /** The first n steps of the walk from `w0`, stopping at the first
        that raises. */
    method WalkRows(n: nat, ghost w0: Walk, first: seq<Option<Validator>>, arr: seq<Option<Validator>>, ghost log0: seq<Added>)
      returns (st: Status)
      requires Walked(w0, first, arr, log0, 0, w0)
      modifies enum1, enum2, eng2, summary
      ensures Valid()
      ensures var (w, s) := Run(w0, eng2.engineReadOnly, RowOutcomes, first, arr, n);
        && st == s && CursorOf(enum1) == w.measured && CursorOf(enum2) == w.ref
        && (summary != null ==> summary.log == log0 + w.adds)
      ensures summary != null ==> summary.headerValues == old(summary.headerValues)
    {
      ghost var ro := eng2.engineReadOnly;
      ghost var walk := w0;
      var k := 0;
      while k < n
        invariant 0 <= k <= n
        invariant Walked(w0, first, arr, log0, k, walk)
        invariant summary != null ==> summary.headerValues == old(summary.headerValues)
      {
        var v := if k == 0 then first else arr;
        st := TakeStep(k, v, w0, first, arr, walk, log0);
        if st.Raised? {
          RunFailurePersists(w0, ro, RowOutcomes, first, arr, k + 1, n);
          return;
        }
        walk := Run(w0, ro, RowOutcomes, first, arr, k + 1).0;
        k := k + 1;
      }
      return Done;
    }

    /** `compare_sheets_consume_diff(validator_arr)`: the walk of
        `compare_sheets_by_enum` with this consumer; it returns nothing
        but may raise. */
    method CompareSheetsConsumeDiff(arr: seq<Option<Validator>>) returns (st: Status)
      requires Valid()
      modifies enum1, enum2, eng2, summary
      ensures Valid()
      ensures var w0 := Walk(old(CursorOf(enum1)), old(CursorOf(enum2)), []);
        var (w, s) := Run(w0, eng2.engineReadOnly, RowOutcomes, FirstRowValidators(old(eng2.sheet)), arr,
                          RowCount(old(enum1.maxRow), old(enum2.maxRow)));
        && st == s && CursorOf(enum1) == w.measured && CursorOf(enum2) == w.ref
        && (summary != null ==> summary.log == old(summary.log) + w.adds)
      ensures summary != null ==> summary.headerValues == old(summary.headerValues)
    {
      ghost var w0 := Walk(CursorOf(enum1), CursorOf(enum2), []);
      ghost var log0 := if summary != null then summary.log else [];
      var n := RowCount(enum1.GetMaxRow(), enum2.GetMaxRow());
      var first := FirstRowValidators(eng2.sheet);
      st := WalkRows(n, w0, first, arr, log0);
    }
  }

  /** The part of `differentiate_sheets_by_ws` that follows the resolution
      of the validators: a failed resolution propagates with nothing
      changed; otherwise the header goes to the summary and the consumer
      walks both sheets. */
  method ConsumeResolved(eng1: Table, eng2: Table, summary: ComparisonSummary?, header: seq<Value>,
                         validators: Result<seq<Option<Validator>>>)
    returns (st: Status)
    requires eng1 != eng2 && eng1.Valid() && eng2.Valid()
    requires summary != null ==> summary.Valid()
    modifies eng2, summary
    ensures eng2.Valid() && (summary != null ==> summary.Valid())
    ensures match validators
      case Failure(e) =>
        && st == Raised(e) && eng2.sheet == old(eng2.sheet)
        && (summary != null ==> summary.log == old(summary.log) && summary.headerValues == old(summary.headerValues))
      case Success(arr) =>
        var w0 := Walk(Cursor(eng1.sheet, 1, eng1.MaxRow()), Cursor(old(eng2.sheet), 1, old(eng2.MaxRow())), []);
        var (w, s) := Run(w0, eng2.engineReadOnly, RowOutcomes, FirstRowValidators(old(eng2.sheet)), arr,
                          RowCount(eng1.MaxRow(), old(eng2.MaxRow())));
        && st == s && eng2.sheet == w.ref.sheet
        && (summary != null ==> summary.log == old(summary.log) + w.adds && summary.headerValues == header)
  {
    if validators.Failure? {
      return Raised(validators.error);
    }
    if summary != null {
      summary.SetHeaderValues(header);
    }
    var consumer := new DiffConsumer(eng1, eng2, summary);
    st := consumer.CompareSheetsConsumeDiff(validators.value);
  }

  /** `differentiate_sheets_by_ws(eng1, eng2, registry, summary)` as
      written: row 1 of the reference sheet resolves the validators with
      the default `max_col` of 1, so every header of two or more columns
      raises IndexError before anything is painted or recorded
      (`Registry.DefaultWidthRejectsWideHeader`); a narrower header goes
      on to the summary and the walk. */
  method DifferentiateSheetsByWs(eng1: Table, eng2: Table, registry: ValidatorRegistry, summary: ComparisonSummary?)
    returns (st: Status)
    requires eng1 != eng2 && eng1.Valid() && eng2.Valid() && eng1.Nonempty() && eng2.Nonempty() && registry.Valid()
    requires summary != null ==> summary.Valid()
    modifies eng2, summary
    ensures eng2.Valid() && (summary != null ==> summary.Valid())
    ensures |old(eng2.GetRowValues(1))| >= 2 ==>
      && st == Raised(IndexError) && eng2.sheet == old(eng2.sheet)
      && (summary != null ==> summary.log == old(summary.log) && summary.headerValues == old(summary.headerValues))
    ensures var header := old(eng2.GetRowValues(1));
      match Resolution(registry.Snapshot(), header, 1)
      case Failure(e) =>
        && st == Raised(e) && eng2.sheet == old(eng2.sheet)
        && (summary != null ==> summary.log == old(summary.log) && summary.headerValues == old(summary.headerValues))
      case Success(arr) =>
        var w0 := Walk(Cursor(eng1.sheet, 1, eng1.MaxRow()), Cursor(old(eng2.sheet), 1, old(eng2.MaxRow())), []);
        var (w, s) := Run(w0, eng2.engineReadOnly, RowOutcomes, FirstRowValidators(old(eng2.sheet)), arr,
                          RowCount(eng1.MaxRow(), old(eng2.MaxRow())));
        && st == s && eng2.sheet == w.ref.sheet
        && (summary != null ==> summary.log == old(summary.log) + w.adds && summary.headerValues == header)
  {
    var header := eng2.GetRowValues(1);
    var validators := registry.ResolveValidators(header, 1);
    if |header| >= 2 {
      DefaultWidthRejectsWideHeader(registry.Snapshot(), header);
    }
    st := ConsumeResolved(eng1, eng2, summary, header, validators);
  }

  /** `differentiate_sheets_by_ws` with the evidently intended resolution,
      as wide as the header: for non-negative index registrations it never
      raises IndexError, the summary receives the header, and the consumer
      walks both sheets. */
  method DifferentiateSheetsByWsCorrected(eng1: Table, eng2: Table, registry: ValidatorRegistry, summary: ComparisonSummary?)
    returns (st: Status)
    requires eng1 != eng2 && eng1.Valid() && eng2.Valid() && eng1.Nonempty() && eng2.Nonempty() && registry.Valid()
    requires summary != null ==> summary.Valid()
    modifies eng2, summary
    ensures eng2.Valid() && (summary != null ==> summary.Valid())
    ensures var header := old(eng2.GetRowValues(1));
      match WideResolution(registry.Snapshot(), header, 1)
      case Failure(e) =>
        && st == Raised(e) && eng2.sheet == old(eng2.sheet)
        && (summary != null ==> summary.log == old(summary.log) && summary.headerValues == old(summary.headerValues))
      case Success(arr) =>
        var w0 := Walk(Cursor(eng1.sheet, 1, eng1.MaxRow()), Cursor(old(eng2.sheet), 1, old(eng2.MaxRow())), []);
        var (w, s) := Run(w0, eng2.engineReadOnly, RowOutcomes, FirstRowValidators(old(eng2.sheet)), arr,
                          RowCount(eng1.MaxRow(), old(eng2.MaxRow())));
        && st == s && eng2.sheet == w.ref.sheet
        && (summary != null ==> summary.log == old(summary.log) + w.adds && summary.headerValues == header)
    ensures (forall k :: k in registry.Snapshot().byIndex ==> k >= 0) && summary != null ==>
      summary.headerValues == old(eng2.GetRowValues(1))
  {
    var header := eng2.GetRowValues(1);
    var validators := registry.ResolveValidators(header, Max(1, |header|));
    if forall k :: k in registry.Snapshot().byIndex ==> k >= 0 {
      WideResolutionCoversHeader(registry.Snapshot(), header, 1);
    }
    st := ConsumeResolved(eng1, eng2, summary, header, validators);
  }
}
