/** `ComparisonSummary`: the cells recorded under each outcome, in the
    order they were added, plus the header row used for per-column counts.
    The buckets form a Python `defaultdict(list)`, so reading a missing
    bucket through `count` creates it empty. */
module Summary {
  import opened Wrappers
  import opened Values
  import opened Outcomes

  /** One recorded cell: `(row, col, val1, val2)`. */
  datatype Entry = Entry(row: int, col: int, val1: Value, val2: Value)

  /** One `add` call as it was made. */
  datatype Added = Added(entry: Entry, result: Outcome)

  /** The entries of the adds made with outcome `o`, in order. */
  function Filter(log: seq<Added>, o: Outcome): (r: seq<Entry>)
    ensures |r| <= |log|
    decreases |log|
  {
    if log == [] then []
    else Filter(log[..|log| - 1], o) + (if log[|log| - 1].result == o then [log[|log| - 1].entry] else [])
  }

  /** How many of `cells` lie in column `col`. */
  function CountCol(cells: seq<Entry>, col: int): (n: nat)
    ensures n <= |cells|
    decreases |cells|
  {
    if cells == [] then 0
    else CountCol(cells[..|cells| - 1], col) + (if cells[|cells| - 1].col == col then 1 else 0)
  }

  /** How many adds were made with outcome `o` in column `col`. */
  function CountAdds(log: seq<Added>, o: Outcome, col: int): nat
    decreases |log|
  {
    if log == [] then 0
    else CountAdds(log[..|log| - 1], o, col)
         + (if log[|log| - 1].result == o && log[|log| - 1].entry.col == col then 1 else 0)
  }

  /** One more add extends only its own outcome's list. */
  lemma FilterAppend(log: seq<Added>, x: Added, o: Outcome)
    ensures Filter(log + [x], o) == Filter(log, o) + (if x.result == o then [x.entry] else [])
  {
    assert (log + [x])[..|log|] == log;
  }

  /** Counting a bucket by column counts the adds themselves. */
  lemma {:induction false} CountColOfFilter(log: seq<Added>, o: Outcome, col: int)
    ensures CountCol(Filter(log, o), col) == CountAdds(log, o, col)
    decreases |log|
  {
    if log != [] {
      var front := log[..|log| - 1];
      var x := log[|log| - 1];
      CountColOfFilter(front, o, col);
      var f := Filter(front, o);
      if x.result == o {
        assert Filter(log, o) == f + [x.entry];
        assert (f + [x.entry])[..|f|] == f;
      } else {
        assert Filter(log, o) == f + [];
        assert f + [] == f;
      }
    }
  }

  /** No add with outcome `o`, no entries under it. */
  lemma {:induction false} FilterAbsent(log: seq<Added>, o: Outcome)
    requires forall i :: 0 <= i < |log| ==> log[i].result != o
    ensures Filter(log, o) == []
    decreases |log|
  {
    if log != [] {
      FilterAbsent(log[..|log| - 1], o);
    }
  }

  /** The sum of the bucket sizes named by `os`. */
  function SumSizes(os: seq<Outcome>, log: seq<Added>): nat
    decreases |os|
  {
    if os == [] then 0 else SumSizes(os[..|os| - 1], log) + |Filter(log, os[|os| - 1])|
  }

  /** The sum of the sizes of the buckets `os` names. */
  function SumBuckets(os: seq<Outcome>, results: map<Outcome, seq<Entry>>): nat
    requires forall o :: o in os ==> o in results
    decreases |os|
  {
    if os == [] then 0 else SumBuckets(os[..|os| - 1], results) + |results[os[|os| - 1]]|
  }

  lemma {:induction false} SumBucketsOfFilter(os: seq<Outcome>, results: map<Outcome, seq<Entry>>, log: seq<Added>)
    requires forall o :: o in os ==> o in results && results[o] == Filter(log, o)
    ensures SumBuckets(os, results) == SumSizes(os, log)
    decreases |os|
  {
    if os != [] {
      assert forall o :: o in os[..|os| - 1] ==> o in os;
      SumBucketsOfFilter(os[..|os| - 1], results, log);
    }
  }

  predicate Distinct(os: seq<Outcome>) {
    forall i, j :: 0 <= i < j < |os| ==> os[i] != os[j]
  }

  /** One more add grows exactly one bucket by one. */
  lemma {:induction false} SumSizesAppend(os: seq<Outcome>, log: seq<Added>, x: Added)
    requires Distinct(os)
    ensures SumSizes(os, log + [x]) == SumSizes(os, log) + (if x.result in os then 1 else 0)
    decreases |os|
  {
    assert (log + [x])[..|log|] == log;
    if os != [] {
      var front := os[..|os| - 1];
      SumSizesAppend(front, log, x);
      assert x.result in os <==> x.result in front || x.result == os[|os| - 1];
      assert x.result == os[|os| - 1] ==> x.result !in front;
    }
  }

  /** Summing every bucket counts every add once. */
  lemma {:induction false} SumSizesCountsAdds(os: seq<Outcome>, log: seq<Added>)
    requires Distinct(os)
    requires forall i :: 0 <= i < |log| ==> log[i].result in os
    ensures SumSizes(os, log) == |log|
    decreases |log|
  {
    if log == [] {
      EmptySizes(os);
    } else {
      var front := log[..|log| - 1];
      SumSizesCountsAdds(os, front);
      SumSizesAppend(os, front, log[|log| - 1]);
      assert front + [log[|log| - 1]] == log;
    }
  }

  lemma {:induction false} EmptySizes(os: seq<Outcome>)
    ensures SumSizes(os, []) == 0
    decreases |os|
  {
    if os != [] {
      EmptySizes(os[..|os| - 1]);
    }
  }

  /** A per-column count map: for each outcome of `os` with at least one
      entry in column `col`, its name and that number. */
  function ColumnCounts(os: seq<Outcome>, results: map<Outcome, seq<Entry>>, col: int): map<string, nat>
    requires forall o :: o in os ==> o in results
    decreases |os|
  {
    if os == [] then map[]
    else
      var o := os[|os| - 1];
      Extend(ColumnCounts(os[..|os| - 1], results, col), o, CountCol(results[o], col))
  }

  /** A count joins the map under the outcome's name only when positive. */
  function Extend(m: map<string, nat>, o: Outcome, n: nat): map<string, nat> {
    if n > 0 then m[Name(o) := n] else m
  }

  /** What a column's map holds: an outcome's name exactly when the
      outcome has entries in that column, with their number, and nothing
      else. */
  lemma {:induction false} ColumnCountsAt(os: seq<Outcome>, results: map<Outcome, seq<Entry>>, col: int)
    requires forall o :: o in os ==> o in results
    requires Distinct(os)
    ensures forall o :: o in os ==>
      (Name(o) in ColumnCounts(os, results, col) <==> CountCol(results[o], col) > 0)
    ensures forall o :: o in os && CountCol(results[o], col) > 0 ==>
      ColumnCounts(os, results, col)[Name(o)] == CountCol(results[o], col)
    ensures forall nm :: nm in ColumnCounts(os, results, col) ==> exists o :: o in os && Name(o) == nm
    decreases |os|
  {
    if os != [] {
      var front := os[..|os| - 1];
      var last := os[|os| - 1];
      SplitLast(os);
      ColumnCountsAt(front, results, col);
      ExtendCounts(front, last, results, col, ColumnCounts(front, results, col));
      ExtendNames(front, last, CountCol(results[last], col), ColumnCounts(front, results, col));
    }
  }

  /** A list of distinct outcomes is its front, distinct as well, and a
      last outcome that the front does not hold. */
  lemma SplitLast(os: seq<Outcome>)
    requires Distinct(os) && os != []
    ensures var front, last := os[..|os| - 1], os[|os| - 1];
      && Distinct(front) && last !in front && os == front + [last]
      && (forall o :: o in front ==> o in os)
  {
    var front, last := os[..|os| - 1], os[|os| - 1];
    forall i | 0 <= i < |front|
      ensures front[i] == os[i] && front[i] != last
    {
    }
    assert os == front + [last];
  }

  /** The step of SummaryOf: one more outcome, not seen before, adds its
      own bucket size and disturbs no other. */
  lemma SizesStep(front: seq<Outcome>, last: Outcome, results: map<Outcome, seq<Entry>>, m0: map<string, nat>)
    requires forall o :: o in front ==> o in results
    requires last in results && last !in front
    requires forall o :: o in front ==> Name(o) in m0 && m0[Name(o)] == |results[o]|
    requires forall nm :: nm in m0 ==> exists o :: o in front && Name(o) == nm
    ensures var m := m0[Name(last) := |results[last]|];
      && (forall o :: o in front + [last] ==> Name(o) in m && m[Name(o)] == |results[o]|)
      && (forall nm :: nm in m ==> exists o :: o in front + [last] && Name(o) == nm)
  {
    var m := m0[Name(last) := |results[last]|];
    forall o | o in front + [last]
      ensures Name(o) in m && m[Name(o)] == |results[o]|
    {
      if o != last {
        assert o in front;
        CodeAndNameInjective(o, last);
      }
    }
    forall nm | nm in m
      ensures exists o :: o in front + [last] && Name(o) == nm
    {
      if nm in m0 {
        var o :| o in front && Name(o) == nm;
        assert o in front + [last];
      } else {
        assert last in front + [last];
      }
    }
  }

  /** The step of ColumnCountsAt for the counts: one more outcome, not
      seen before, adds its own count and disturbs no other. */
  lemma ExtendCounts(front: seq<Outcome>, last: Outcome, results: map<Outcome, seq<Entry>>, col: int, m0: map<string, nat>)
    requires forall o :: o in front ==> o in results
    requires last in results && last !in front
    requires forall o :: o in front ==> (Name(o) in m0 <==> CountCol(results[o], col) > 0)
    requires forall o :: o in front && CountCol(results[o], col) > 0 ==> m0[Name(o)] == CountCol(results[o], col)
    requires forall nm :: nm in m0 ==> exists o :: o in front && Name(o) == nm
    ensures var m := Extend(m0, last, CountCol(results[last], col));
      && (forall o :: o in front + [last] ==> (Name(o) in m <==> CountCol(results[o], col) > 0))
      && (forall o :: o in front + [last] && CountCol(results[o], col) > 0 ==> m[Name(o)] == CountCol(results[o], col))
  {
    var m := Extend(m0, last, CountCol(results[last], col));
    forall o | o in front
      ensures Name(o) != Name(last)
    {
      CodeAndNameInjective(o, last);
    }
    assert Name(last) !in m0;
    forall o | o in front + [last]
      ensures Name(o) in m <==> CountCol(results[o], col) > 0
      ensures CountCol(results[o], col) > 0 ==> m[Name(o)] == CountCol(results[o], col)
    {
      if o != last {
        assert o in front;
      }
    }
  }

  /** The step of ColumnCountsAt for the keys: every name in the map
      belongs to an outcome seen so far. */
  lemma ExtendNames(front: seq<Outcome>, last: Outcome, n: nat, m0: map<string, nat>)
    requires forall nm :: nm in m0 ==> exists o :: o in front && Name(o) == nm
    ensures forall nm :: nm in Extend(m0, last, n) ==> exists o :: o in front + [last] && Name(o) == nm
  {
    forall nm | nm in Extend(m0, last, n)
      ensures exists o :: o in front + [last] && Name(o) == nm
    {
      if nm in m0 {
        var o :| o in front && Name(o) == nm;
        assert o in front + [last];
      } else {
        assert last in front + [last];
      }
    }
  }

  /** The summary's invariant on its fields: `order` lists the buckets
      once each, every bucket holds exactly its outcome's adds, and every
      add has its bucket. */
  ghost predicate Consistent(results: map<Outcome, seq<Entry>>, order: seq<Outcome>, log: seq<Added>) {
    && Distinct(order)
    && (forall o :: o in results <==> o in order)
    && (forall o :: o in results ==> results[o] == Filter(log, o))
    && (forall i :: 0 <= i < |log| ==> log[i].result in results)
  }

  /** Creating a missing bucket empty keeps the invariant: no add has
      been made with its outcome. */
  lemma OpenBucket(results: map<Outcome, seq<Entry>>, order: seq<Outcome>, log: seq<Added>, o: Outcome)
    requires Consistent(results, order, log) && o !in results
    ensures Filter(log, o) == []
    ensures Consistent(results[o := []], order + [o], log)
  {
    FilterAbsent(log, o);
    assert forall i :: 0 <= i < |order| ==> order[i] in results;
  }

  /** One `add`, whether or not its bucket existed, keeps the invariant. */
  lemma AddKeeps(results: map<Outcome, seq<Entry>>, order: seq<Outcome>, log: seq<Added>, e: Entry, o: Outcome)
    requires Consistent(results, order, log)
    ensures Consistent(results[o := Filter(log, o) + [e]], if o in results then order else order + [o], log + [Added(e, o)])
  {
    BucketsAfterAdd(results, log, e, o);
    if o !in results {
      DistinctAppend(order, o);
    }
  }

  /** After one more add every bucket again holds exactly its outcome's
      adds, the add's own bucket having grown by its entry. */
  lemma BucketsAfterAdd(results: map<Outcome, seq<Entry>>, log: seq<Added>, e: Entry, o: Outcome)
    requires forall p :: p in results ==> results[p] == Filter(log, p)
    ensures var results' := results[o := Filter(log, o) + [e]];
      forall p :: p in results' ==> results'[p] == Filter(log + [Added(e, o)], p)
  {
    forall p
      ensures Filter(log + [Added(e, o)], p) == Filter(log, p) + (if p == o then [e] else [])
    {
      FilterAppend(log, Added(e, o), p);
    }
  }

  /** A new outcome appended to distinct ones keeps them distinct. */
  lemma DistinctAppend(order: seq<Outcome>, o: Outcome)
    requires Distinct(order) && o !in order
    ensures Distinct(order + [o])
  {
  }

  /** Counting one more cell: only its own column's count grows. */
  lemma CountColStep(cells: seq<Entry>, j: nat)
    requires j < |cells|
    ensures forall col :: CountCol(cells[..j + 1], col) == CountCol(cells[..j], col) + (if cells[j].col == col then 1 else 0)
  {
    assert cells[..j + 1][..j] == cells[..j];
  }

  /** Bumping an outcome's count in a column map that holds `n` for it
      gives the map that holds `n + 1`. */
  lemma BumpExtends(m0: map<string, nat>, o: Outcome, n: nat)
    requires Name(o) !in m0
    ensures var m := Extend(m0, o, n);
      m[Name(o) := (if Name(o) in m then m[Name(o)] else 0) + 1] == Extend(m0, o, n + 1)
  {
  }

  class ComparisonSummary {
    var results: map<Outcome, seq<Entry>>
    /** The keys of `results` in the order they were created. */
    var order: seq<Outcome>
    var headerValues: seq<Value>
    /** Every `add` call so far. */
    ghost var log: seq<Added>

    ghost predicate Valid()
      reads this
    {
      Consistent(results, order, log)
    }

    constructor ()
      ensures Valid()
      ensures results == map[] && order == [] && headerValues == [] && log == []
    {
      results := map[];
      order := [];
      headerValues := [];
      log := [];
    }

    /** `add(row, col, val1, val2, result)`: the entry goes to the end of
        its outcome's bucket. */
    method Add(row: int, col: int, val1: Value, val2: Value, result: Outcome)
      requires Valid()
      modifies this
      ensures Valid()
      ensures log == old(log) + [Added(Entry(row, col, val1, val2), result)]
      ensures results == old(results)[result := old(GetCells(result)) + [Entry(row, col, val1, val2)]]
      ensures forall o :: o != result && o in old(results) ==> results[o] == old(results)[o]
      ensures order == if result in old(results) then old(order) else old(order) + [result]
      ensures headerValues == old(headerValues)
    {
      var e := Entry(row, col, val1, val2);
      var bucket := GetCells(result);
      AddKeeps(results, order, log, e, result);
      if result !in results {
        order := order + [result];
      }
      results := results[result := bucket + [e]];
      log := log + [Added(e, result)];
    }

    /** `count(result)`: the number of adds with that outcome; a missing
        bucket is created empty on the way. */
    method Count(result: Outcome) returns (n: nat)
      requires Valid()
      modifies this
      ensures Valid()
      ensures n == |Filter(log, result)|
      ensures results == old(results)[result := old(GetCells(result))]
      ensures order == if result in old(results) then old(order) else old(order) + [result]
      ensures log == old(log) && headerValues == old(headerValues)
    {
      if result !in results {
        OpenBucket(results, order, log, result);
        order := order + [result];
        results := results[result := []];
      }
      n := |results[result]|;
    }

    /** `total()`: the size of every bucket together. */
    function Total(): nat
      reads this
      requires Valid()
    {
      SumBuckets(order, results)
    }

    /** `summary()`: each bucket's outcome name with its size, including
        the empty buckets `count` created. */
    function Summary(): (m: map<string, nat>)
      reads this
      requires Valid()
      ensures forall o :: o in results ==> Name(o) in m && m[Name(o)] == |results[o]|
      ensures forall nm :: nm in m ==> exists o :: o in results && Name(o) == nm
    {
      SummaryOf(order)
    }

    function SummaryOf(os: seq<Outcome>): (m: map<string, nat>)
      reads this
      requires Valid()
      requires forall o :: o in os ==> o in results
      requires Distinct(os)
      ensures forall o :: o in os ==> Name(o) in m && m[Name(o)] == |results[o]|
      ensures forall nm :: nm in m ==> exists o :: o in os && Name(o) == nm
      decreases |os|
    {
      if os == [] then map[]
      else
        var last := os[|os| - 1];
        var front := os[..|os| - 1];
        SplitLast(os);
        SizesStep(front, last, results, SummaryOf(front));
        SummaryOf(front)[Name(last) := |results[last]|]
    }

    /** `get_cells(result)`: the bucket, or `[]` without creating it. */
    function GetCells(result: Outcome): (cells: seq<Entry>)
      reads this
      requires Valid()
      ensures cells == Filter(log, result)
    {
      if result in results then results[result]
      else
        FilterAbsent(log, result);
        []
    }

    method SetHeaderValues(header: seq<Value>)
      requires Valid()
      modifies this
      ensures Valid()
      ensures headerValues == header
      ensures results == old(results) && order == old(order) && log == old(log)
    {
      headerValues := header;
    }

    /** `summary_by_header_array()`: one count map per header column, or
        ValueError when no header was set. */
    method SummaryByHeaderArray() returns (res: Result<seq<map<string, nat>>>)
      requires Valid()
      ensures headerValues == [] <==> res.Failure?
      ensures res.Failure? ==> res.error == ValueError
      ensures res.Success? ==> |res.value| == |headerValues|
      ensures res.Success? ==> forall k :: 0 <= k < |headerValues| ==> res.value[k] == ColumnCounts(order, results, k + 1)
    {
      if headerValues == [] {
        return Failure(ValueError);
      }
      var n := |headerValues|;
      var arr: seq<map<string, nat>> := seq(n, _ => map[]);
      var i := 0;
      while i < |order|
        invariant 0 <= i <= |order|
        invariant |arr| == n
        invariant forall k :: 0 <= k < n ==> arr[k] == ColumnCounts(order[..i], results, k + 1)
      {
        NameFresh(order, i, results);
        arr := Tally(arr, order[i], results[order[i]]);
        assert order[..i + 1][..i] == order[..i];
        i := i + 1;
      }
      assert order[..i] == order;
      return Success(arr);
    }

    /** One outcome's bucket counted into the per-column maps. */
    static method Tally(start: seq<map<string, nat>>, o: Outcome, cells: seq<Entry>) returns (arr: seq<map<string, nat>>)
      requires forall k :: 0 <= k < |start| ==> Name(o) !in start[k]
      ensures |arr| == |start|
      ensures forall k :: 0 <= k < |start| ==> arr[k] == Extend(start[k], o, CountCol(cells, k + 1))
    {
      var n := |start|;
      arr := start;
      var j := 0;
      while j < |cells|
        invariant 0 <= j <= |cells|
        invariant |arr| == n
        invariant forall k :: 0 <= k < n ==> arr[k] == Extend(start[k], o, CountCol(cells[..j], k + 1))
      {
        var col := cells[j].col;
        CountColStep(cells, j);
        if 1 <= col <= n {
          var m := arr[col - 1];
          BumpExtends(start[col - 1], o, CountCol(cells[..j], col));
          arr := arr[col - 1 := m[Name(o) := (if Name(o) in m then m[Name(o)] else 0) + 1]];
        }
        j := j + 1;
      }
      assert cells[..j] == cells;
    }

    /** The name of the i-th outcome is not yet in any column map built
        from the outcomes before it. */
    static lemma NameFresh(order: seq<Outcome>, i: nat, results: map<Outcome, seq<Entry>>)
      requires Distinct(order) && i < |order|
      requires forall o :: o in order ==> o in results
      ensures forall col :: Name(order[i]) !in ColumnCounts(order[..i], results, col)
    {
      var front := order[..i];
      assert forall o :: o in front ==> o in order && o != order[i];
      assert Distinct(front);
      forall col
        ensures Name(order[i]) !in ColumnCounts(front, results, col)
      {
        ColumnCountsAt(front, results, col);
        forall o | o in front ensures Name(o) != Name(order[i]) {
          CodeAndNameInjective(o, order[i]);
        }
      }
    }
  }

  /** `total()` is the number of adds made. */
  lemma TotalCountsAdds(s: ComparisonSummary)
    requires s.Valid()
    ensures s.Total() == |s.log|
  {
    forall i | 0 <= i < |s.log| ensures s.log[i].result in s.order {
    }
    SumSizesCountsAdds(s.order, s.log);
    SumBucketsOfFilter(s.order, s.results, s.log);
  }

  /** Entry k of `summary_by_header_array()` counts, by outcome name, the
      adds made in column k + 1, and holds no zero counts. */
  lemma HeaderArrayCountsAdds(s: ComparisonSummary, col: int)
    requires s.Valid()
    ensures forall o :: o in s.results ==>
      (Name(o) in ColumnCounts(s.order, s.results, col) <==> CountAdds(s.log, o, col) > 0)
    ensures forall o :: o in s.results && CountAdds(s.log, o, col) > 0 ==>
      ColumnCounts(s.order, s.results, col)[Name(o)] == CountAdds(s.log, o, col)
    ensures forall nm :: nm in ColumnCounts(s.order, s.results, col) ==> ColumnCounts(s.order, s.results, col)[nm] > 0
  {
    ColumnCountsAt(s.order, s.results, col);
    forall o | o in s.results ensures CountCol(s.results[o], col) == CountAdds(s.log, o, col) {
      CountColOfFilter(s.log, o, col);
    }
  }
}
