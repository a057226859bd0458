/** `ValidatorRegistry` (validators by column name, by column index and a
    default) and `RegistryStore` (registries by sheet name). A resolved
    validator list holds `None` wherever the registry's default is unset;
    the row comparison reads such an entry as "omit this column". */
module Registry {
  import opened Wrappers
  import opened Values
  import opened Validators

  /** The registrations of one registry. `order` lists the keys of
      `byIndex` in insertion order, the order a Python dict iterates in. */
  datatype Registrations = Registrations(
    byName: map<string, Validator>,
    byIndex: map<int, Validator>,
    order: seq<int>,
    default: Option<Validator>)
  {
    ghost predicate Valid() {
      && (forall k :: k in byIndex <==> k in order)
      && (forall i, j :: 0 <= i < j < |order| ==> order[i] != order[j])
    }
  }

  /** `get_validator(column_name=name, column_index=index)`: a header cell
      finds a by-name registration only when it is a string. */
  function Lookup(g: Registrations, name: Value, index: int): (r: Option<Validator>)
    ensures name.StrVal? && name.s in g.byName ==> r == Some(g.byName[name.s])
    ensures !(name.StrVal? && name.s in g.byName) && index in g.byIndex ==> r == Some(g.byIndex[index])
    ensures !(name.StrVal? && name.s in g.byName) && index !in g.byIndex ==> r == g.default
  {
    if name.StrVal? && name.s in g.byName then Some(g.byName[name.s])
    else if index in g.byIndex then Some(g.byIndex[index])
    else g.default
  }

  /** The first pass of `resolve_validators`: `max_col` defaults, then
      header position i takes `get_validator(header[i], i)`; a header
      longer than the list is an IndexError. */
  function FirstPass(g: Registrations, header: seq<Value>, maxCol: int): (r: Result<seq<Option<Validator>>>)
    ensures r.Success? <==> |header| <= Max(maxCol, 0)
    ensures r.Failure? ==> r.error == IndexError
    ensures r.Success? ==> |r.value| == Max(maxCol, 0)
    ensures r.Success? ==> forall j :: 0 <= j < |r.value| ==>
      r.value[j] == if j < |header| then Lookup(g, header[j], j) else g.default
  {
    var n := Max(maxCol, 0);
    if |header| > n then Failure(IndexError)
    else Success(seq(n, j requires 0 <= j < n => if j < |header| then Lookup(g, header[j], j) else g.default))
  }

  /** One step of the second pass: a key inside the list overwrites its
      slot (a negative key counts from the end, and one before the start
      is an IndexError); a key past the end pads with the default and
      then appends. */
  function PlaceAt(vs: seq<Option<Validator>>, key: int, v: Validator, d: Option<Validator>): (r: Result<seq<Option<Validator>>>)
  {
    if key < |vs| then
      if key < -|vs| then Failure(IndexError)
      else if key >= 0 then Success(vs[key := Some(v)])
      else Success(vs[|vs| + key := Some(v)])
    else Success(vs + Repeat(d, key - |vs|) + [Some(v)])
  }

  /** The second pass over the index registrations in dict order. */
  function PlaceAll(vs: seq<Option<Validator>>, keys: seq<int>, m: map<int, Validator>, d: Option<Validator>): Result<seq<Option<Validator>>>
    requires forall k :: k in keys ==> k in m
    decreases |keys|
  {
    if keys == [] then Success(vs)
    else
      match PlaceAll(vs, keys[..|keys| - 1], m, d)
      case Failure(e) => Failure(e)
      case Success(ws) => PlaceAt(ws, keys[|keys| - 1], m[keys[|keys| - 1]], d)
  }

  /** `resolve_validators(header, max_col)`. */
  function Resolution(g: Registrations, header: seq<Value>, maxCol: int): Result<seq<Option<Validator>>>
    requires g.Valid()
  {
    match FirstPass(g, header, maxCol)
    case Failure(e) => Failure(e)
    case Success(vs) => PlaceAll(vs, g.order, g.byIndex, g.default)
  }

  /** One more than the largest key, or 0. */
  function Reach(keys: seq<int>): (n: int)
    ensures forall k :: k in keys ==> k < n
    ensures n >= 0
    decreases |keys|
  {
    if keys == [] then 0
    else
      assert forall k :: k in keys ==> k in keys[..|keys| - 1] || k == keys[|keys| - 1];
      Max(Reach(keys[..|keys| - 1]), keys[|keys| - 1] + 1)
  }

  /** Once a step of the second pass fails, the whole pass fails with the
      same error. */
  lemma {:induction false} PlaceAllFailurePersists(vs: seq<Option<Validator>>, keys: seq<int>, n: nat, m: map<int, Validator>, d: Option<Validator>)
    requires forall k :: k in keys ==> k in m
    requires n <= |keys|
    requires PlaceAll(vs, keys[..n], m, d).Failure?
    ensures PlaceAll(vs, keys, m, d) == PlaceAll(vs, keys[..n], m, d)
    decreases |keys| - n
  {
    if n < |keys| {
      assert forall k :: k in keys[..n + 1] ==> k in keys;
      assert keys[..n + 1][..n] == keys[..n];
      PlaceAllFailurePersists(vs, keys, n + 1, m, d);
    } else {
      assert keys[..n] == keys;
    }
  }

  /** With non-negative keys the second pass never fails; it extends the
      list exactly to the largest key, puts each key's validator at its
      index and leaves every other slot as it was or as the default. */
  lemma {:induction false} PlaceAllAt(vs: seq<Option<Validator>>, keys: seq<int>, m: map<int, Validator>, d: Option<Validator>)
    requires forall k :: k in keys ==> k in m && k >= 0
    ensures PlaceAll(vs, keys, m, d).Success?
    ensures var r := PlaceAll(vs, keys, m, d).value;
      && |r| == Max(|vs|, Reach(keys))
      && forall j :: 0 <= j < |r| ==>
           r[j] == if j in keys then Some(m[j]) else if j < |vs| then vs[j] else d
    decreases |keys|
  {
    if keys != [] {
      var front := keys[..|keys| - 1];
      var key := keys[|keys| - 1];
      assert forall k :: k in front ==> k in keys;
      PlaceAllAt(vs, front, m, d);
      var ws := PlaceAll(vs, front, m, d).value;
      var r := PlaceAll(vs, keys, m, d).value;
      assert r == PlaceAt(ws, key, m[key], d).value;
      forall j | 0 <= j < |r|
        ensures r[j] == if j in keys then Some(m[j]) else if j < |vs| then vs[j] else d
      {
        assert j in keys <==> j in front || j == key;
      }
    }
  }

  /** What `resolve_validators` returns when every registered index is
      non-negative and the header fits: a list as long as `max_col` or
      the largest index, whichever reaches further, in which a registered
      index always wins, a header name match comes next and the default
      fills the rest. By index registrations thus beat by name ones here,
      the reverse of `get_validator`'s own precedence. */
  lemma ResolutionAt(g: Registrations, header: seq<Value>, maxCol: int)
    requires g.Valid()
    requires forall k :: k in g.byIndex ==> k >= 0
    requires |header| <= Max(maxCol, 0)
    ensures Resolution(g, header, maxCol).Success?
    ensures var r := Resolution(g, header, maxCol).value;
      && |r| == Max(Max(maxCol, 0), Reach(g.order))
      && forall j :: 0 <= j < |r| ==>
           r[j] == if j in g.byIndex then Some(g.byIndex[j])
                   else if j < |header| && header[j].StrVal? && header[j].s in g.byName then Some(g.byName[header[j].s])
                   else g.default
  {
    var vs := FirstPass(g, header, maxCol).value;
    PlaceAllAt(vs, g.order, g.byIndex, g.default);
  }

  /** The as-written default: with `max_col` left at 1, any header of two
      or more columns makes `resolve_validators` raise IndexError. */
  lemma DefaultWidthRejectsWideHeader(g: Registrations, header: seq<Value>)
    requires g.Valid()
    requires |header| >= 2
    ensures Resolution(g, header, 1) == Failure(IndexError)
  {
  }

  /** The evidently intended resolution: the first pass is as wide as the
      header when the header is wider than `max_col`. */
  function WideResolution(g: Registrations, header: seq<Value>, maxCol: int): Result<seq<Option<Validator>>>
    requires g.Valid()
  {
    Resolution(g, header, Max(maxCol, |header|))
  }

  /** The intended resolution never fails for non-negative registrations
      and gives every header column its validator: index first, then
      name, then the default. */
  lemma WideResolutionCoversHeader(g: Registrations, header: seq<Value>, maxCol: int)
    requires g.Valid()
    requires forall k :: k in g.byIndex ==> k >= 0
    ensures WideResolution(g, header, maxCol).Success?
    ensures var r := WideResolution(g, header, maxCol).value;
      && |r| >= |header|
      && forall j :: 0 <= j < |header| ==>
           r[j] == if j in g.byIndex then Some(g.byIndex[j]) else Lookup(g, header[j], j)
  {
    ResolutionAt(g, header, Max(maxCol, |header|));
  }

  class ValidatorRegistry {
    var byColumnName: map<string, Validator>
    var byColumnIndex: map<int, Validator>
    var indexOrder: seq<int>
    var defaultValidator: Option<Validator>

    ghost predicate Valid()
      reads this
    {
      Snapshot().Valid()
    }

    function Snapshot(): Registrations
      reads this
    {
      Registrations(byColumnName, byColumnIndex, indexOrder, defaultValidator)
    }

    constructor ()
      ensures Valid()
      ensures Snapshot() == Registrations(map[], map[], [], None)
    {
      byColumnName := map[];
      byColumnIndex := map[];
      indexOrder := [];
      defaultValidator := None;
    }

    method RegisterByName(name: string, v: Validator)
      requires Valid()
      modifies this
      ensures Valid()
      ensures byColumnName == old(byColumnName)[name := v]
      ensures byColumnIndex == old(byColumnIndex) && indexOrder == old(indexOrder)
      ensures defaultValidator == old(defaultValidator)
    {
      byColumnName := byColumnName[name := v];
    }

    /** A new key joins the end of the dict order; an existing one keeps
        its place. */
    method RegisterByIndex(index: int, v: Validator)
      requires Valid()
      modifies this
      ensures Valid()
      ensures byColumnIndex == old(byColumnIndex)[index := v]
      ensures indexOrder == if index in old(byColumnIndex) then old(indexOrder) else old(indexOrder) + [index]
      ensures byColumnName == old(byColumnName) && defaultValidator == old(defaultValidator)
    {
      if index !in byColumnIndex {
        indexOrder := indexOrder + [index];
      }
      byColumnIndex := byColumnIndex[index := v];
    }

    method SetDefault(v: Validator)
      requires Valid()
      modifies this
      ensures Valid()
      ensures defaultValidator == Some(v)
      ensures byColumnName == old(byColumnName) && byColumnIndex == old(byColumnIndex)
      ensures indexOrder == old(indexOrder)
    {
      defaultValidator := Some(v);
    }

    function GetValidator(name: Value, index: int): Option<Validator>
      reads this
    {
      Lookup(Snapshot(), name, index)
    }

    /** `resolve_validators(header_row, max_col)`. */
    method ResolveValidators(header: seq<Value>, maxCol: int) returns (res: Result<seq<Option<Validator>>>)
      requires Valid()
      ensures res == Resolution(Snapshot(), header, maxCol)
    {
      var g := Snapshot();
      var n := Max(maxCol, 0);
      var validators := Repeat(defaultValidator, n);
      var index := 0;
      while index < |header|
        invariant 0 <= index <= |header|
        invariant |validators| == n && index <= n
        invariant forall j :: 0 <= j < n ==>
          validators[j] == if j < index then Lookup(g, header[j], j) else g.default
      {
        if index >= |validators| {
          return Failure(IndexError);
        }
        validators := validators[index := GetValidator(header[index], index)];
        index := index + 1;
      }
      assert FirstPass(g, header, maxCol).value == validators;

      var k := 0;
      while k < |indexOrder|
        invariant 0 <= k <= |indexOrder|
        invariant PlaceAll(FirstPass(g, header, maxCol).value, indexOrder[..k], byColumnIndex, defaultValidator) == Success(validators)
      {
        var key := indexOrder[k];
        var v := byColumnIndex[key];
        ghost var before := validators;
        if key < |validators| {
          if key < -|validators| {
            assert indexOrder[..k + 1][..k] == indexOrder[..k];
            assert forall x :: x in indexOrder[..k + 1] ==> x in indexOrder;
            PlaceAllFailurePersists(FirstPass(g, header, maxCol).value, indexOrder, k + 1, byColumnIndex, defaultValidator);
            return Failure(IndexError);
          }
          validators := validators[if key >= 0 then key else |validators| + key := Some(v)];
        } else {
          while |validators| < key
            invariant |before| <= |validators| <= key
            invariant validators == before + Repeat(defaultValidator, |validators| - |before|)
          {
            validators := validators + [defaultValidator];
          }
          validators := validators + [Some(v)];
        }
        assert Success(validators) == PlaceAt(before, key, v, defaultValidator);
        assert indexOrder[..k + 1][..k] == indexOrder[..k];
        k := k + 1;
      }
      assert indexOrder[..k] == indexOrder;
      return Success(validators);
    }
  }

  class RegistryStore {
    var bySheetName: map<string, ValidatorRegistry>
    var defaultRegistry: ValidatorRegistry?

    constructor ()
      ensures bySheetName == map[] && defaultRegistry == null
    {
      bySheetName := map[];
      defaultRegistry := null;
    }

    method Register(sheetName: string, registry: ValidatorRegistry)
      modifies this
      ensures bySheetName == old(bySheetName)[sheetName := registry]
      ensures defaultRegistry == old(defaultRegistry)
    {
      bySheetName := bySheetName[sheetName := registry];
    }

    method SetDefault(registry: ValidatorRegistry)
      modifies this
      ensures defaultRegistry == registry
      ensures bySheetName == old(bySheetName)
    {
      defaultRegistry := registry;
    }

    /** `get_registry(sheet_name)`: the sheet's own registry, else the
        default, which is null until one is set. */
    function GetRegistry(sheetName: string): (r: ValidatorRegistry?)
      reads this
      ensures sheetName in bySheetName ==> r == bySheetName[sheetName]
      ensures sheetName !in bySheetName ==> r == defaultRegistry
    {
      if sheetName in bySheetName then bySheetName[sheetName] else defaultRegistry
    }
  }
}
