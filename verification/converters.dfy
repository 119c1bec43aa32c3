/** The value converters the views bind through: AndBooleanConverter,
    EmptyStateVisibilityConverter and IsEmptyConverter. */
module Converters {
  import opened Options

  /** A bound value as a converter sees it: null, a boxed bool, a boxed
      int, a string, the binding system's DoNothing marker, or an object of
      any other type. */
  datatype Value = Null | Bool(b: bool) | Int(i: int) | Str(s: string) | DoNothing | Other

  // ---------------------------------------------------------------------
  // AndBooleanConverter

  /** Every value is a boxed true. */
  function AllTrue(values: seq<Value>): bool
    decreases |values|
  {
    values == [] || (values[0] == Bool(true) && AllTrue(values[1..]))
  }

  /** AndBooleanConverter.Convert: false for a null or empty list, otherwise
      whether every value is a boxed true. `values` is None for null. */
  function AndBoolean(values: Option<seq<Value>>): (r: Value)
    ensures r.Bool?
    ensures values.None? || values.value == [] ==> r == Bool(false)
  {
    match values
    case None => Bool(false)
    case Some(vs) => if vs == [] then Bool(false) else Bool(AllTrue(vs))
  }

  /** The recursive test agrees with "each one is true". */
  lemma {:induction false} AllTrueEvery(values: seq<Value>)
    ensures AllTrue(values) <==> forall k :: 0 <= k < |values| ==> values[k] == Bool(true)
    decreases |values|
  {
    if values != [] {
      AllTrueEvery(values[1..]);
      assert forall k :: 1 <= k < |values| ==> values[k] == values[1..][k - 1];
    }
  }

  /** The converter yields true exactly for a non-empty list of trues: a
      null, a false, a non-bool or a missing value all give false. */
  lemma AndBooleanMeaning(values: Option<seq<Value>>)
    ensures AndBoolean(values) == Bool(true) <==>
      values.Some? && values.value != [] && forall k :: 0 <= k < |values.value| ==> values.value[k] == Bool(true)
  {
    if values.Some? {
      AllTrueEvery(values.value);
    }
  }

  /** The order of the bindings does not matter. */
  lemma AndBooleanPermutation(a: seq<Value>, b: seq<Value>)
    requires multiset(a) == multiset(b)
    ensures AndBoolean(Some(a)) == AndBoolean(Some(b))
  {
    AllTrueEvery(a);
    AllTrueEvery(b);
    assert |a| == |multiset(a)| == |multiset(b)| == |b|;
    forall k | 0 <= k < |a| ensures a[k] in multiset(b) { }
    forall k | 0 <= k < |b| ensures b[k] in multiset(a) { }
  }

  /** Joining two non-empty lists of bindings is the conjunction of both. */
  lemma AndBooleanAppend(a: seq<Value>, b: seq<Value>)
    requires a != [] && b != []
    ensures AndBoolean(Some(a + b)) == Bool(AndBoolean(Some(a)).b && AndBoolean(Some(b)).b)
  {
    AllTrueEvery(a);
    AllTrueEvery(b);
    AllTrueEvery(a + b);
    var ab := a + b;
    assert forall k :: 0 <= k < |a| ==> ab[k] == a[k];
    assert forall k :: |a| <= k < |ab| ==> ab[k] == b[k - |a|];
    if !AllTrue(a) {
      var k :| 0 <= k < |a| && a[k] != Bool(true);
      assert ab[k] == a[k];
    } else if !AllTrue(b) {
      var k :| 0 <= k < |b| && b[k] != Bool(true);
      assert ab[|a| + k] == b[k];
    } else {
      forall k | 0 <= k < |ab| ensures ab[k] == Bool(true) {
        if k < |a| { assert ab[k] == a[k]; } else { assert ab[k] == b[k - |a|]; }
      }
    }
  }

  // ---------------------------------------------------------------------
  // EmptyStateVisibilityConverter

  /** `value as bool? ?? false`. */
  function AsBool(v: Value): bool {
    if v.Bool? then v.b else false
  }

  /** `value as int? ?? 0`. */
  function AsInt(v: Value): int {
    if v.Int? then v.i else 0
  }

  /** EmptyStateVisibilityConverter.Convert over (IsLoadingSheets,
      Sheets.Count): false for fewer than two values, otherwise true only
      when not loading and the count is 0. A value of the wrong type counts
      as false or 0; values after the second are ignored. */
  function EmptyStateVisibility(values: seq<Value>): (r: Value)
    ensures r.Bool?
    ensures |values| < 2 ==> r == Bool(false)
  {
    if |values| < 2 then Bool(false)
    else Bool(!AsBool(values[0]) && AsInt(values[1]) == 0)
  }

  /** The empty state shows exactly when the first value is not a boxed
      true and the second is a boxed 0 or not an int at all. */
  lemma EmptyStateMeaning(values: seq<Value>)
    ensures EmptyStateVisibility(values) == Bool(true) <==>
      |values| >= 2 && values[0] != Bool(true) && (values[1] == Int(0) || !values[1].Int?)
  {
  }

  /** Bound as in the sheet list, it shows for a finished load of no
      sheets, and for nothing else. */
  lemma EmptyStateOfSheetList(isLoadingSheets: bool, count: nat)
    ensures EmptyStateVisibility([Bool(isLoadingSheets), Int(count)]) == Bool(!isLoadingSheets && count == 0)
  {
  }

  /** Extra bindings after the first two change nothing. */
  lemma EmptyStateIgnoresExtras(values: seq<Value>, extra: seq<Value>)
    requires |values| >= 2
    ensures EmptyStateVisibility(values + extra) == EmptyStateVisibility(values)
  {
    assert (values + extra)[0] == values[0] && (values + extra)[1] == values[1];
  }

  // ---------------------------------------------------------------------
  // IsEmptyConverter

  /** IsEmptyConverter.Convert: a non-string gives false; a string gives
      whether it is empty, or, when a parameter is given, the parameter for
      an empty string and DoNothing for any other. */
  function IsEmpty(value: Value, parameter: Value): (r: Value)
    ensures !value.Str? ==> r == Bool(false)
    ensures value.Str? && parameter.Null? ==> r == Bool(value.s == "")
    ensures value.Str? && !parameter.Null? ==> r == (if value.s == "" then parameter else DoNothing)
  {
    if value.Str? then
      var isEmpty := value.s == "";
      if !parameter.Null? then (if isEmpty then parameter else DoNothing)
      else Bool(isEmpty)
    else Bool(false)
  }

  /** Without a parameter the converter yields true for the empty string
      alone: null and other types give false, never DoNothing. */
  lemma IsEmptyWithoutParameter(value: Value)
    ensures IsEmpty(value, Null) == Bool(true) <==> value == Str("")
    ensures IsEmpty(value, Null).Bool?
  {
  }

  /** With a parameter, the binding is updated only for the empty string
      (to the parameter) or for a non-string (to false); any other string
      leaves the target alone. */
  lemma IsEmptyWithParameter(value: Value, parameter: Value)
    requires !parameter.Null? && parameter != DoNothing
    ensures IsEmpty(value, parameter) == DoNothing <==> value.Str? && value.s != ""
    ensures IsEmpty(value, parameter) == parameter ==> value == Str("") || (!value.Str? && parameter == Bool(false))
  {
  }
}
