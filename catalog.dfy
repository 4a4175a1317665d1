/** The country and subject catalogs (`getUniqueData`) and the selection
    filter (`getSelectedData`) of the WEO chart. */
module Catalog {
  import opened Wrappers
  import opened Weo
  import opened Seqs

  // ---------------------------------------------------------------------
  // Deduplication: getUniqueData
  // ---------------------------------------------------------------------

  /** The reduced entry built from `row`: the requested fields, copied; a
      field the row lacks stays undefined. */
  function Project(row: Row, fields: seq<string>): Row
  {
    map f | f in fields && f in row :: row[f]
  }

  /** Row `i` is the first row whose `key` cell holds its value (and it has
      one). */
  predicate IsFirst(data: seq<Row>, key: string, i: nat)
    requires i < |data|
  {
    key in data[i] && forall j :: 0 <= j < i ==> !(key in data[j] && data[j][key] == data[i][key])
  }

  function FirstOf(data: seq<Row>, key: string): nat -> bool
  {
    (i: nat) => i < |data| && IsFirst(data, key, i)
  }

  /** The positions of the first occurrences among the first `n` rows. */
  function FirstIndices(data: seq<Row>, key: string, n: nat): (idx: seq<nat>)
    requires n <= |data|
    ensures forall a :: 0 <= a < |idx| ==> idx[a] < n
  {
    IndicesWhereSpec(n, FirstOf(data, key));
    IndicesWhere(n, FirstOf(data, key))
  }

  /** The projections of the first occurrences among the first `n` rows. */
  function UniqueUpTo(data: seq<Row>, key: string, fields: seq<string>, n: nat): seq<Row>
    requires n <= |data|
  {
    var idx := FirstIndices(data, key, n);
    seq(|idx|, a requires 0 <= a < |idx| => Project(data[idx[a]], fields))
  }

  /** The catalog: one reduced entry per distinct non-null key value, taken
      from the first row holding it. */
  function UniqueData(data: seq<Row>, key: string, fields: seq<string>): seq<Row>
  {
    UniqueUpTo(data, key, fields, |data|)
  }

  lemma UniqueUpToStep(data: seq<Row>, key: string, fields: seq<string>, n: nat)
    requires n < |data|
    ensures UniqueUpTo(data, key, fields, n + 1) ==
            UniqueUpTo(data, key, fields, n) + (if IsFirst(data, key, n) then [Project(data[n], fields)] else [])
  {
  }

  /** getUniqueData: rows are scanned in order; a row whose key is present
      and not yet in `uniqueValues` contributes the projection of its fields. */
  method GetUniqueData(data: seq<Row>, uniqueProperty: string, returnProperty: OneOrMany<string>)
    returns (uniqueObjects: seq<Row>)
    ensures uniqueObjects == UniqueData(data, uniqueProperty, returnProperty.AsSeq())
  {
    var fields := returnProperty.AsSeq();
    var uniqueValues: seq<string> := [];
    uniqueObjects := [];
    var i := 0;
    while i < |data|
      invariant 0 <= i <= |data|
      invariant forall v :: v in uniqueValues <==>
                  exists j :: 0 <= j < i && uniqueProperty in data[j] && data[j][uniqueProperty] == v
      invariant uniqueObjects == UniqueUpTo(data, uniqueProperty, fields, i)
    {
      var d := data[i];
      UniqueUpToStep(data, uniqueProperty, fields, i);
      if uniqueProperty in d && d[uniqueProperty] !in uniqueValues {
        uniqueValues := uniqueValues + [d[uniqueProperty]];
        uniqueObjects := uniqueObjects + [Project(d, fields)];
      }
      i := i + 1;
    }
  }

  /** Every key value present in the data has a first occurrence at or
      before any row holding it. */
  lemma {:induction false} FirstOccurrenceExists(data: seq<Row>, key: string, i: nat)
    requires i < |data| && key in data[i]
    ensures exists j :: 0 <= j <= i && IsFirst(data, key, j) && data[j][key] == data[i][key]
    decreases i
  {
    if !IsFirst(data, key, i) {
      var j :| 0 <= j < i && key in data[j] && data[j][key] == data[i][key];
      FirstOccurrenceExists(data, key, j);
    }
  }

  /** The catalog holds exactly one entry per distinct non-null key value,
      in first-occurrence order, each the projection of the first row
      holding that value. */
  lemma UniqueDataIsDedup(data: seq<Row>, key: string, fields: seq<string>)
    ensures var r, idx := UniqueData(data, key, fields), FirstIndices(data, key, |data|);
      && |r| == |idx|
      && StrictlyIncreasing(idx)
      && (forall a :: 0 <= a < |r| ==> IsFirst(data, key, idx[a]) && r[a] == Project(data[idx[a]], fields))
      && (forall a, b :: 0 <= a < b < |r| ==> data[idx[a]][key] != data[idx[b]][key])
      && (forall i :: 0 <= i < |data| && key in data[i] ==>
            exists a :: 0 <= a < |r| && idx[a] <= i && data[idx[a]][key] == data[i][key])
  {
    var idx := FirstIndices(data, key, |data|);
    IndicesWhereSpec(|data|, FirstOf(data, key));
    forall i | 0 <= i < |data| && key in data[i]
      ensures exists a :: 0 <= a < |idx| && idx[a] <= i && data[idx[a]][key] == data[i][key]
    {
      FirstOccurrenceExists(data, key, i);
      var j :| 0 <= j <= i && IsFirst(data, key, j) && data[j][key] == data[i][key];
      assert FirstOf(data, key)(j);
      var a :| 0 <= a < |idx| && idx[a] == j;
    }
  }

  // ---------------------------------------------------------------------
  // Selection: getSelectedData
  // ---------------------------------------------------------------------

  /** How many of `values` equal the non-null `property` cell of `d`. */
  function Multiplicity(d: Row, property: string, values: seq<Option<string>>): nat
  {
    if property in d then Count(values, Some(d[property])) else 0
  }

  /** The data positions selected among the first `n` rows: row `i` once for
      every matching value. */
  function SelectedIndices(data: seq<Row>, property: string, values: seq<Option<string>>, n: nat): seq<nat>
    requires n <= |data|
  {
    if n == 0 then []
    else SelectedIndices(data, property, values, n - 1) + Repeat<nat>(n - 1, Multiplicity(data[n - 1], property, values))
  }

  function SelectedUpTo(data: seq<Row>, property: string, values: seq<Option<string>>, n: nat): seq<Row>
    requires n <= |data|
  {
    if n == 0 then []
    else SelectedUpTo(data, property, values, n - 1) + Repeat(data[n - 1], Multiplicity(data[n - 1], property, values))
  }

  function SelectedData(data: seq<Row>, property: string, values: seq<Option<string>>): seq<Row>
  {
    SelectedUpTo(data, property, values, |data|)
  }

  ghost predicate NonDecreasing(s: seq<nat>)
  {
    forall a, b :: 0 <= a < b < |s| ==> s[a] <= s[b]
  }

  /** The selection among the first `n` rows is the data read along the
      index list. */
  lemma {:induction false} SelectedShape(data: seq<Row>, property: string, values: seq<Option<string>>, n: nat)
    requires n <= |data|
    ensures var r, idx := SelectedUpTo(data, property, values, n), SelectedIndices(data, property, values, n);
      && |r| == |idx|
      && (forall k :: 0 <= k < |idx| ==> idx[k] < n && r[k] == data[idx[k]])
  {
    if n > 0 {
      SelectedShape(data, property, values, n - 1);
      var m := Multiplicity(data[n - 1], property, values);
      var prev, rprev := SelectedIndices(data, property, values, n - 1), SelectedUpTo(data, property, values, n - 1);
      var idx, r := prev + Repeat<nat>(n - 1, m), rprev + Repeat(data[n - 1], m);
      assert forall k :: |prev| <= k < |idx| ==> idx[k] == n - 1 && r[k] == data[n - 1];
      assert forall k :: 0 <= k < |prev| ==> idx[k] == prev[k] && r[k] == rprev[k];
    }
  }

  /** The index list is non-decreasing: the selection follows data order. */
  lemma {:induction false} SelectedOrdered(data: seq<Row>, property: string, values: seq<Option<string>>, n: nat)
    requires n <= |data|
    ensures forall k :: 0 <= k < |SelectedIndices(data, property, values, n)| ==> SelectedIndices(data, property, values, n)[k] < n
    ensures NonDecreasing(SelectedIndices(data, property, values, n))
  {
    if n > 0 {
      SelectedOrdered(data, property, values, n - 1);
      var m := Multiplicity(data[n - 1], property, values);
      var prev := SelectedIndices(data, property, values, n - 1);
      var idx := prev + Repeat<nat>(n - 1, m);
      assert forall k :: |prev| <= k < |idx| ==> idx[k] == n - 1;
      assert forall k :: 0 <= k < |prev| ==> idx[k] == prev[k] < n - 1;
    }
  }

  /** Row `i` occurs once for every value equal to its non-null property. */
  lemma {:induction false} SelectedCounts(data: seq<Row>, property: string, values: seq<Option<string>>, n: nat)
    requires n <= |data|
    ensures forall i: nat :: i < |data| ==>
      Count(SelectedIndices(data, property, values, n), i) == if i < n then Multiplicity(data[i], property, values) else 0
  {
    if n > 0 {
      SelectedCounts(data, property, values, n - 1);
      var prev := SelectedIndices(data, property, values, n - 1);
      var m := Multiplicity(data[n - 1], property, values);
      forall i: nat | i < |data|
        ensures Count(SelectedIndices(data, property, values, n), i) == if i < n then Multiplicity(data[i], property, values) else 0
      {
        CountAppend<nat>(prev, Repeat<nat>(n - 1, m), i);
        CountRepeat<nat>(n - 1, m, i);
      }
    }
  }

  /** The selection is the data read along a non-decreasing index list (so
      it follows data order, whatever the order of `values`), and each row
      occurs once for every value equal to its non-null property. */
  lemma SelectedDataSpec(data: seq<Row>, property: string, values: seq<Option<string>>, n: nat)
    requires n <= |data|
    ensures var r, idx := SelectedUpTo(data, property, values, n), SelectedIndices(data, property, values, n);
      && |r| == |idx|
      && NonDecreasing(idx)
      && (forall k :: 0 <= k < |idx| ==> idx[k] < n && r[k] == data[idx[k]])
      && (forall i: nat :: i < |data| ==> Count(idx, i) == if i < n then Multiplicity(data[i], property, values) else 0)
  {
    SelectedShape(data, property, values, n);
    SelectedOrdered(data, property, values, n);
    SelectedCounts(data, property, values, n);
  }

  /** Each selected row matches one of the values. */
  lemma {:induction false} SelectedMatch(data: seq<Row>, property: string, values: seq<Option<string>>, k: nat)
    requires k < |SelectedData(data, property, values)|
    ensures var d := SelectedData(data, property, values)[k];
      property in d && Some(d[property]) in values
  {
    SelectedDataSpec(data, property, values, |data|);
    var idx := SelectedIndices(data, property, values, |data|);
    var i: nat := idx[k];
    CountPositive(idx, k);
    CountMember(values, Some(data[i][property]));
  }

  lemma {:induction false} CountPositive(s: seq<nat>, k: nat)
    requires k < |s|
    ensures Count(s, s[k]) > 0
  {
    if k < |s| - 1 {
      assert s[..|s| - 1][k] == s[k];
      CountPositive(s[..|s| - 1], k);
    }
  }

  lemma {:induction false} CountMember<T>(s: seq<T>, x: T)
    requires Count(s, x) > 0
    ensures x in s
  {
    if s[|s| - 1] != x {
      CountMember(s[..|s| - 1], x);
    }
  }

  lemma SelectedUpToStep(data: seq<Row>, property: string, values: seq<Option<string>>, d: Row, j: nat)
    requires j < |values|
    ensures Multiplicity(d, property, values[..j + 1]) ==
            Multiplicity(d, property, values[..j]) + (if property in d && values[j] == Some(d[property]) then 1 else 0)
  {
    assert values[..j + 1][..j] == values[..j];
  }

  /** getSelectedData: `checkRequiredValue` throws on a single undefined
      value (an array, even one holding undefined, passes); then for every
      row, in data order, and every value, in the order given, the row is
      pushed when its non-null property equals the value. */
  method GetSelectedData(data: seq<Row>, property: string, values: OneOrMany<Option<string>>)
    returns (r: Result<seq<Row>>)
    ensures r.Failure? <==> values == One(None)
    ensures r.Failure? ==> r.error == RequiredValueMissing
    ensures r.Success? ==> r.value == SelectedData(data, property, values.AsSeq())
  {
    if values == One(None) {
      return Failure(RequiredValueMissing);
    }
    var vs := values.AsSeq();
    var objects := [];
    var i := 0;
    while i < |data|
      invariant 0 <= i <= |data|
      invariant objects == SelectedUpTo(data, property, vs, i)
    {
      var d := data[i];
      var j := 0;
      while j < |vs|
        invariant 0 <= j <= |vs|
        invariant objects == SelectedUpTo(data, property, vs, i) + Repeat(d, Multiplicity(d, property, vs[..j]))
      {
        SelectedUpToStep(data, property, vs, d, j);
        if property in d && vs[j] == Some(d[property]) {
          objects := objects + [d];
        }
        j := j + 1;
      }
      assert vs[..j] == vs;
      i := i + 1;
    }
    return Success(objects);
  }

  /** The selection depends only on which values are given and how often,
      not on their order: the chart's country selection follows catalog
      order, not the order in which countries were picked. */
  lemma {:induction false} SelectionIgnoresValueOrder(data: seq<Row>, property: string,
                                                      values: seq<Option<string>>, values': seq<Option<string>>, n: nat)
    requires n <= |data|
    requires multiset(values) == multiset(values')
    ensures SelectedUpTo(data, property, values, n) == SelectedUpTo(data, property, values', n)
  {
    if n > 0 {
      SelectionIgnoresValueOrder(data, property, values, values', n - 1);
      var d := data[n - 1];
      if property in d {
        CountIsMultiplicity(values, Some(d[property]));
        CountIsMultiplicity(values', Some(d[property]));
      }
    }
  }
}
