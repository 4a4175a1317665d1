/** The colour-slot allocator (`setSeriesColor` over `plot.seriesColorMap`). */
module Colors {
  import opened Wrappers
  import opened Weo
  import opened Extraction

  type SlotMap = map<string, ColorSlot>

  /** The property name a country code is stored under: `obj[undefined]`
      is `obj["undefined"]`. */
  function PropertyKey(code: Option<string>): string
  {
    if code.Some? then code.value else "undefined"
  }

  /** Some country holds palette index `i`. */
  predicate Used(m: SlotMap, i: nat)
  {
    exists k :: k in m && m[k] == Palette(i)
  }

  /** No two countries share a palette index. */
  ghost predicate IndicesDistinct(m: SlotMap)
  {
    forall k, k' :: k in m && k' in m && k != k' && m[k].Palette? ==> m[k] != m[k']
  }

  /** Every palette index is below MaxCountries. */
  ghost predicate InPalette(m: SlotMap)
  {
    forall k :: k in m && m[k].Palette? ==> m[k].index < MaxCountries
  }

  ghost predicate ValidSlots(m: SlotMap)
  {
    IndicesDistinct(m) && InPalette(m)
  }

  function LowestFreeFrom(m: SlotMap, i: nat): ColorSlot
    requires i <= MaxCountries
    decreases MaxCountries - i
  {
    if i == MaxCountries then Exhausted
    else if !Used(m, i) then Palette(i)
    else LowestFreeFrom(m, i + 1)
  }

  /** `d3.range(0, 20).find(...)`: the lowest index in 0..MaxCountries-1 no
      country holds; undefined when all are taken. */
  function LowestFree(m: SlotMap): ColorSlot
  {
    LowestFreeFrom(m, 0)
  }

  lemma {:induction false} LowestFreeFromSpec(m: SlotMap, i: nat)
    requires i <= MaxCountries
    requires forall j: nat :: j < i ==> Used(m, j)
    ensures var r := LowestFreeFrom(m, i);
      && (r.Palette? ==> i <= r.index < MaxCountries && !Used(m, r.index) && forall j: nat :: j < r.index ==> Used(m, j))
      && (r.Exhausted? ==> forall j: nat :: j < MaxCountries ==> Used(m, j))
    decreases MaxCountries - i
  {
    if i < MaxCountries && Used(m, i) {
      LowestFreeFromSpec(m, i + 1);
    }
  }

  /** The slot handed out is the least palette index no country holds, and
      the palette is exhausted only when every index is held. */
  lemma LowestFreeSpec(m: SlotMap)
    ensures var r := LowestFree(m);
      && (r.Palette? ==> r.index < MaxCountries && !Used(m, r.index) && forall j: nat :: j < r.index ==> Used(m, j))
      && (r.Exhausted? ==> forall j: nat :: j < MaxCountries ==> Used(m, j))
  {
    LowestFreeFromSpec(m, 0);
  }

  /** Some series of `data` has country code `k` (`p === d[countryCode]`). */
  predicate Shown(data: seq<Series>, k: string)
  {
    exists i :: 0 <= i < |data| && data[i].countryCode == Some(k)
  }

  /** The first loop of setSeriesColor: entries of countries not shown are
      deleted, the others kept as they are. */
  function Prune(m: SlotMap, data: seq<Series>): SlotMap
  {
    map k | k in m && Shown(data, k) :: m[k]
  }

  function Keys(data: seq<Series>): (keys: seq<string>)
    ensures |keys| == |data|
    ensures forall i :: 0 <= i < |data| ==> keys[i] == PropertyKey(data[i].countryCode)
  {
    seq(|data|, i requires 0 <= i < |data| => PropertyKey(data[i].countryCode))
  }

  /** The second loop of setSeriesColor: in data order, a country without
      an entry gets the lowest free index. */
  function AssignAll(m: SlotMap, keys: seq<string>): SlotMap
  {
    if keys == [] then m
    else
      var prev := AssignAll(m, keys[..|keys| - 1]);
      var key := keys[|keys| - 1];
      AssignOne(prev, key)
  }

  /** A country without an entry gets the lowest free index. */
  function AssignOne(m: SlotMap, key: string): SlotMap
  {
    if key in m then m else m[key := LowestFree(m)]
  }

  lemma AssignOneKeeps(m: SlotMap, key: string)
    ensures key in AssignOne(m, key)
    ensures forall k :: k in m ==> k in AssignOne(m, key) && AssignOne(m, key)[k] == m[k]
  {
  }

  /** Allocation only adds entries: every country already in the map keeps
      its slot, and afterwards every key has one. */
  lemma {:induction false} AssignAllKeeps(m: SlotMap, keys: seq<string>)
    ensures var r := AssignAll(m, keys);
      && (forall k :: k in m ==> k in r && r[k] == m[k])
      && (forall k :: k in r <==> k in m || k in keys)
  {
    if keys != [] {
      var init := keys[..|keys| - 1];
      AssignAllKeeps(m, init);
      assert keys == init + [keys[|keys| - 1]];
    }
  }

  /** Giving a country the lowest free index keeps indices distinct and in
      the palette. */
  lemma AssignOneValid(m: SlotMap, key: string)
    requires ValidSlots(m) && key !in m
    ensures ValidSlots(m[key := LowestFree(m)])
  {
    LowestFreeSpec(m);
    var r := m[key := LowestFree(m)];
    forall k, k' | k in r && k' in r && k != k' && r[k].Palette?
      ensures r[k] != r[k']
    {
      if k == key {
        assert !Used(m, r[k].index);
      } else if k' == key && r[k'].Palette? {
        assert !Used(m, r[k'].index);
      }
    }
  }

  /** Allocation keeps the palette indices pairwise distinct. */
  lemma {:induction false} AssignAllValid(m: SlotMap, keys: seq<string>)
    requires ValidSlots(m)
    ensures ValidSlots(AssignAll(m, keys))
  {
    if keys != [] {
      var prev := AssignAll(m, keys[..|keys| - 1]);
      AssignAllValid(m, keys[..|keys| - 1]);
      if keys[|keys| - 1] !in prev {
        AssignOneValid(prev, keys[|keys| - 1]);
      }
    }
  }

  /** Pruning keeps exactly the entries of the countries shown, with their
      slots unchanged, and so keeps the slots valid. */
  lemma PruneValid(m: SlotMap, data: seq<Series>)
    requires ValidSlots(m)
    ensures forall k :: k in Prune(m, data) <==> k in m && Shown(data, k)
    ensures forall k :: k in Prune(m, data) ==> Prune(m, data)[k] == m[k]
    ensures ValidSlots(Prune(m, data))
  {
  }

  // ---------------------------------------------------------------------
  // The free-index test as written
  // ---------------------------------------------------------------------

  /** As written, index `i` counts as free when `Object.keys(map).find(...)`
      returns a falsy key: no key holds `i`, or the key holding it is the
      empty string. With distinct indices `find` can only return the one
      key holding `i`, so this is exact under `IndicesDistinct`. */
  predicate LooksFreeAsWritten(m: SlotMap, i: nat)
  {
    forall k :: k in m && m[k] == Palette(i) ==> k == ""
  }

  function LowestFreeAsWrittenFrom(m: SlotMap, i: nat): (r: ColorSlot)
    requires i <= MaxCountries
    ensures r.Palette? ==> i <= r.index < MaxCountries
    decreases MaxCountries - i
  {
    if i == MaxCountries then Exhausted
    else if LooksFreeAsWritten(m, i) then Palette(i)
    else LowestFreeAsWrittenFrom(m, i + 1)
  }

  /** The allocation of setSeriesColor as written. */
  function LowestFreeAsWritten(m: SlotMap): (r: ColorSlot)
    requires IndicesDistinct(m)
    ensures r.Palette? ==> r.index < MaxCountries
  {
    LowestFreeAsWrittenFrom(m, 0)
  }

  /** A country whose code is the empty string holds index 0; the next new
      country is given index 0 as well by the test as written, so two
      countries share a colour. The corrected allocator gives it index 1. */
  lemma EmptyCodeSlotLooksFree()
    ensures var m := map["" := Palette(0)];
      && ValidSlots(m)
      && LowestFreeAsWritten(m) == Palette(0)
      && !IndicesDistinct(m["FIN" := LowestFreeAsWritten(m)])
      && LowestFree(m) == Palette(1)
      && ValidSlots(m["FIN" := LowestFree(m)])
  {
    var m := map["" := Palette(0)];
    assert LooksFreeAsWritten(m, 0);
    var m' := m["FIN" := LowestFreeAsWritten(m)];
    assert m'[""] == m'["FIN"];
    assert Used(m, 0) by { assert m[""] == Palette(0); }
    assert !Used(m, 1);
    LowestFreeIs(m, 1);
    AssignOneValid(m, "FIN");
  }

  // ---------------------------------------------------------------------
  // A worked scenario
  // ---------------------------------------------------------------------

  lemma AssignAllSnoc(m: SlotMap, keys: seq<string>, key: string)
    ensures AssignAll(m, keys + [key]) ==
      var prev := AssignAll(m, keys); if key in prev then prev else prev[key := LowestFree(prev)]
  {
    assert (keys + [key])[..|keys|] == keys;
  }

  /** LowestFree is the least index not held. */
  lemma LowestFreeIs(m: SlotMap, i: nat)
    requires i < MaxCountries && !Used(m, i)
    requires forall j: nat :: j < i ==> Used(m, j)
    ensures LowestFree(m) == Palette(i)
  {
    LowestFreeSpec(m);
  }

  function Shown3(a: string, b: string, c: string): seq<Series>
  {
    [Series(Some(a), None, None, None, [], None, None, None, None),
     Series(Some(b), None, None, None, [], None, None, None, None),
     Series(Some(c), None, None, None, [], None, None, None, None)]
  }

  /** Showing A, B, C on an empty map gives them indices 0, 1, 2. */
  lemma FirstCountriesGetFirstSlots()
    ensures AssignAll(Prune(map[], Shown3("AAA", "BBB", "CCC")), Keys(Shown3("AAA", "BBB", "CCC"))) ==
            map["AAA" := Palette(0), "BBB" := Palette(1), "CCC" := Palette(2)]
  {
    var abc := Shown3("AAA", "BBB", "CCC");
    assert Keys(abc) == [] + ["AAA"] + ["BBB"] + ["CCC"];
    var empty: SlotMap := map[];
    assert Prune(empty, abc) == empty;
    AssignAllSnoc(empty, [], "AAA");
    LowestFreeIs(empty, 0);
    var m1 := map["AAA" := Palette(0)];
    AssignAllSnoc(empty, ["AAA"], "BBB");
    assert Used(m1, 0) by { assert m1["AAA"] == Palette(0); }
    LowestFreeIs(m1, 1);
    var m2 := m1["BBB" := Palette(1)];
    AssignAllSnoc(empty, ["AAA", "BBB"], "CCC");
    assert Used(m2, 0) by { assert m2["AAA"] == Palette(0); }
    assert Used(m2, 1) by { assert m2["BBB"] == Palette(1); }
    LowestFreeIs(m2, 2);
  }

  /** Then B is replaced by D: A and C keep their indices and D receives
      the index B freed. */
  lemma ReplacingACountryReusesItsSlot()
    ensures var before := map["AAA" := Palette(0), "BBB" := Palette(1), "CCC" := Palette(2)];
      AssignAll(Prune(before, Shown3("AAA", "CCC", "DDD")), Keys(Shown3("AAA", "CCC", "DDD"))) ==
      map["AAA" := Palette(0), "CCC" := Palette(2), "DDD" := Palette(1)]
  {
    var acd := Shown3("AAA", "CCC", "DDD");
    var pruned := map["AAA" := Palette(0), "CCC" := Palette(2)];
    HiddenCountryIsPruned();
    assert Keys(acd) == ["AAA", "CCC", "DDD"];
    GapIsRefilled();
  }

  /** The pruning half of the scenario: BBB is no longer shown and loses
      its slot. */
  lemma HiddenCountryIsPruned()
    ensures Prune(map["AAA" := Palette(0), "BBB" := Palette(1), "CCC" := Palette(2)], Shown3("AAA", "CCC", "DDD")) ==
      map["AAA" := Palette(0), "CCC" := Palette(2)]
  {
    var acd := Shown3("AAA", "CCC", "DDD");
    assert Shown(acd, "AAA") by { assert acd[0].countryCode == Some("AAA"); }
    assert Shown(acd, "CCC") by { assert acd[1].countryCode == Some("CCC"); }
    assert !Shown(acd, "BBB");
  }

  /** The assigning half of the scenario: DDD takes the freed index 1. */
  lemma GapIsRefilled()
    ensures AssignAll(map["AAA" := Palette(0), "CCC" := Palette(2)], ["AAA", "CCC", "DDD"]) ==
      map["AAA" := Palette(0), "CCC" := Palette(2), "DDD" := Palette(1)]
  {
    var pruned := map["AAA" := Palette(0), "CCC" := Palette(2)];
    AssignAllSnoc(pruned, [], "AAA");
    AssignAllSnoc(pruned, ["AAA"], "CCC");
    assert ["AAA", "CCC"] + ["DDD"] == ["AAA", "CCC", "DDD"];
    AssignAllSnoc(pruned, ["AAA", "CCC"], "DDD");
    assert Used(pruned, 0) by { assert pruned["AAA"] == Palette(0); }
    LowestFreeIs(pruned, 1);
  }

  /** One step of the second loop: the series' country gets the lowest free
      index when it has no entry, and the series gets its country's slot. */
  method ColorSeriesAt(m: SlotMap, data: array<Series>, i: nat) returns (r: SlotMap)
    requires i < data.Length
    modifies data
    ensures r == AssignOne(m, PropertyKey(old(data[i]).countryCode))
    ensures PropertyKey(old(data[i]).countryCode) in r
    ensures data[i] == old(data[i]).(seriesColor := Some(r[PropertyKey(old(data[i]).countryCode)]))
    ensures forall k :: 0 <= k < data.Length && k != i ==> data[k] == old(data[k])
  {
    var d := data[i];
    var countryCode := PropertyKey(d.countryCode);
    r := m;
    if countryCode !in r {
      r := r[countryCode := LowestFree(r)];
    }
    data[i] := d.(seriesColor := Some(r[countryCode]));
  }

  /** The second loop of setSeriesColor: in data order, gives each country
      without an entry the lowest free index and writes every series'
      colour. */
  method AssignSlots(m: SlotMap, data: array<Series>) returns (r: SlotMap)
    modifies data
    ensures r == AssignAll(m, Keys(old(data[..])))
    ensures forall i :: 0 <= i < data.Length ==>
      PropertyKey(old(data[i]).countryCode) in r &&
      data[i] == old(data[i]).(seriesColor := Some(r[PropertyKey(old(data[i]).countryCode)]))
  {
    ghost var shownData := data[..];
    ghost var keys := Keys(shownData);
    r := m;
    var i := 0;
    while i < data.Length
      invariant 0 <= i <= data.Length
      invariant r == AssignAll(m, keys[..i])
      invariant forall k :: i <= k < data.Length ==> data[k] == shownData[k]
      invariant forall k :: 0 <= k < i ==> keys[k] in r
      invariant forall k :: 0 <= k < i ==> data[k] == shownData[k].(seriesColor := Some(r[keys[k]]))
    {
      assert keys[..i + 1][..i] == keys[..i];
      AssignOneKeeps(r, keys[i]);
      r := ColorSeriesAt(r, data, i);
      i := i + 1;
    }
    assert keys[..i] == keys;
  }

  /** The colour map of the chart: `plot.seriesColorMap`, kept across
      refreshes. */
  class SeriesColorMap {
    var slots: SlotMap

    ghost predicate Valid()
      reads this
    {
      ValidSlots(slots)
    }

    constructor ()
      ensures Valid() && slots == map[]
    {
      slots := map[];
    }

    /** The first loop of setSeriesColor: deletes the entry of every
        country no series of `data` shows. */
    method FreeHiddenSlots(data: array<Series>)
      modifies this
      ensures slots == Prune(old(slots), data[..])
    {
      var keys := slots.Keys;
      while keys != {}
        invariant keys <= old(slots).Keys
        invariant forall k :: k in slots <==> k in old(slots) && (k in keys || Shown(data[..], k))
        invariant forall k :: k in slots ==> slots[k] == old(slots)[k]
        decreases keys
      {
        var p :| p in keys;
        var found := exists i :: 0 <= i < data.Length && data[i].countryCode == Some(p);
        assert found == Shown(data[..], p) by {
          if Shown(data[..], p) {
            var i :| 0 <= i < data.Length && data[..][i].countryCode == Some(p);
            assert data[i] == data[..][i];
          }
        }
        if !found {
          slots := map k | k in slots && k != p :: slots[k];
        }
        keys := keys - {p};
      }
    }

    /** setSeriesColor: frees the slots of countries no longer shown, gives
        each new country the lowest free index and writes every series'
        colour. */
    method SetSeriesColor(data: array<Series>)
      requires Valid()
      modifies this, data
      ensures Valid()
      ensures slots == AssignAll(Prune(old(slots), old(data[..])), Keys(old(data[..])))
      ensures forall i :: 0 <= i < data.Length ==>
        PropertyKey(old(data[i]).countryCode) in slots &&
        data[i] == old(data[i]).(seriesColor := Some(slots[PropertyKey(old(data[i]).countryCode)]))
    {
      FreeHiddenSlots(data);
      PruneValid(old(slots), data[..]);
      AssignAllValid(slots, Keys(data[..]));
      slots := AssignSlots(slots, data);
    }
  }
}
