/**
 * The world-city grid: a fixed table of fifty cities, grouped into one
 * bucket per region by a single pass over the table, and displayed region by
 * region in a fixed order.
 */
module CityGrid {

  datatype City = City(name: string, timezone: string, region: string)

  /*
   * The table, written as the seven runs of consecutive entries that share a
   * region; `Cities` joins them back in the table's order.
   */

  const NorthAmericanCities: seq<City> := [
    City("New York", "America/New_York", "North America"),
    City("Los Angeles", "America/Los_Angeles", "North America"),
    City("Chicago", "America/Chicago", "North America"),
    City("Toronto", "America/Toronto", "North America"),
    City("Mexico City", "America/Mexico_City", "North America"),
    City("Vancouver", "America/Vancouver", "North America")
  ]

  const EuropeanCities: seq<City> := [
    City("London", "Europe/London", "Europe"),
    City("Paris", "Europe/Paris", "Europe"),
    City("Berlin", "Europe/Berlin", "Europe"),
    City("Rome", "Europe/Rome", "Europe"),
    City("Madrid", "Europe/Madrid", "Europe"),
    City("Amsterdam", "Europe/Amsterdam", "Europe"),
    City("Zurich", "Europe/Zurich", "Europe"),
    City("Moscow", "Europe/Moscow", "Europe"),
    City("Istanbul", "Europe/Istanbul", "Europe")
  ]

  const MiddleEasternCities: seq<City> := [
    City("Dubai", "Asia/Dubai", "Middle East"),
    City("Tel Aviv", "Asia/Tel_Aviv", "Middle East"),
    City("Riyadh", "Asia/Riyadh", "Middle East")
  ]

  const AsianCities: seq<City> := [
    City("Tokyo", "Asia/Tokyo", "Asia"),
    City("Shanghai", "Asia/Shanghai", "Asia"),
    City("Hong Kong", "Asia/Hong_Kong", "Asia"),
    City("Singapore", "Asia/Singapore", "Asia"),
    City("Seoul", "Asia/Seoul", "Asia"),
    City("Bangkok", "Asia/Bangkok", "Asia"),
    City("Mumbai", "Asia/Kolkata", "Asia"),
    City("Delhi", "Asia/Kolkata", "Asia"),
    City("Jakarta", "Asia/Jakarta", "Asia"),
    City("Manila", "Asia/Manila", "Asia"),
    City("Taipei", "Asia/Taipei", "Asia"),
    City("Kuala Lumpur", "Asia/Kuala_Lumpur", "Asia")
  ]

  const OceanianCities: seq<City> := [
    City("Sydney", "Australia/Sydney", "Oceania"),
    City("Melbourne", "Australia/Melbourne", "Oceania"),
    City("Brisbane", "Australia/Brisbane", "Oceania"),
    City("Perth", "Australia/Perth", "Oceania"),
    City("Auckland", "Pacific/Auckland", "Oceania"),
    City("Wellington", "Pacific/Auckland", "Oceania"),
    City("Fiji", "Pacific/Fiji", "Oceania"),
    City("Honolulu", "Pacific/Honolulu", "Oceania")
  ]

  const SouthAmericanCities: seq<City> := [
    City("São Paulo", "America/Sao_Paulo", "South America"),
    City("Rio de Janeiro", "America/Sao_Paulo", "South America"),
    City("Buenos Aires", "America/Argentina/Buenos_Aires", "South America"),
    City("Santiago", "America/Santiago", "South America"),
    City("Lima", "America/Lima", "South America"),
    City("Bogotá", "America/Bogota", "South America")
  ]

  const AfricanCities: seq<City> := [
    City("Cairo", "Africa/Cairo", "Africa"),
    City("Johannesburg", "Africa/Johannesburg", "Africa"),
    City("Lagos", "Africa/Lagos", "Africa"),
    City("Nairobi", "Africa/Nairobi", "Africa"),
    City("Casablanca", "Africa/Casablanca", "Africa"),
    City("Accra", "Africa/Accra", "Africa")
  ]

  /** The fifty cities of the grid, in table order. */
  const Cities: seq<City> :=
    NorthAmericanCities + EuropeanCities + MiddleEasternCities + AsianCities
    + OceanianCities + SouthAmericanCities + AfricanCities

  /** The order in which regions are displayed. */
  const RegionOrder: seq<string> :=
    ["North America", "South America", "Europe", "Africa", "Middle East", "Asia", "Oceania"]

  /** The cities of one region, in the order they appear in cities. */
  function InRegion(cities: seq<City>, region: string): seq<City>
  {
    if cities == [] then []
    else
      var last := cities[|cities| - 1];
      InRegion(cities[..|cities| - 1], region) + (if last.region == region then [last] else [])
  }

  function RegionsOf(cities: seq<City>): set<string> {
    set c | c in cities :: c.region
  }

  /** The buckets the reduce builds: one per region that occurs, holding that region's cities. */
  function Grouped(cities: seq<City>): map<string, seq<City>> {
    map r | r in RegionsOf(cities) :: InRegion(cities, r)
  }

  /**
   * `cities.reduce(...)`: one pass over the list that creates a region's
   * bucket the first time the region is met and appends each city to the
   * bucket of its region.
   */
  method GroupByRegion(cities: seq<City>) returns (acc: map<string, seq<City>>)
    ensures acc == Grouped(cities)
  {
    acc := map[];
    var i := 0;
    while i < |cities|
      invariant 0 <= i <= |cities|
      invariant acc.Keys == RegionsOf(cities[..i])
      invariant forall r :: r in acc ==> acc[r] == InRegion(cities[..i], r)
    {
      var city := cities[i];
      assert cities[..i + 1][..i] == cities[..i];
      if city.region !in acc {
        InRegionAbsent(cities[..i], city.region);
        acc := acc[city.region := []];
      }
      acc := acc[city.region := acc[city.region] + [city]];
      i := i + 1;
    }
    assert cities[..i] == cities;
  }

  /** `groupedCities[region]?.map(...)`: a region without a bucket shows no city. */
  function RegionCities(grouped: map<string, seq<City>>, region: string): (shown: seq<City>)
    ensures region !in grouped ==> shown == []
    ensures region in grouped ==> shown == grouped[region]
  {
    if region in grouped then grouped[region] else []
  }

  /** The cities the grid shows, region after region in the given order. */
  function Displayed(grouped: map<string, seq<City>>, order: seq<string>): (r: seq<City>)
    ensures forall c :: c in r <==> exists k :: 0 <= k < |order| && c in RegionCities(grouped, order[k])
  {
    if order == [] then []
    else
      var rest := Displayed(grouped, order[1..]);
      assert forall k :: 0 < k < |order| ==> order[k] == order[1..][k - 1];
      RegionCities(grouped, order[0]) + rest
  }

  predicate DistinctRegions(order: seq<string>) {
    forall i, j :: 0 <= i < j < |order| ==> order[i] != order[j]
  }

  predicate DistinctNames(cities: seq<City>) {
    forall i, j :: 0 <= i < j < |cities| ==> cities[i].name != cities[j].name
  }

  predicate NamesDisjoint(a: seq<City>, b: seq<City>) {
    forall i, j :: 0 <= i < |a| && 0 <= j < |b| ==> a[i].name != b[j].name
  }

  /** a is b with some elements left out, the rest kept in order. */
  predicate IsSubsequence(a: seq<City>, b: seq<City>)
    decreases |b|
  {
    if a == [] then true
    else if b == [] then false
    else if a[|a| - 1] == b[|b| - 1] then IsSubsequence(a[..|a| - 1], b[..|b| - 1])
    else IsSubsequence(a, b[..|b| - 1])
  }

  /** A region that no city has gets an empty filter. */
  lemma {:induction false} InRegionAbsent(cities: seq<City>, region: string)
    requires region !in RegionsOf(cities)
    ensures InRegion(cities, region) == []
  {
    if cities != [] {
      InRegionAbsent(cities[..|cities| - 1], region);
    }
  }

  /** A bucket holds exactly the cities of its region. */
  lemma {:induction false} InRegionMembers(cities: seq<City>, region: string)
    ensures forall c :: c in InRegion(cities, region) <==> c in cities && c.region == region
  {
    if cities != [] {
      var init := cities[..|cities| - 1];
      InRegionMembers(init, region);
      assert cities == init + [cities[|cities| - 1]];
    }
  }

  /** A bucket keeps the relative order of the list. */
  lemma {:induction false} InRegionKeepsOrder(cities: seq<City>, region: string)
    ensures IsSubsequence(InRegion(cities, region), cities)
  {
    if cities != [] {
      var init := cities[..|cities| - 1];
      var last := cities[|cities| - 1];
      InRegionKeepsOrder(init, region);
      if last.region == region {
        var b := InRegion(cities, region);
        assert b[..|b| - 1] == InRegion(init, region);
      } else {
        var b := InRegion(init, region);
        assert InRegion(cities, region) == b;
        if b != [] {
          InRegionMembers(init, region);
          assert b[|b| - 1] in b;
        }
      }
    }
  }

  /** How often a city occurs in its region's bucket: as often as in the list; in any other, never. */
  lemma {:induction false} InRegionCount(cities: seq<City>, region: string, c: City)
    ensures multiset(InRegion(cities, region))[c] == if c.region == region then multiset(cities)[c] else 0
  {
    if cities != [] {
      var init := cities[..|cities| - 1];
      InRegionCount(init, region, c);
      assert cities == init + [cities[|cities| - 1]];
    }
  }

  /** Every city lies in the bucket keyed by its own region, and every bucket holds only its region's cities. */
  lemma EveryCityInOwnBucket(cities: seq<City>)
    ensures forall c :: c in cities ==> c.region in Grouped(cities) && c in Grouped(cities)[c.region]
    ensures forall r, c :: r in Grouped(cities) && c in Grouped(cities)[r] ==> c.region == r
  {
    forall r | r in RegionsOf(cities) {
      InRegionMembers(cities, r);
    }
  }

  /** Within each bucket, cities keep their relative order from the list. */
  lemma BucketsKeepOrder(cities: seq<City>)
    ensures forall r :: r in Grouped(cities) ==> IsSubsequence(Grouped(cities)[r], cities)
  {
    forall r | r in Grouped(cities) {
      InRegionKeepsOrder(cities, r);
    }
  }

  /** Displaying a region of the grouped list shows that region's filter, bucket or not. */
  lemma GroupedRegion(cities: seq<City>, region: string)
    ensures RegionCities(Grouped(cities), region) == InRegion(cities, region)
  {
    if region !in RegionsOf(cities) {
      InRegionAbsent(cities, region);
    }
  }

  /** The tail of a duplicate-free region order is duplicate-free and lacks the head. */
  lemma DistinctRegionsTail(order: seq<string>)
    requires order != [] && DistinctRegions(order)
    ensures DistinctRegions(order[1..]) && order[0] !in order[1..]
  {
    forall i, j | 0 <= i < j < |order[1..]| ensures order[1..][i] != order[1..][j] {
      assert order[1..][i] == order[i + 1] && order[1..][j] == order[j + 1];
    }
  }

  /**
   * Walking a duplicate-free region order shows a city as often as the list
   * holds it when its region is listed, and never otherwise.
   */
  lemma {:induction false} DisplayedCount(cities: seq<City>, order: seq<string>, c: City)
    requires DistinctRegions(order)
    ensures multiset(Displayed(Grouped(cities), order))[c]
         == if c.region in order then multiset(cities)[c] else 0
  {
    if order != [] {
      var r := order[0];
      DistinctRegionsTail(order);
      DisplayedCount(cities, order[1..], c);
      InRegionCount(cities, r, c);
      GroupedRegion(cities, r);
      assert Displayed(Grouped(cities), order)
        == InRegion(cities, r) + Displayed(Grouped(cities), order[1..]);
      assert c.region in order <==> c.region == r || c.region in order[1..];
    }
  }

  /**
   * When every region of the list is displayed, and no region twice, the
   * grid shows a permutation of the list: no city is dropped or repeated.
   */
  lemma DisplayedIsPermutation(cities: seq<City>, order: seq<string>)
    requires forall i :: 0 <= i < |cities| ==> cities[i].region in order
    requires DistinctRegions(order)
    ensures multiset(Displayed(Grouped(cities), order)) == multiset(cities)
    ensures |Displayed(Grouped(cities), order)| == |cities|
  {
    var shown := Displayed(Grouped(cities), order);
    forall c ensures multiset(shown)[c] == multiset(cities)[c] {
      DisplayedCount(cities, order, c);
      if c in cities {
        var i :| 0 <= i < |cities| && cities[i] == c;
      }
    }
    assert multiset(shown) == multiset(cities);
    assert |multiset(shown)| == |shown| && |multiset(cities)| == |cities|;
  }

  lemma {:induction false} DistinctNamesConcat(a: seq<City>, b: seq<City>)
    requires DistinctNames(a) && DistinctNames(b) && NamesDisjoint(a, b)
    ensures DistinctNames(a + b)
  {
    forall i, j | 0 <= i < j < |a + b| ensures (a + b)[i].name != (a + b)[j].name {
      if j < |a| {
      } else if i < |a| {
        assert (a + b)[j] == b[j - |a|];
      } else {
        assert (a + b)[i] == b[i - |a|] && (a + b)[j] == b[j - |a|];
      }
    }
  }

  lemma {:induction false} NamesDisjointConcat(a: seq<City>, b: seq<City>, c: seq<City>)
    requires NamesDisjoint(a, c) && NamesDisjoint(b, c)
    ensures NamesDisjoint(a + b, c)
  {
    forall i, j | 0 <= i < |a + b| && 0 <= j < |c| ensures (a + b)[i].name != c[j].name {
      if i >= |a| {
        assert (a + b)[i] == b[i - |a|];
      }
    }
  }

  /** Each run of the table lies in one region. */
  predicate AllInRegion(cities: seq<City>, region: string) {
    forall i :: 0 <= i < |cities| ==> cities[i].region == region
  }

  /** The table has fifty cities, each region of it is displayed, and the region order has no repeat. */
  lemma CityTableFacts()
    ensures |Cities| == 50
    ensures forall i :: 0 <= i < |Cities| ==> Cities[i].region in RegionOrder
    ensures DistinctRegions(RegionOrder)
  {
    assert AllInRegion(NorthAmericanCities, "North America");
    assert AllInRegion(EuropeanCities, "Europe");
    assert AllInRegion(MiddleEasternCities, "Middle East");
    assert AllInRegion(AsianCities, "Asia");
    assert AllInRegion(OceanianCities, "Oceania");
    assert AllInRegion(SouthAmericanCities, "South America");
    assert AllInRegion(AfricanCities, "Africa");
  }

  /*
   * No two runs of the table share a name. Each pair of runs is its own
   * lemma so that each solver query stays small.
   */

  lemma EuropeanApartFromNorthAmerican() ensures NamesDisjoint(NorthAmericanCities, EuropeanCities) {}

  lemma MiddleEasternApartFromNorthAmerican() ensures NamesDisjoint(NorthAmericanCities, MiddleEasternCities) {}
  lemma MiddleEasternApartFromEuropean() ensures NamesDisjoint(EuropeanCities, MiddleEasternCities) {}

  lemma AsianApartFromNorthAmerican() ensures NamesDisjoint(NorthAmericanCities, AsianCities) {}
  lemma AsianApartFromEuropean() ensures NamesDisjoint(EuropeanCities, AsianCities) {}
  lemma AsianApartFromMiddleEastern() ensures NamesDisjoint(MiddleEasternCities, AsianCities) {}

  lemma OceanianApartFromNorthAmerican() ensures NamesDisjoint(NorthAmericanCities, OceanianCities) {}
  lemma OceanianApartFromEuropean() ensures NamesDisjoint(EuropeanCities, OceanianCities) {}
  lemma OceanianApartFromMiddleEastern() ensures NamesDisjoint(MiddleEasternCities, OceanianCities) {}
  lemma OceanianApartFromAsian() ensures NamesDisjoint(AsianCities, OceanianCities) {}

  lemma SouthAmericanApartFromNorthAmerican() ensures NamesDisjoint(NorthAmericanCities, SouthAmericanCities) {}
  lemma SouthAmericanApartFromEuropean() ensures NamesDisjoint(EuropeanCities, SouthAmericanCities) {}
  lemma SouthAmericanApartFromMiddleEastern() ensures NamesDisjoint(MiddleEasternCities, SouthAmericanCities) {}
  lemma SouthAmericanApartFromAsian() ensures NamesDisjoint(AsianCities, SouthAmericanCities) {}
  lemma SouthAmericanApartFromOceanian() ensures NamesDisjoint(OceanianCities, SouthAmericanCities) {}

  lemma AfricanApartFromNorthAmerican() ensures NamesDisjoint(NorthAmericanCities, AfricanCities) {}
  lemma AfricanApartFromEuropean() ensures NamesDisjoint(EuropeanCities, AfricanCities) {}
  lemma AfricanApartFromMiddleEastern() ensures NamesDisjoint(MiddleEasternCities, AfricanCities) {}
  lemma AfricanApartFromAsian() ensures NamesDisjoint(AsianCities, AfricanCities) {}
  lemma AfricanApartFromOceanian() ensures NamesDisjoint(OceanianCities, AfricanCities) {}
  lemma AfricanApartFromSouthAmerican() ensures NamesDisjoint(SouthAmericanCities, AfricanCities) {}

  /** No name of EuropeanCities occurs in an earlier run of the table. */
  lemma EuropeanNamesNew()
    ensures DistinctNames(EuropeanCities)
    ensures NamesDisjoint(NorthAmericanCities, EuropeanCities)
  {
    EuropeanApartFromNorthAmerican();
  }

  /** No name of MiddleEasternCities occurs in an earlier run of the table. */
  lemma MiddleEasternNamesNew()
    ensures DistinctNames(MiddleEasternCities)
    ensures NamesDisjoint(NorthAmericanCities + EuropeanCities, MiddleEasternCities)
  {
    MiddleEasternApartFromNorthAmerican();
    MiddleEasternApartFromEuropean();
    NamesDisjointConcat(NorthAmericanCities, EuropeanCities, MiddleEasternCities);
  }

  /** No name of AsianCities occurs in an earlier run of the table. */
  lemma AsianNamesNew()
    ensures DistinctNames(AsianCities)
    ensures NamesDisjoint(NorthAmericanCities + EuropeanCities + MiddleEasternCities, AsianCities)
  {
    AsianApartFromNorthAmerican();
    AsianApartFromEuropean();
    AsianApartFromMiddleEastern();
    NamesDisjointConcat(NorthAmericanCities, EuropeanCities, AsianCities);
    NamesDisjointConcat(NorthAmericanCities + EuropeanCities, MiddleEasternCities, AsianCities);
  }

  /** No name of OceanianCities occurs in an earlier run of the table. */
  lemma OceanianNamesNew()
    ensures DistinctNames(OceanianCities)
    ensures NamesDisjoint(NorthAmericanCities + EuropeanCities + MiddleEasternCities + AsianCities, OceanianCities)
  {
    OceanianApartFromNorthAmerican();
    OceanianApartFromEuropean();
    OceanianApartFromMiddleEastern();
    OceanianApartFromAsian();
    NamesDisjointConcat(NorthAmericanCities, EuropeanCities, OceanianCities);
    NamesDisjointConcat(NorthAmericanCities + EuropeanCities, MiddleEasternCities, OceanianCities);
    NamesDisjointConcat(NorthAmericanCities + EuropeanCities + MiddleEasternCities, AsianCities, OceanianCities);
  }

  /** No name of SouthAmericanCities occurs in an earlier run of the table. */
  lemma SouthAmericanNamesNew()
    ensures DistinctNames(SouthAmericanCities)
    ensures NamesDisjoint(NorthAmericanCities + EuropeanCities + MiddleEasternCities + AsianCities + OceanianCities, SouthAmericanCities)
  {
    SouthAmericanApartFromNorthAmerican();
    SouthAmericanApartFromEuropean();
    SouthAmericanApartFromMiddleEastern();
    SouthAmericanApartFromAsian();
    SouthAmericanApartFromOceanian();
    NamesDisjointConcat(NorthAmericanCities, EuropeanCities, SouthAmericanCities);
    NamesDisjointConcat(NorthAmericanCities + EuropeanCities, MiddleEasternCities, SouthAmericanCities);
    NamesDisjointConcat(NorthAmericanCities + EuropeanCities + MiddleEasternCities, AsianCities, SouthAmericanCities);
    NamesDisjointConcat(NorthAmericanCities + EuropeanCities + MiddleEasternCities + AsianCities, OceanianCities, SouthAmericanCities);
  }

  /** No name of AfricanCities occurs in an earlier run of the table. */
  lemma AfricanNamesNew()
    ensures DistinctNames(AfricanCities)
    ensures NamesDisjoint(NorthAmericanCities + EuropeanCities + MiddleEasternCities + AsianCities + OceanianCities + SouthAmericanCities, AfricanCities)
  {
    AfricanApartFromNorthAmerican();
    AfricanApartFromEuropean();
    AfricanApartFromMiddleEastern();
    AfricanApartFromAsian();
    AfricanApartFromOceanian();
    AfricanApartFromSouthAmerican();
    NamesDisjointConcat(NorthAmericanCities, EuropeanCities, AfricanCities);
    NamesDisjointConcat(NorthAmericanCities + EuropeanCities, MiddleEasternCities, AfricanCities);
    NamesDisjointConcat(NorthAmericanCities + EuropeanCities + MiddleEasternCities, AsianCities, AfricanCities);
    NamesDisjointConcat(NorthAmericanCities + EuropeanCities + MiddleEasternCities + AsianCities, OceanianCities, AfricanCities);
    NamesDisjointConcat(NorthAmericanCities + EuropeanCities + MiddleEasternCities + AsianCities + OceanianCities, SouthAmericanCities, AfricanCities);
  }

  lemma NorthAmericanNamesDistinct() ensures DistinctNames(NorthAmericanCities) {}

  /** No two cities of the table share a name, so names can key the cards. */
  lemma CityNamesDistinct()
    ensures DistinctNames(Cities)
  {
    NorthAmericanNamesDistinct();
    EuropeanNamesNew();
    DistinctNamesConcat(NorthAmericanCities, EuropeanCities);
    MiddleEasternNamesNew();
    DistinctNamesConcat(NorthAmericanCities + EuropeanCities, MiddleEasternCities);
    AsianNamesNew();
    DistinctNamesConcat(NorthAmericanCities + EuropeanCities + MiddleEasternCities, AsianCities);
    OceanianNamesNew();
    DistinctNamesConcat(NorthAmericanCities + EuropeanCities + MiddleEasternCities + AsianCities, OceanianCities);
    SouthAmericanNamesNew();
    DistinctNamesConcat(NorthAmericanCities + EuropeanCities + MiddleEasternCities + AsianCities + OceanianCities, SouthAmericanCities);
    AfricanNamesNew();
    DistinctNamesConcat(NorthAmericanCities + EuropeanCities + MiddleEasternCities + AsianCities + OceanianCities + SouthAmericanCities, AfricanCities);
  }

  /** The grid shows all fifty cities of the table, each once. */
  lemma GridShowsEveryCity()
    ensures multiset(Displayed(Grouped(Cities), RegionOrder)) == multiset(Cities)
    ensures |Displayed(Grouped(Cities), RegionOrder)| == 50
  {
    CityTableFacts();
    DisplayedIsPermutation(Cities, RegionOrder);
  }
}
