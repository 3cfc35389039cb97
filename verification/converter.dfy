/** `convert_to_global_countries` in download_countries.py: one record per
    feature, built from the name chain, the simplified geometry, the marker
    position and constant fields, then sorted by name. */
module Converter {
  import opened Decimation
  import opened Geometry
  import opened Records
  import opened CountryNames
  import opened NameOrder
  import opened CountrySort

  /** The properties a feature's name is read from; a null `properties`
      member reads as `{}`, like a missing one. This is the corrected
      converter; the code as written stops there (`ConvertAsWritten`). */
  function PropertiesOf<P, V>(f: Feature<P, V>): Properties
  {
    match f.properties
    case NullProperties => map[]
    case PropertiesObject(values) => values
  }

  /** The record built for one feature. The position is averaged from the
      geometry as given, the stored geometry is the simplified one. */
  function ToCountry<P, V, C>(f: Feature<P, V>, average: Ring<P> -> C, origin: C): (c: Country<P, V, C>)
    ensures |c.name| > 0
    ensures c.category == CountriesCategory && c.status == BucketListStatus && !c.visited
    ensures c.notes == "" && c.imageUrl == ""
    ensures c.geometry == SimplifyGeometry(f.geometry) && SameKind(f.geometry, c.geometry)
    ensures !HasCoordinates(f.geometry) ==> c.position == origin && c.geometry == f.geometry
  {
    Country(
      name := CountryName(PropertiesOf(f)),
      position := Position(f.geometry, average, origin),
      category := CountriesCategory,
      status := BucketListStatus,
      visited := false,
      geometry := SimplifyGeometry(f.geometry),
      notes := "",
      imageUrl := "")
  }

  /** The loop over `features`, before sorting: record i is built from feature i. */
  function ToCountries<P, V, C>(features: seq<Feature<P, V>>, average: Ring<P> -> C, origin: C)
    : (r: seq<Country<P, V, C>>)
    ensures |r| == |features|
    ensures forall i :: 0 <= i < |r| ==> r[i] == ToCountry(features[i], average, origin)
  {
    if |features| == 0 then []
    else [ToCountry(features[0], average, origin)] + ToCountries(features[1..], average, origin)
  }

  /** The converter: exactly one record per feature (the records of the loop,
      permuted), sorted by name, stable among equal names, each with the
      constant fields and built from some feature. This is the corrected
      converter: a null `properties` or `geometry` is read like a missing
      one, so such a feature becomes a record, placed at the origin when it
      has no geometry. The code as written stops instead (`ConvertAsWritten`). */
  function ConvertCountries<P, V, C>(features: seq<Feature<P, V>>, average: Ring<P> -> C, origin: C)
    : (r: seq<Country<P, V, C>>)
    ensures |r| == |features|
    ensures SortedByName(r)
    ensures multiset(r) == multiset(ToCountries(features, average, origin))
    ensures forall n :: Named(r, n) == Named(ToCountries(features, average, origin), n)
    ensures forall c :: c in r ==>
      && c.category == CountriesCategory
      && c.status == BucketListStatus
      && !c.visited
      && c.notes == ""
      && c.imageUrl == ""
      && |c.name| > 0
    ensures forall c :: c in r ==> exists i :: 0 <= i < |features| && c == ToCountry(features[i], average, origin)
  {
    var built := ToCountries(features, average, origin);
    var r := SortByName(built);
    forall c | c in r
      ensures exists i :: 0 <= i < |features| && c == ToCountry(features[i], average, origin)
    {
      assert c in multiset(built);
      var i :| 0 <= i < |built| && built[i] == c;
    }
    r
  }

  /** Each record's geometry is the simplified geometry of a feature that has
      the record's name, and its position was computed from that feature's
      unsimplified geometry. */
  lemma {:induction false} RecordsCarrySimplifiedGeometry<P, V, C>(features: seq<Feature<P, V>>, average: Ring<P> -> C, origin: C)
    ensures forall c :: c in ConvertCountries(features, average, origin) ==>
      exists i :: (0 <= i < |features|
        && c.name == CountryName(PropertiesOf(features[i]))
        && c.geometry == SimplifyGeometry(features[i].geometry)
        && c.position == Position(features[i].geometry, average, origin))
  {
    var r := ConvertCountries(features, average, origin);
    forall c | c in r
      ensures exists i :: (0 <= i < |features|
        && c.name == CountryName(PropertiesOf(features[i]))
        && c.geometry == SimplifyGeometry(features[i].geometry)
        && c.position == Position(features[i].geometry, average, origin))
    {
      var i :| 0 <= i < |features| && c == ToCountry(features[i], average, origin);
    }
  }

  /** Every feature gets a record: for each feature there is a record built
      from it in the output. */
  lemma {:induction false} EveryFeatureConverted<P, V, C>(features: seq<Feature<P, V>>, average: Ring<P> -> C, origin: C)
    ensures forall i :: 0 <= i < |features| ==>
      ToCountry(features[i], average, origin) in ConvertCountries(features, average, origin)
  {
    var built := ToCountries(features, average, origin);
    var r := ConvertCountries(features, average, origin);
    forall i | 0 <= i < |features| ensures ToCountry(features[i], average, origin) in r {
      assert built[i] in multiset(built);
      assert built[i] in multiset(r);
    }
  }

  /** The converter's output is the one list that is sorted by name and keeps
      the loop order among equal names: Python's stable `list.sort` gives
      exactly this list. */
  lemma {:induction false} ConvertIsTheStableSort<P, V, C>(features: seq<Feature<P, V>>, average: Ring<P> -> C, origin: C,
                                        other: seq<Country<P, V, C>>)
    requires SortedByName(other)
    requires forall n :: Named(other, n) == Named(ToCountries(features, average, origin), n)
    ensures other == ConvertCountries(features, average, origin)
  {
    SortedStableUnique(other, ConvertCountries(features, average, origin));
  }

  // ---------------------------------------------------------------------
  // The converter as written: a null `properties` or `geometry` member,
  // both allowed by section 3.2 of RFC 7946, raises AttributeError.

  /** Why the converter as written stops, and at which feature. */
  datatype Crash =
    | NullPropertiesCrash(feature: nat)   // `properties.get('NAME')` on None
    | NullGeometryCrash(feature: nat)     // `geometry.get('coordinates', [])` on None

  datatype Outcome<P, V, C> = Converted(countries: seq<Country<P, V, C>>) | Crashed(crash: Crash)

  /** A member the code as written dereferences without a None check. */
  predicate HasNullMember<P, V>(f: Feature<P, V>)
  {
    f.properties.NullProperties? || f.geometry.NullGeometry?
  }

  /** The index of the first feature with a null member, `|features|` if none. */
  function FirstNull<P, V>(features: seq<Feature<P, V>>): (i: nat)
    ensures i <= |features|
    ensures forall j :: 0 <= j < i ==> !HasNullMember(features[j])
    ensures i < |features| ==> HasNullMember(features[i])
  {
    if |features| == 0 then 0
    else if HasNullMember(features[0]) then 0
    else 1 + FirstNull(features[1..])
  }

  /** `convert_to_global_countries` as written: the loop stops at the first
      feature whose `properties` (checked first) or `geometry` is null;
      otherwise the result is that of `ConvertCountries`. */
  function ConvertAsWritten<P, V, C>(features: seq<Feature<P, V>>, average: Ring<P> -> C, origin: C)
    : (r: Outcome<P, V, C>)
    ensures r.Converted? <==> forall i :: 0 <= i < |features| ==> !HasNullMember(features[i])
    ensures r.Converted? ==> r.countries == ConvertCountries(features, average, origin)
    ensures r.Crashed? ==>
      var i := r.crash.feature;
      && i < |features|
      && HasNullMember(features[i])
      && (forall j :: 0 <= j < i ==> !HasNullMember(features[j]))
      && (r.crash.NullPropertiesCrash? <==> features[i].properties.NullProperties?)
  {
    var i := FirstNull(features);
    if i == |features| then Converted(ConvertCountries(features, average, origin))
    else if features[i].properties.NullProperties? then Crashed(NullPropertiesCrash(i))
    else Crashed(NullGeometryCrash(i))
  }

  /** An unlocated feature (null geometry) stops the code as written, while
      the converter that treats it like a missing geometry places it at the
      origin and keeps the null geometry. */
  lemma NullGeometryCounterexample()
    ensures var features := [Feature(PropertiesObject(map["NAME" := "Atlantis"]), NullGeometry)];
      var average := (ring: seq<int>) => 1;
      && ConvertAsWritten<int, int, int>(features, average, 0) == Crashed(NullGeometryCrash(0))
      && ConvertCountries<int, int, int>(features, average, 0)
         == [Country("Atlantis", 0, CountriesCategory, BucketListStatus, false, NullGeometry, "", "")]
  {
    var features := [Feature(PropertiesObject(map["NAME" := "Atlantis"]), NullGeometry)];
    var average := (ring: seq<int>) => 1;
    var r := ConvertCountries<int, int, int>(features, average, 0);
    assert CountryName(map["NAME" := "Atlantis"]) == "Atlantis" by {
      assert Truthy(map["NAME" := "Atlantis"], NameKeys[0]);
    }
    assert r == SortByName(ToCountries(features, average, 0));
  }

  /** A feature with null properties stops the code as written, while the
      converter that reads them as `{}` names it "Unknown Country". */
  lemma NullPropertiesCounterexample()
    ensures var features := [Feature(NullProperties, EmptyGeometry)];
      var average := (ring: seq<int>) => 1;
      && ConvertAsWritten<int, int, int>(features, average, 0) == Crashed(NullPropertiesCrash(0))
      && ConvertCountries<int, int, int>(features, average, 0)
         == [Country(UnknownCountry, 0, CountriesCategory, BucketListStatus, false, EmptyGeometry, "", "")]
  {
    var features := [Feature(NullProperties, EmptyGeometry)];
    var average := (ring: seq<int>) => 1;
    var r := ConvertCountries<int, int, int>(features, average, 0);
    assert r == SortByName(ToCountries(features, average, 0));
  }
}
