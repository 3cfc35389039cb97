/** How `convert_to_global_countries` picks a country's name: the first
    truthy value of a fixed chain of property keys, `or`-ed together. */
module CountryNames {
  import opened Records

  /** The keys tried, in priority order. */
  const NameKeys: seq<string> := ["NAME", "name", "NAME_LONG", "ADMIN", "admin", "NAME_EN", "NAME_ENGLISH"]

  /** The last operand of the `or` chain. */
  const UnknownCountry: string := "Unknown Country"

  /** Python truthiness of `properties.get(key)` for a string value. */
  predicate Truthy(props: Properties, key: string)
  {
    key in props && props[key] != ""
  }

  /** `props.get(keys[0]) or props.get(keys[1]) or ... or fallback`. */
  function FirstTruthy(props: Properties, keys: seq<string>, fallback: string): (r: string)
    ensures (forall i :: 0 <= i < |keys| ==> !Truthy(props, keys[i])) ==> r == fallback
    ensures forall i ::
      (0 <= i < |keys| && Truthy(props, keys[i]) && forall j :: 0 <= j < i ==> !Truthy(props, keys[j]))
      ==> r == props[keys[i]]
    ensures r == fallback || exists i :: 0 <= i < |keys| && Truthy(props, keys[i]) && r == props[keys[i]]
  {
    if |keys| == 0 then fallback
    else if Truthy(props, keys[0]) then props[keys[0]]
    else
      var r := FirstTruthy(props, keys[1..], fallback);
      assert forall i :: 0 < i < |keys| ==> keys[1..][i - 1] == keys[i];
      r
  }

  /** The country name: never empty, the value of the first key in
      `NameKeys` whose value is non-empty, and "Unknown Country" when there
      is none. */
  function CountryName(props: Properties): (name: string)
    ensures |name| > 0
    ensures (forall i :: 0 <= i < |NameKeys| ==> !Truthy(props, NameKeys[i])) ==> name == UnknownCountry
    ensures forall i ::
      (0 <= i < |NameKeys| && Truthy(props, NameKeys[i]) && forall j :: 0 <= j < i ==> !Truthy(props, NameKeys[j]))
      ==> name == props[NameKeys[i]]
  {
    FirstTruthy(props, NameKeys, UnknownCountry)
  }

  /** Only the seven name keys matter: properties that agree on them give
      the same name, whatever else they hold. */
  lemma {:induction false} CountryNameOnlyReadsNameKeys(p1: Properties, p2: Properties)
    requires forall i :: 0 <= i < |NameKeys| ==>
      (NameKeys[i] in p1 <==> NameKeys[i] in p2) &&
      (NameKeys[i] in p1 ==> p1[NameKeys[i]] == p2[NameKeys[i]])
    ensures CountryName(p1) == CountryName(p2)
  {
    FirstTruthyOnlyReadsKeys(p1, p2, NameKeys, UnknownCountry);
  }

  lemma {:induction false} FirstTruthyOnlyReadsKeys(p1: Properties, p2: Properties, keys: seq<string>, fallback: string)
    requires forall i :: 0 <= i < |keys| ==>
      (keys[i] in p1 <==> keys[i] in p2) && (keys[i] in p1 ==> p1[keys[i]] == p2[keys[i]])
    ensures FirstTruthy(p1, keys, fallback) == FirstTruthy(p2, keys, fallback)
    decreases |keys|
  {
    if |keys| > 0 {
      assert Truthy(p1, keys[0]) <==> Truthy(p2, keys[0]);
      FirstTruthyOnlyReadsKeys(p1, p2, keys[1..], fallback);
    }
  }
}
