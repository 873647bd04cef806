/** Corpus selection in `generateFromCountries`: the names of the cities
    whose country code is one of the requested codes, in dataset order. */
module Cities {

  /** The two fields of a geonames city record that the selection reads;
      the record's other fields play no part in it. */
  datatype City = City(name: string, countryCode: string)

  /** `cities.filter((city) => countryCodes.includes(city.country_code))
      .map((city) => city.name)`. */
  function SelectByCountries(cities: seq<City>, countryCodes: seq<string>): (names: seq<string>)
    ensures |names| <= |cities|
    ensures forall n :: n in names <==>
              exists c :: c in cities && c.countryCode in countryCodes && c.name == n
  {
    if |cities| == 0 then []
    else
      var head := if cities[0].countryCode in countryCodes then [cities[0].name] else [];
      var rest := SelectByCountries(cities[1..], countryCodes);
      assert forall c :: c in cities <==> c == cities[0] || c in cities[1..] by {
        assert cities == [cities[0]] + cities[1..];
      }
      head + rest
  }

  /** Selection distributes over concatenation: the names from a
      concatenation are the names from each part, in order. Together with
      `SelectOne` this determines the result completely. */
  lemma {:induction false} SelectDistributes(a: seq<City>, b: seq<City>, countryCodes: seq<string>)
    ensures SelectByCountries(a + b, countryCodes)
         == SelectByCountries(a, countryCodes) + SelectByCountries(b, countryCodes)
    decreases |a|
  {
    if |a| == 0 {
      assert a + b == b;
    } else {
      assert (a + b)[1..] == a[1..] + b;
      SelectDistributes(a[1..], b, countryCodes);
    }
  }

  /** A single city contributes its name exactly when its code is requested. */
  lemma SelectOne(c: City, countryCodes: seq<string>)
    ensures c.countryCode in countryCodes ==> SelectByCountries([c], countryCodes) == [c.name]
    ensures c.countryCode !in countryCodes ==> SelectByCountries([c], countryCodes) == []
  {
    assert [c][1..] == [];
  }

  /** When every city is from a requested country, the result is every
      name, position by position. */
  lemma {:induction false} SelectAllRequested(cities: seq<City>, countryCodes: seq<string>)
    requires forall i :: 0 <= i < |cities| ==> cities[i].countryCode in countryCodes
    ensures |SelectByCountries(cities, countryCodes)| == |cities|
    ensures forall i :: 0 <= i < |cities| ==> SelectByCountries(cities, countryCodes)[i] == cities[i].name
  {
    if |cities| > 0 {
      SelectAllRequested(cities[1..], countryCodes);
      assert cities[0].countryCode in countryCodes;
    }
  }

  /** With no requested country nothing is selected. */
  lemma {:induction false} SelectNoCountries(cities: seq<City>, countryCodes: seq<string>)
    requires |countryCodes| == 0
    ensures SelectByCountries(cities, countryCodes) == []
  {
    if |cities| > 0 {
      SelectNoCountries(cities[1..], countryCodes);
    }
  }
}
