/** The input features and the output records of `convert_to_global_countries`
    in download_countries.py. */
module Records {
  import opened Geometry

  /** Feature property values. Only string values are modelled; a JSON null
      value is the same as a missing key for every lookup the converter does. */
  type Properties = map<string, string>

  /** The `properties` member of a feature. A feature without one reads as
      `PropertiesObject(map[])`, the `{}` default of the source. */
  datatype PropertiesMember = NullProperties | PropertiesObject(values: Properties)

  /** A GeoJSON feature (section 3.2 of RFC 7946). A feature without a
      `geometry` member carries `EmptyGeometry`, the `{}` default. */
  datatype Feature<P, V> = Feature(properties: PropertiesMember, geometry: Geometry<P, V>)

  /** One entry of globalCountries.json. `position` is the (`lat`, `lng`) pair. */
  datatype Country<P, V, C> = Country(
    name: string,
    position: C,
    category: string,
    status: string,
    visited: bool,
    geometry: Geometry<P, V>,
    notes: string,
    imageUrl: string)

  const CountriesCategory: string := "Countries to Visit"
  const BucketListStatus: string := "bucket_list"
}
