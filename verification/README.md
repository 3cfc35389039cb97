# Country dataset converter — Dafny model

The offline script `download_countries.py` turns a world GeoJSON
FeatureCollection into globalCountries.json (download_countries.py:166-168).
That file is a list of country records. Each record has the `name`, `lat`,
`lng`, `category`, `status` and `notes` fields that the map script reads
from locations.json (script.js:16-42). This project models the script's
pure core and proves properties of it:

- `simplify_coordinates` decimates a ring by its length. Rings of at most
  50 positions are kept whole. Rings of 51 to 100 positions keep every 3rd
  position, and longer rings keep every 2nd (module `Decimation`).
- `simplify_geometry` applies that decimation to every ring of a `Polygon`
  or `MultiPolygon` (sections 3.1.6 and 3.1.7 of RFC 7946). Other geometries
  pass through unchanged (module `Geometry`).
- `convert_to_global_countries` builds one record per feature (modules
  `Records`, `CountryNames`, `Converter`). The name comes from a fixed
  priority chain of property keys. The marker position is averaged from a
  ring that the converter selects from the unsimplified geometry
  (download_countries.py:113-132; `Geometry.CentroidRing`). Category,
  status, visited, notes and image fields are constants. The list is then
  sorted by name with Python's stable sort (modules `NameOrder`,
  `CountrySort`).

Positions are an opaque type parameter `P`, because the simplifier never
computes with them. Members of a geometry other than `type` and
`coordinates`, such as `bbox`, are a map with opaque values `V`. The marker
position `(lat, lng)` has an opaque type `C`. It is produced by a
caller-supplied `average` function from the selected ring, or by `origin`
when there is no ring to average.

The marker position is the plain average of the vertices of the first ring
of the first polygon (download_countries.py:113-132). Other rings and other
polygons of a multipolygon play no part. The model keeps only the choice
of ring.

Two properties are worth knowing:

- Decimation does not keep a ring closed in general. `Decimation.LastSurvivor`
  shows that the closing position survives only when the stride divides
  `n - 1`. For example, a 102-position ring loses its closing position.
- `simplify_geometry` rebuilds a polygon or multipolygon as a fresh object
  holding only `type` and `coordinates`. It therefore drops a `bbox` and any
  foreign members. A polygon with an empty `coordinates` array is returned
  as it came, members included.

## Model

| member | source | states |
|---|---|---|
| `Decimation.Stride` | download_countries.py:40-52 | the step is 1 (everything kept) exactly for rings of at most 50 positions, 2 exactly for rings of more than 100, and 3 in between |
| `Decimation.TakeEvery` | download_countries.py:45-50 | the comprehension over `range(0, len, k)` yields ⌈n/k⌉ positions, and output position j is input position k·j |
| `Decimation.SimplifyCoordinates` | download_countries.py:35-52 | at most 50 positions: returned unchanged; 51–100: exactly the positions at indices 0, 3, 6, … (⌈n/3⌉ of them); over 100: exactly those at 0, 2, 4, … (⌈n/2⌉); never longer than the input and strictly shorter above 50; empty only for empty input; the first position is kept |
| `Decimation.SimplifyKeepsMultiplesOfStride` | download_countries.py:40-52 | the three branches are one rule: keep exactly the indices that are multiples of the stride |
| `Decimation.SimplifyIsSubsequence` | download_countries.py:40-52 | the output is always an order-preserving subsequence of the input |
| `Decimation.LastSurvivor` | download_countries.py:45-50 | a ring of n > 0 positions keeps ⌊(n − 1)/k⌋ + 1 of them for stride k; the last kept position has the largest index below n that is a multiple of the stride, so the ring's closing position survives iff the stride divides n − 1 |
| `Geometry.SimplifyRings` | download_countries.py:62-67 | one output ring per input ring; ring i is the decimation of input ring i |
| `Geometry.SimplifyPolygons` | download_countries.py:72-80 | one output polygon per input polygon, each with as many rings as before; ring j of polygon i is the decimation of the corresponding input ring |
| `Geometry.SimplifyGeometry` | download_countries.py:54-86 | the type tag is always preserved; missing geometry, missing or empty coordinates, and other types are returned unchanged; a polygon or multipolygon keeps its ring and polygon counts, each ring is decimated, and no other members are kept |
| `Geometry.SimplifiedRingsAreSubsequences` | download_countries.py:62-84 | every ring of the simplified geometry is an order-preserving subsequence of its original ring and no longer than it |
| `Geometry.CentroidRing` | download_countries.py:113-132 | the marker is averaged from the first ring of a polygon, or the first ring of the first polygon of a multipolygon, of the unsimplified geometry; in every other case (no geometry, no coordinates, another type, a multipolygon whose first polygon has no rings) there is no ring |
| `Geometry.Position` | download_countries.py:113-132 | a geometry without coordinates, or one without a centroid ring, is placed at (0, 0); otherwise the position is the average of the centroid ring |
| `Geometry.PositionOfSinglePart` | download_countries.py:114-128 | a one-part multipolygon is placed where the polygon with the same rings is, and only the first ring matters |
| `Geometry.CentroidRingAfterSimplify` | download_countries.py:109-118 | the centroid ring of the simplified geometry is the decimated centroid ring: the same for at most 50 positions, strictly shorter above that |
| `NameOrder.NameLeIsLexicographic` | download_countries.py:149 | the name comparison agrees with the textbook lexicographic order by code point: either a is a prefix of b, or a is smaller at the first differing index |
| `NameOrder.NameLeReflexive` | download_countries.py:149 | every name is ≤ itself |
| `NameOrder.NameLeTotal` | download_countries.py:149 | any two names are comparable |
| `NameOrder.NameLeAntisymmetric` | download_countries.py:149 | names that are ≤ each other are equal |
| `NameOrder.NameLeTransitive` | download_countries.py:149 | the name order is transitive |
| `CountryNames.FirstTruthy` | download_countries.py:97-106 | the `or` chain returns the value of the first key whose value is non-empty, and the fallback when there is none |
| `CountryNames.CountryName` | download_countries.py:97-106 | the name is the value of the first of `NAME`, `name`, `NAME_LONG`, `ADMIN`, `admin`, `NAME_EN`, `NAME_ENGLISH` with a non-empty value; otherwise it is "Unknown Country"; it is never empty |
| `CountryNames.CountryNameOnlyReadsNameKeys` | download_countries.py:97-106 | properties that agree on the seven name keys yield the same name |
| `CountrySort.Insert` | download_countries.py:149 | inserting into a sorted list keeps it sorted and adds exactly one record; the new record goes before the records that share its name |
| `CountrySort.SortByName` | download_countries.py:148-149 | the result is sorted by name and is a permutation of the input; records with equal names keep their input order (stability) |
| `CountrySort.SortedStableUnique` | download_countries.py:149 | two lists that are both sorted by name and agree on the records of every name are equal, so any stable sort gives the same result |
| `Converter.ToCountry` | download_countries.py:97-144 | a record always has a non-empty name, the constant category, status, visited, notes and image fields, and the simplified geometry of its feature with the same type tag; a feature without coordinates gives a record at (0, 0) carrying its geometry unchanged |
| `Converter.ToCountries` | download_countries.py:92-146 | the loop builds exactly one record per feature, in feature order |
| `Converter.ConvertCountries` | download_countries.py:88-151 | exactly one record per feature (a permutation of the loop's records), sorted by name, stable among equal names; every record has category "Countries to Visit", status "bucket_list", visited false, empty notes and image URL, and a non-empty name; every record was built from some feature |
| `Converter.RecordsCarrySimplifiedGeometry` | download_countries.py:97-141 | each record carries the chosen name and the simplified geometry of one feature, and its position comes from that feature's unsimplified geometry |
| `Converter.EveryFeatureConverted` | download_countries.py:92-146 | the record built from each feature appears in the output |
| `Converter.ConvertIsTheStableSort` | download_countries.py:148-151 | any list that is sorted by name and keeps loop order among equal names equals the converter's output |
| `Converter.FirstNull` | download_countries.py:92-113 | the index of the first feature with a null `properties` or `geometry`, or the feature count if there is none |
| `Converter.ConvertAsWritten` | download_countries.py:88-151 | the code as written succeeds iff no feature has a null `properties` or `geometry`, and then returns the corrected converter's result; otherwise it stops at the first such feature, reporting properties before geometry |
| `Converter.NullGeometryCounterexample` | download_countries.py:94-113 | a single feature with `"geometry": null` stops the code as written; the corrected converter gives an "Atlantis" record at the origin with a null geometry |
| `Converter.NullPropertiesCounterexample` | download_countries.py:93-98 | a single feature with `"properties": null` stops the code as written; the corrected converter gives an "Unknown Country" record |

## Findings

| source | as written | input that shows it | evidently intended | confidence | as-written member | corrected member |
|---|---|---|---|---|---|---|
| download_countries.py:94-113 | `feature.get('geometry', {})` yields None for `"geometry": null`. `simplify_geometry` checks for that, but line 113 then calls `.get` on None and raises AttributeError, so the whole conversion aborts. | one feature `{"type": "Feature", "properties": {"NAME": "Atlantis"}, "geometry": null}` (an unlocated feature, section 3.2 of RFC 7946) | the feature becomes a record at (0, 0) whose geometry stays null | medium, not executed | `Converter.ConvertAsWritten` with `Converter.NullGeometryCounterexample` | `Converter.ConvertCountries` |
| download_countries.py:93-98 | `feature.get('properties', {})` yields None for `"properties": null`, and `properties.get('NAME')` raises AttributeError | one feature `{"type": "Feature", "properties": null, "geometry": {}}` (section 3.2 of RFC 7946 allows a null `properties`) | the feature is named "Unknown Country", as when `properties` is missing | medium, not executed | `Converter.ConvertAsWritten` with `Converter.NullPropertiesCounterexample` | `Converter.ConvertCountries` |

## Left out

- `download_geojson` (download_countries.py:23-33): a network fetch, JSON decoding and `sys.exit`. The model takes the decoded features as input. A missing `features` member is the empty sequence.
- `main` (download_countries.py:153-173): file writing and console output.
- The centroid arithmetic and `round(…, 6)` (download_countries.py:117-120, 125-128, 136-137). This is floating-point averaging. It is the caller's `average` function, and the (0, 0) fallback is `origin`. Only the choice of ring is modelled.
- The `tolerance` parameter of `simplify_coordinates`: the source never reads it.
- Property values that are not strings. Python truthiness of numbers, lists or booleans is not modelled. A non-string name would also make the sort raise TypeError when compared with a string. A JSON null value is modelled as a missing key.
- Geometries whose `type` does not match the shape of their `coordinates` (e.g. `"Polygon"` with multipolygon nesting). Python would decimate the wrong level or fail. The model's geometry datatype ties the shape to the type.
- Geometry `OtherGeometry` covers every other non-empty geometry object, because all of them pass through unchanged. This includes a `Polygon` or `MultiPolygon` whose `coordinates` member is missing or null.
- Converter.ConvertAsWritten: its "succeeds iff no null `properties` or `geometry`" holds only for inputs the model's types can express. Three other failures of the code as written are outside them. `"features": null` makes the loop at download_countries.py:92 raise TypeError; the model reads the features as a sequence. A feature, `properties` or `geometry` that is a JSON array, number or string makes `.get` at lines 93, 98, 56 or 113 raise AttributeError; the model's datatypes admit only objects and null. A position with fewer than two numbers makes `coord[1]` at line 118 or 126 raise IndexError; positions are opaque here and the arithmetic is the caller's `average`.
- `script.js`: map and tile setup, the `fetch` of locations.json, popup HTML and `fitBounds`. This is UI glue over a library that is not part of this model.
