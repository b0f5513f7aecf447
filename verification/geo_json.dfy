/**
 * GeoJsonService, structurally.
 *
 * JSON values are an abstract datatype; a number is kept as an opaque token
 * (its text), and `json_decode($text, true)` is a parameter of the members
 * that need it, a total function whose JNull result stands both for the JSON
 * literal null and for text that does not decode. Objects decode to PHP
 * associative arrays, arrays to lists; both are PHP arrays.
 */
module GeoJson {
  import opened Wrappers
  import opened PhpString

  datatype Json =
    | JNull
    | JBool(b: bool)
    | JNum(token: string)
    | JStr(s: string)
    | JArr(items: seq<Json>)
    | JObj(members: seq<(string, Json)>)

  /** `is_array` on a decoded value. */
  predicate IsArray(j: Json) {
    j.JArr? || j.JObj?
  }

  /** `count` on a decoded array. */
  function Count(j: Json): nat
    requires IsArray(j)
  {
    if j.JArr? then |j.items| else |j.members|
  }

  /** `$j[$name]` for a string key: the first member so named, or null. */
  function Member(j: Json, name: string): (r: Json)
    ensures !j.JObj? ==> r == JNull
  {
    if j.JObj? then MemberFrom(j.members, name, 0) else JNull
  }

  function MemberFrom(members: seq<(string, Json)>, name: string, i: nat): Json
    decreases |members| - i
  {
    if i >= |members| then JNull
    else if members[i].0 == name then members[i].1
    else MemberFrom(members, name, i + 1)
  }

  /** The first member named `name` at or after position `from` is the one at `i`. */
  lemma {:induction false} MemberFromAt(members: seq<(string, Json)>, name: string, from: nat, i: nat)
    requires from <= i < |members| && members[i].0 == name
    requires forall j :: from <= j < i ==> members[j].0 != name
    ensures MemberFrom(members, name, from) == members[i].1
    decreases i - from
  {
    if from < i {
      MemberFromAt(members, name, from + 1, i);
    }
  }

  /** An object's member lookup finds the first member with that name. */
  lemma MemberAt(members: seq<(string, Json)>, name: string, i: nat)
    requires i < |members| && members[i].0 == name
    requires forall j :: 0 <= j < i ==> members[j].0 != name
    ensures Member(JObj(members), name) == members[i].1
  {
    MemberFromAt(members, name, 0, i);
  }

  /** Decimal text of a natural number, the form PHP gives integer keys of decoded objects. */
  function NatText(n: nat): string
    decreases n
  {
    var d := ['0' + (n % 10) as char];
    if n < 10 then d else NatText(n / 10) + d
  }

  /**
   * `$j[$k]` for an integer key: the list element, or the object member named
   * by the digits of `k`; null otherwise (also for strings: every such read
   * here only reaches `is_array` or `empty`, which a one-byte string
   * offset would not change except for the strings "" and "0", skipped before).
   */
  function Index(j: Json, k: nat): (r: Json)
    ensures j.JArr? && k < |j.items| ==> r == j.items[k]
    ensures j.JArr? && k >= |j.items| ==> r == JNull
    ensures !j.JArr? && !j.JObj? ==> r == JNull
  {
    match j
    case JArr(items) => if k < |items| then items[k] else JNull
    case JObj(members) => MemberFrom(members, NatText(k), 0)
    case _ => JNull
  }

  /** A number token whose value is zero: no non-zero digit before the exponent. */
  predicate ZeroToken(t: string) {
    forall i :: 0 <= i < |Mantissa(t)| ==> Mantissa(t)[i] !in "123456789"
  }

  function Mantissa(t: string): string {
    if |t| == 0 || t[0] == 'e' || t[0] == 'E' then "" else [t[0]] + Mantissa(t[1..])
  }

  /** PHP `empty()` on a decoded value. */
  predicate EmptyValue(j: Json) {
    match j
    case JNull => true
    case JBool(b) => !b
    case JNum(t) => ZeroToken(t)
    case JStr(s) => PhpEmpty(s)
    case JArr(items) => |items| == 0
    case JObj(members) => |members| == 0
  }

  /** A GPS point, longitude and latitude as number tokens. */
  datatype Point = Point(lon: string, lat: string)

  /**
   * The coordinates createPointGeometry reads from "<lat>,<lon>": explode on
   * the comma, exactly two parts, each trimmed (the token stands for the
   * `floatval` of that text).
   */
  function GpsPoint(gps: string): (p: Option<Point>)
    ensures p.Some? <==> Occurrences(gps, ',') == 1
  {
    var parts := Explode(gps, ',');
    if |parts| != 2 then None
    else Some(Point(Trim(parts[1], Blank), Trim(parts[0], Blank)))
  }

  /** The decoded form of a Point geometry: `{type: "Point", coordinates: [lon, lat]}`. */
  function PointValue(p: Point): (j: Json)
    ensures Member(j, "type") == JStr("Point")
    ensures Member(j, "coordinates") == JArr([JNum(p.lon), JNum(p.lat)])
  {
    var members := [("type", JStr("Point")), ("coordinates", JArr([JNum(p.lon), JNum(p.lat)]))];
    MemberAt(members, "type", 0);
    MemberAt(members, "coordinates", 1);
    JObj(members)
  }

  /** The text json_encode gives that Point geometry. */
  function PointText(p: Point): string {
    "{\"type\":\"Point\",\"coordinates\":[" + p.lon + "," + p.lat + "]}"
  }

  /** createPointGeometry: the Point's JSON text, or "" unless the split gives two parts. */
  function CreatePointGeometry(gps: string): (text: string)
    ensures text == "" <==> Occurrences(gps, ',') != 1
  {
    match GpsPoint(gps)
    case Some(p) => PointText(p)
    case None => ""
  }

  /** What json_decode gives back for createPointGeometry's text. */
  function DecodedPoint(gps: string): (j: Json)
    ensures j == JNull <==> CreatePointGeometry(gps) == ""
    ensures j != JNull ==> IsArray(j)
  {
    match GpsPoint(gps)
    case Some(p) => PointValue(p)
    case None => JNull
  }

  /**
   * With exactly one comma, at position `k`, the Point has the text after the
   * comma as longitude and the text before it as latitude: `[lon, lat]`.
   */
  lemma PointSwapsAxes(gps: string, k: nat)
    requires k < |gps| && gps[k] == ',' && Occurrences(gps, ',') == 1
    ensures GpsPoint(gps) == Some(Point(Trim(gps[k + 1..], Blank), Trim(gps[..k], Blank)))
    ensures Member(DecodedPoint(gps), "type") == JStr("Point")
    ensures Member(DecodedPoint(gps), "coordinates")
      == JArr([JNum(Trim(gps[k + 1..], Blank)), JNum(Trim(gps[..k], Blank))])
  {
    ExplodeOneSeparator(gps, ',', k);
  }

  /** No numeric check: two arbitrary texts around a comma still make a Point. */
  lemma AnyTwoPartsMakePoint(lat: string, lon: string)
    requires ',' !in lat && ',' !in lon
    ensures GpsPoint(lat + "," + lon) == Some(Point(Trim(lon, Blank), Trim(lat, Blank)))
    ensures CreatePointGeometry(lat + "," + lon) != ""
    ensures Member(DecodedPoint(lat + "," + lon), "type") == JStr("Point")
  {
    var g := lat + "," + lon;
    assert g == lat + ("," + lon);
    OccurrencesZero(lat, ',');
    OccurrencesZero(lon, ',');
    OccurrencesAppend(lat, "," + lon, ',');
    OccurrencesAppend(",", lon, ',');
    assert g[|lat|] == ',';
    assert g[..|lat|] == lat && g[|lat| + 1..] == lon;
    PointSwapsAxes(g, |lat|);
  }

  /** Tokens already free of blanks are kept verbatim, swapped into `[lon, lat]` order. */
  lemma PointOfTrimmedParts(lat: string, lon: string)
    requires ',' !in lat && ',' !in lon && Trimmed(lat, Blank) && Trimmed(lon, Blank)
    ensures CreatePointGeometry(lat + "," + lon) == PointText(Point(lon, lat))
  {
    AnyTwoPartsMakePoint(lat, lon);
    TrimOfTrimmed(lat, Blank);
    TrimOfTrimmed(lon, Blank);
  }

  /** The point fallback of the worked example: "48.5842,7.7458" gives `[7.7458, 48.5842]`. */
  lemma GpsExample(lat: string, lon: string)
    requires lat == "48.5842" && lon == "7.7458"
    ensures CreatePointGeometry(lat + "," + lon) == "{\"type\":\"Point\",\"coordinates\":[" + lon + "," + lat + "]}"
  {
    PointOfTrimmedParts(lat, lon);
  }

  /** Text without a comma, or with several, gives no geometry. */
  lemma WrongPartCountGivesNothing(gps: string)
    requires Occurrences(gps, ',') != 1
    ensures CreatePointGeometry(gps) == "" && DecodedPoint(gps) == JNull
  {
  }

  /** The first point of a Polygon, before `floatval`. */
  datatype Coordinates = Coordinates(lon: Json, lat: Json)

  /**
   * extractCoordinates: for a decoded Polygon whose first ring is not empty
   * and whose first point is an array of at least two entries, that point's
   * entries 0 and 1 as longitude and latitude; null in every other case.
   */
  function ExtractCoordinates(geoJson: string, decode: string -> Json): (r: Option<Coordinates>)
    ensures r.Some? ==> Member(decode(geoJson), "type") == JStr("Polygon")
    ensures r.Some? ==> IsArray(Member(decode(geoJson), "coordinates"))
    ensures r.Some? ==> !EmptyValue(Index(Member(decode(geoJson), "coordinates"), 0))
  {
    var decoded := decode(geoJson);
    var coordinates := Member(decoded, "coordinates");
    if !IsArray(coordinates) then None
    else if Member(decoded, "type") == JStr("Polygon") && !EmptyValue(Index(coordinates, 0)) then
      var first := Index(Index(coordinates, 0), 0);
      if IsArray(first) && Count(first) >= 2 then Some(Coordinates(Index(first, 0), Index(first, 1)))
      else None
    else None
  }

  /** For a Polygon, the first point of the first ring: `lon = p[0]`, `lat = p[1]`. */
  lemma ExtractFirstPoint(geoJson: string, decode: string -> Json, lon: Json, lat: Json, morePoint: seq<Json>, moreRing: seq<Json>, moreRings: seq<Json>)
    requires Member(decode(geoJson), "type") == JStr("Polygon")
    requires Member(decode(geoJson), "coordinates") == JArr([JArr([JArr([lon, lat] + morePoint)] + moreRing)] + moreRings)
    ensures ExtractCoordinates(geoJson, decode) == Some(Coordinates(lon, lat))
  {
    var ring := JArr([JArr([lon, lat] + morePoint)] + moreRing);
    assert Index(JArr([ring] + moreRings), 0) == ring;
  }

  /** Without a coordinates member there is nothing to extract. */
  lemma NoCoordinatesNoPoint(geoJson: string, decode: string -> Json)
    requires Member(decode(geoJson), "coordinates") == JNull
    ensures ExtractCoordinates(geoJson, decode) == None
  {
  }

  /** A Point geometry, such as the GPS fallback, yields no coordinates. */
  lemma PointHasNoPolygonCoordinates(geoJson: string, decode: string -> Json, gps: string)
    requires decode(geoJson) == DecodedPoint(gps)
    ensures ExtractCoordinates(geoJson, decode) == None
  {
  }

  /** createFeature: `{type: "Feature", geometry, properties}`, both passed unchanged. */
  function CreateFeature(geometry: Json, properties: Json): (f: Json)
    requires IsArray(geometry) && IsArray(properties)
    ensures f.JObj? && |f.members| == 3
    ensures Member(f, "type") == JStr("Feature")
    ensures Member(f, "geometry") == geometry
    ensures Member(f, "properties") == properties
  {
    var members := [("type", JStr("Feature")), ("geometry", geometry), ("properties", properties)];
    MemberAt(members, "type", 0);
    MemberAt(members, "geometry", 1);
    MemberAt(members, "properties", 2);
    JObj(members)
  }

  /** createFeatureCollection: `{type: "FeatureCollection", features}`, in the given order. */
  function CreateFeatureCollection(features: seq<Json>): (c: Json)
    ensures c.JObj? && |c.members| == 2
    ensures Member(c, "type") == JStr("FeatureCollection")
    ensures Member(c, "features") == JArr(features)
  {
    var members := [("type", JStr("FeatureCollection")), ("features", JArr(features))];
    MemberAt(members, "type", 0);
    MemberAt(members, "features", 1);
    JObj(members)
  }
}
