/**
 * Reshaping one query-result row: `filterPlaceData` reduces every property
 * wrapper to its `value` entry, and `convertPlaceData` turns the
 * `coordinates` string into an ordered list of `{lat, lng}` records.
 */
module Places {
  import opened Text

  /** One point of a place's geometry; both halves are kept as the strings the endpoint sent. */
  datatype LatLng = LatLng(lat: string, lng: string)

  /**
   * The value a place holds under one property name: a wrapper map (as
   * returned by the endpoint, or reduced to its `value` entry), or, for
   * `coordinates` after conversion, the list of points.
   */
  datatype Field = Wrapper(entries: map<string, string>) | Points(points: seq<LatLng>)

  /** One row of `results.bindings`: property name to wrapper `{type, value, ...}`. */
  type RawBinding = map<string, map<string, string>>

  /** A row after filtering and conversion. */
  type Place = map<string, Field>

  const ValueKey: string := "value"
  const CoordinatesKey: string := "coordinates"
  const InstanceUrlsKey: string := "instanceUrls"
  const ItemKey: string := "item"

  // ---------------------------------------------------------------------------
  // filterPlaceData
  // ---------------------------------------------------------------------------

  /** `Arr::only($wrapper, 'value')`: the sub-map with only the `value` entry, if there is one. */
  function OnlyValue(wrapper: map<string, string>): (r: map<string, string>)
    ensures r.Keys == wrapper.Keys * {ValueKey}
    ensures forall k :: k in r ==> r[k] == wrapper[k]
  {
    if ValueKey in wrapper then map[ValueKey := wrapper[ValueKey]] else map[]
  }

  /** The row with every wrapper reduced to its `value` entry. */
  function Filtered(row: RawBinding): Place {
    map k | k in row :: Wrapper(OnlyValue(row[k]))
  }

  /**
   * Overwrites each entry of (a copy of) the row with its reduced wrapper,
   * one key at a time. The key set is unchanged.
   */
  method FilterPlaceData(place: RawBinding) returns (r: Place)
    ensures r.Keys == place.Keys
    ensures forall k :: k in place ==> r[k] == Wrapper(OnlyValue(place[k]))
    ensures r == Filtered(place)
  {
    r := map k | k in place :: Wrapper(place[k]);
    var todo := place.Keys;
    while todo != {}
      invariant todo <= place.Keys
      invariant r.Keys == place.Keys
      invariant forall k :: k in place && k !in todo ==> r[k] == Wrapper(OnlyValue(place[k]))
      decreases todo
    {
      var k :| k in todo;
      r := r[k := Wrapper(OnlyValue(place[k]))];
      todo := todo - {k};
    }
  }

  // ---------------------------------------------------------------------------
  // convertPlaceData
  // ---------------------------------------------------------------------------

  /** The `|`-separated segments of a coordinates string. */
  function Segments(coordinates: string): (r: seq<string>)
    ensures |r| == CountChar(coordinates, '|') + 1
  {
    Split(coordinates, '|')
  }

  /** Every segment holds a comma, so both halves of each point exist. */
  predicate WellFormedCoordinates(coordinates: string) {
    forall i :: 0 <= i < |Segments(coordinates)| ==> ',' in Segments(coordinates)[i]
  }

  /**
   * `explode(',', $segment)` and its first two fields: the text before the
   * first comma, and the text between the first and the second comma (or
   * the end).
   */
  function PointOf(segment: string): (p: LatLng)
    requires ',' in segment
    ensures ',' !in p.lat && ',' !in p.lng
    ensures segment == p.lat + [','] + p.lng || p.lat + [','] + p.lng + [','] <= segment
  {
    var fields := Split(segment, ',');
    FirstTwoFields(segment);
    LatLng(fields[0], fields[1])
  }

  lemma FirstTwoFields(segment: string)
    requires ',' in segment
    ensures var fields := Split(segment, ',');
            |fields| >= 2 &&
            (segment == fields[0] + [','] + fields[1] || fields[0] + [','] + fields[1] + [','] <= segment)
  {
    JoinSplit(segment, ',');
    FirstTwoJoined(Split(segment, ','), ',');
  }

  /** Joined pieces are the first two pieces alone, or start with them and a separator. */
  lemma FirstTwoJoined(fields: seq<string>, d: char)
    requires |fields| >= 2
    ensures var s := Join(fields, d);
            s == fields[0] + [d] + fields[1] || fields[0] + [d] + fields[1] + [d] <= s
  {
    assert fields[1..][1..] == fields[2..];
    if |fields| == 2 {
      assert Join(fields[1..], d) == fields[1];
    } else {
      assert Join(fields, d) == (fields[0] + [d] + fields[1] + [d]) + Join(fields[2..], d);
    }
  }

  /** The points of a coordinates string, one per segment, in order. */
  function ParseCoordinates(coordinates: string): (r: seq<LatLng>)
    requires WellFormedCoordinates(coordinates)
    ensures |r| == CountChar(coordinates, '|') + 1
    ensures forall i :: 0 <= i < |r| ==> r[i] == PointOf(Segments(coordinates)[i])
  {
    var segments := Segments(coordinates);
    seq(|segments|, i requires 0 <= i < |segments| => PointOf(segments[i]))
  }

  /** The reverse direction: points written as `lat,lng` pairs joined by `|`. */
  function FormatCoordinates(points: seq<LatLng>): string
    requires |points| >= 1
  {
    Join(seq(|points|, i requires 0 <= i < |points| => points[i].lat + [','] + points[i].lng), '|')
  }

  /** Points whose halves hold neither separator survive writing and parsing unchanged. */
  lemma ParseFormatted(points: seq<LatLng>)
    requires |points| >= 1
    requires forall i :: 0 <= i < |points| ==>
               ',' !in points[i].lat && '|' !in points[i].lat && ',' !in points[i].lng && '|' !in points[i].lng
    ensures WellFormedCoordinates(FormatCoordinates(points))
    ensures ParseCoordinates(FormatCoordinates(points)) == points
  {
    var pairs := seq(|points|, i requires 0 <= i < |points| => points[i].lat + [','] + points[i].lng);
    SplitJoin(pairs, '|');
    forall i | 0 <= i < |points|
      ensures ',' in pairs[i] && PointOf(pairs[i]) == points[i]
    {
      var halves := [points[i].lat, points[i].lng];
      assert Join(halves, ',') == pairs[i];
      SplitJoin(halves, ',');
    }
  }

  /** A single pair gives a one-element list, not a bare point. */
  lemma ParseOnePoint()
    ensures WellFormedCoordinates("52.1,9.2")
    ensures ParseCoordinates("52.1,9.2") == [LatLng("52.1", "9.2")]
  {
    var points := [LatLng("52.1", "9.2")];
    var pairs := seq(|points|, i requires 0 <= i < |points| => points[i].lat + [','] + points[i].lng);
    assert pairs[0] == "52.1" + [','] + "9.2" == "52.1,9.2";
    assert pairs == ["52.1,9.2"];
    ParseFormatted(points);
  }

  /** A place whose `coordinates` wrapper holds a well-formed `value`. */
  predicate Convertible(place: Place) {
    && CoordinatesKey in place
    && place[CoordinatesKey].Wrapper?
    && ValueKey in place[CoordinatesKey].entries
    && WellFormedCoordinates(place[CoordinatesKey].entries[ValueKey])
  }

  /** The place with its `coordinates` entry replaced by the parsed points. */
  function Converted(place: Place): Place
    requires Convertible(place)
  {
    place[CoordinatesKey := Points(ParseCoordinates(place[CoordinatesKey].entries[ValueKey]))]
  }

  /**
   * Splits the coordinates on `|`, rewrites each segment in place into its
   * `{lat, lng}` record, and stores the list under `coordinates`. Every other
   * entry is left as it was.
   */
  method ConvertPlaceData(place: Place) returns (r: Place)
    requires Convertible(place)
    ensures r.Keys == place.Keys
    ensures forall k :: k in place && k != CoordinatesKey ==> r[k] == place[k]
    ensures r[CoordinatesKey] == Points(ParseCoordinates(place[CoordinatesKey].entries[ValueKey]))
    ensures r == Converted(place)
  {
    var coordinatesArray := Split(place[CoordinatesKey].entries[ValueKey], '|');
    assert coordinatesArray == Segments(place[CoordinatesKey].entries[ValueKey]);
    var points := new LatLng[|coordinatesArray|];
    for i := 0 to |coordinatesArray|
      invariant forall k :: 0 <= k < i ==> points[k] == PointOf(coordinatesArray[k])
    {
      var latLng := Split(coordinatesArray[i], ',');
      points[i] := LatLng(latLng[0], latLng[1]);
    }
    r := place[CoordinatesKey := Points(points[..])];
  }

  // ---------------------------------------------------------------------------
  // A whole row
  // ---------------------------------------------------------------------------

  /**
   * What the classifier reads from a row: the `value` of `instanceUrls`,
   * `item` and `coordinates`, the last one well formed.
   */
  predicate WellFormedRow(row: RawBinding) {
    && InstanceUrlsKey in row && ValueKey in row[InstanceUrlsKey]
    && ItemKey in row && ValueKey in row[ItemKey]
    && CoordinatesKey in row && ValueKey in row[CoordinatesKey]
    && WellFormedCoordinates(row[CoordinatesKey][ValueKey])
  }

  /** `convertPlaceData(filterPlaceData($place))`. */
  function Normalized(row: RawBinding): Place
    requires WellFormedRow(row)
  {
    Converted(Filtered(row))
  }

  /** The `instanceUrls` and `item` values of a row survive normalisation. */
  lemma NormalizedKeepsValues(row: RawBinding)
    requires WellFormedRow(row)
    ensures Normalized(row)[InstanceUrlsKey] == Wrapper(map[ValueKey := row[InstanceUrlsKey][ValueKey]])
    ensures Normalized(row)[ItemKey] == Wrapper(map[ValueKey := row[ItemKey][ValueKey]])
  {
    var filtered := Filtered(row);
    assert filtered[InstanceUrlsKey] == Wrapper(OnlyValue(row[InstanceUrlsKey]));
    assert filtered[ItemKey] == Wrapper(OnlyValue(row[ItemKey]));
  }

  /**
   * A normalised row has the row's keys, every property but `coordinates`
   * reduced to its `value`, and `coordinates` parsed into points.
   */
  lemma NormalizedShape(row: RawBinding)
    requires WellFormedRow(row)
    ensures Normalized(row).Keys == row.Keys
    ensures forall k :: k in row && k != CoordinatesKey ==> Normalized(row)[k] == Wrapper(OnlyValue(row[k]))
    ensures Normalized(row)[CoordinatesKey] == Points(ParseCoordinates(row[CoordinatesKey][ValueKey]))
  {
    var filtered := Filtered(row);
    assert filtered[CoordinatesKey] == Wrapper(OnlyValue(row[CoordinatesKey]));
  }
}
