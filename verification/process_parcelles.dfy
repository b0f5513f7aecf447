/**
 * The process-parcelles command: every row of the social-housing file is
 * joined with the cadastral geometry index, written back with two extra
 * columns (the location name and the geometry text), and turned into a
 * GeoJSON feature when it has a geometry that decodes.
 *
 * A parcel is matched by its CNIG code: the id_parcellaire column when the
 * file has one (converted when it is a 14-character MAJIC code), otherwise the
 * code_parcelle column converted from MAJIC. A matched row takes the cadastral
 * polygon and has its GPS cell blanked; an unmatched row with GPS text takes a
 * Point built from it.
 */
module ProcessParcelles {
  import opened Wrappers
  import opened Errors
  import opened PhpString
  import opened PhpArray
  import opened Csv
  import opened MajicConverter
  import opened GeoJson
  import opened CadastralData
  import opened Counting

  /** The command's configured file columns and location name. */
  datatype Settings = Settings(
    colGpsCoords: string,
    colCodeParcelle: string,
    colIdParcellaire: string,
    colAddress: string,
    colGroupPerson: string,
    colCadastralId: string,
    colCadastralGeo: string,
    colCadastralLat: string,
    colCadastralLon: string,
    locationName: string)

  /** Positions of the social file's columns; only GPS and code_parcelle are required. */
  datatype Layout = Layout(coords: nat, code: nat, id: Option<nat>, address: Option<nat>, group: Option<nat>)

  /** The five `array_search` calls and the required-columns check. */
  function ResolveLayout(header: seq<string>, s: Settings): (r: Result<Layout, Error>)
    ensures r.Success? <==> s.colGpsCoords in header && s.colCodeParcelle in header
    ensures r.Failure? ==> r.error == RequiredColumnsMissing([s.colGpsCoords, s.colCodeParcelle])
    ensures r.Success? ==> r.value.coords < |header| && header[r.value.coords] == s.colGpsCoords
    ensures r.Success? ==> r.value.code < |header| && header[r.value.code] == s.colCodeParcelle
    ensures r.Success? ==> (r.value.id.Some? <==> s.colIdParcellaire in header)
    ensures r.Success? ==> (r.value.address.Some? <==> s.colAddress in header)
    ensures r.Success? ==> (r.value.group.Some? <==> s.colGroupPerson in header)
  {
    var coords := Search(header, s.colGpsCoords);
    var code := Search(header, s.colCodeParcelle);
    if coords.None? || code.None? then Failure(RequiredColumnsMissing([s.colGpsCoords, s.colCodeParcelle]))
    else Success(Layout(coords.value, code.value,
      Search(header, s.colIdParcellaire), Search(header, s.colAddress), Search(header, s.colGroupPerson)))
  }

  /** The code_parcelle cell, trimmed of double quotes. */
  function MajicCode(cells: seq<string>, layout: Layout): (m: string)
    ensures Trimmed(m, Quote)
    ensures layout.code < |cells| ==> m == Trim(cells[layout.code], Quote)
    ensures layout.code >= |cells| ==> m == ""
  {
    Trim(CellText(cells, layout.code), Quote)
  }

  /** The GPS cell, trimmed of double quotes. */
  function GpsText(cells: seq<string>, layout: Layout): (g: string)
    ensures Trimmed(g, Quote)
    ensures layout.coords < |cells| ==> g == Trim(cells[layout.coords], Quote)
    ensures layout.coords >= |cells| ==> g == ""
  {
    Trim(CellText(cells, layout.coords), Quote)
  }

  /** The id_parcellaire cell, trimmed of double quotes ("" without the column). */
  function IdText(cells: seq<string>, layout: Layout): (t: string)
    ensures Trimmed(t, Quote)
    ensures layout.id.Some? && layout.id.value < |cells| ==> t == Trim(cells[layout.id.value], Quote)
    ensures layout.id.None? || layout.id.value >= |cells| ==> t == ""
  {
    if layout.id.Some? then Trim(CellText(cells, layout.id.value), Quote) else ""
  }

  /**
   * The CNIG code looked up in the index: a 14-character id is converted, any
   * other id is used as it is; without the id column the MAJIC code is converted.
   */
  function ParcelKey(cells: seq<string>, layout: Layout): (key: string)
    ensures layout.id.Some? && |IdText(cells, layout)| != MajicLength ==> key == IdText(cells, layout)
    ensures layout.id.Some? && |IdText(cells, layout)| == MajicLength ==>
      |key| == CnigLength && Expand(key, IdText(cells, layout)[5..7]) == IdText(cells, layout)
    ensures layout.id.None? ==> (key == "" <==> |MajicCode(cells, layout)| != MajicLength)
    ensures layout.id.None? && |MajicCode(cells, layout)| == MajicLength ==>
      |key| == CnigLength && Expand(key, MajicCode(cells, layout)[5..7]) == MajicCode(cells, layout)
  {
    if layout.id.Some? then
      var pid := IdText(cells, layout);
      if |pid| == MajicLength then
        ExpandConvert(pid);
        ConvertToCnigPci(pid)
      else pid
    else
      var majic := MajicCode(cells, layout);
      if |majic| == MajicLength then ExpandConvert(majic); ConvertToCnigPci(majic)
      else ConvertToCnigPci(majic)
  }

  /**
   * The row as a PHP array after the join: the GPS key blanked when the row
   * matched, then the location name and the geometry appended.
   */
  function ExtendRow(cells: seq<string>, coords: nat, matched: bool, name: string, geometry: string): (r: PArray)
    ensures |r| == |cells| + (if matched && coords >= |cells| then 3 else 2)
    ensures r[|r| - 2].value == name && r[|r| - 1].value == geometry
    ensures r[|r| - 1].key == r[|r| - 2].key + 1
  {
    FindOfList(cells, coords);
    var row := FromList(cells);
    var row := if matched then Set(row, coords, "") else row;
    Push(Push(row, name), geometry)
  }

  /**
   * The cells fputcsv writes for a joined row: the input cells with the GPS
   * cell blanked when matched (a new blank cell at the end when the row is
   * too short to have one), then the name and the geometry.
   */
  function OutputRow(cells: seq<string>, coords: nat, matched: bool, name: string, geometry: string): (out: seq<string>)
    ensures !matched ==> out == cells + [name, geometry]
    ensures matched && coords < |cells| ==> out == cells[coords := ""] + [name, geometry]
    ensures matched && coords >= |cells| ==> out == cells + ["", name, geometry]
  {
    ExtendedRowValues(cells, coords, matched, name, geometry);
    Values(ExtendRow(cells, coords, matched, name, geometry))
  }

  lemma ExtendedRowValues(cells: seq<string>, coords: nat, matched: bool, name: string, geometry: string)
    ensures !matched ==> Values(ExtendRow(cells, coords, matched, name, geometry)) == cells + [name, geometry]
    ensures matched && coords < |cells| ==>
      Values(ExtendRow(cells, coords, matched, name, geometry)) == cells[coords := ""] + [name, geometry]
    ensures matched && coords >= |cells| ==>
      Values(ExtendRow(cells, coords, matched, name, geometry)) == cells + ["", name, geometry]
  {
    if !matched || coords < |cells| {
      ExtendedListValues(cells, coords, matched, name, geometry);
    } else {
      ExtendedBeyondValues(cells, coords, name, geometry);
    }
  }

  lemma ExtendedListValues(cells: seq<string>, coords: nat, matched: bool, name: string, geometry: string)
    requires !matched || coords < |cells|
    ensures Values(ExtendRow(cells, coords, matched, name, geometry))
      == (if matched then cells[coords := ""] else cells) + [name, geometry]
  {
    var base := if matched then cells[coords := ""] else cells;
    if matched {
      SetOfList(cells, coords, "");
    }
    PushOfList(base, name);
    PushOfList(base + [name], geometry);
    assert base + [name] + [geometry] == base + [name, geometry];
    ValuesOfList(base + [name, geometry]);
  }

  lemma ExtendedBeyondValues(cells: seq<string>, coords: nat, name: string, geometry: string)
    requires coords >= |cells|
    ensures Values(ExtendRow(cells, coords, true, name, geometry)) == cells + ["", name, geometry]
  {
    var a := ExtendedBeyondShape(cells, coords, name, geometry);
    var b := a + [Entry(NextKey(a), name)];
    ValuesOfList(cells);
    ValuesAppend(FromList(cells), Entry(coords, ""));
    ValuesAppendTwo(a, Entry(NextKey(a), name), Entry(NextKey(b), geometry));
    AppendThree(cells, "", name, geometry);
  }

  lemma AppendThree<T>(xs: seq<T>, x: T, y: T, z: T)
    ensures xs + [x] + [y, z] == xs + [x, y, z]
  {
    assert (xs + [x] + [y, z])[|xs|..] == [x, y, z];
  }

  /** The extended row of a short matched row: the blank GPS entry, then the two pushes. */
  lemma ExtendedBeyondShape(cells: seq<string>, coords: nat, name: string, geometry: string) returns (a: PArray)
    requires coords >= |cells|
    ensures a == FromList(cells) + [Entry(coords, "")]
    ensures ExtendRow(cells, coords, true, name, geometry)
      == a + [Entry(NextKey(a), name)] + [Entry(NextKey(a + [Entry(NextKey(a), name)]), geometry)]
  {
    SetBeyondList(cells, coords, "");
    a := FromList(cells) + [Entry(coords, "")];
    var b := a + [Entry(NextKey(a), name)];
    assert Push(a, name) == b;
  }

  /**
   * The keys the extended row has: what `isset($row[$k])` and `$row[$k]`
   * see when the feature's properties are read.
   */
  lemma {:induction false} ExtendedRowGet(cells: seq<string>, coords: nat, matched: bool, name: string, geometry: string, k: nat)
    requires !matched || coords < |cells|
    ensures Get(ExtendRow(cells, coords, matched, name, geometry), k) ==
      if k < |cells| then Some(if matched && k == coords then "" else cells[k])
      else if k == |cells| then Some(name)
      else if k == |cells| + 1 then Some(geometry)
      else None
  {
    var base := if matched then cells[coords := ""] else cells;
    if matched {
      SetOfList(cells, coords, "");
    }
    PushOfList(base, name);
    PushOfList(base + [name], geometry);
    GetOfList(base + [name] + [geometry], k);
  }

  /**
   * A feature property: `isset($row[$col]) ? trim($row[$col], ' "') : ''`
   * on the extended row. An absent column's index is `false`, and
   * `$row[false]` reads key 0, the row's first cell.
   */
  function Property(row: PArray, col: Option<nat>): (v: string)
    ensures Trimmed(v, SpaceQuote)
    ensures col.Some? && Get(row, col.value).None? ==> v == ""
    ensures col.None? && Get(row, 0).None? ==> v == ""
    ensures col.Some? && Get(row, col.value).Some? ==> v == Trim(Get(row, col.value).value, SpaceQuote)
    ensures col.None? && Get(row, 0).Some? ==> v == Trim(Get(row, 0).value, SpaceQuote)
  {
    var key := if col.Some? then col.value else 0;
    match Get(row, key)
    case Some(x) => Trim(x, SpaceQuote)
    case None => ""
  }

  /** Without the column, the property is the first cell, trimmed. */
  lemma AbsentColumnReadsFirstCell(cells: seq<string>, coords: nat, matched: bool, name: string, geometry: string)
    requires |cells| > 0
    ensures Property(ExtendRow(cells, coords, matched, name, geometry), None)
      == Trim(if matched && coords == 0 then "" else cells[0], SpaceQuote)
  {
    if !matched || coords < |cells| {
      ExtendedRowGet(cells, coords, matched, name, geometry, 0);
    } else {
      ExtendedBeyondGet(cells, coords, name, geometry, 0);
    }
  }

  /**
   * The keys of a matched row too short to have its GPS cell: the cells, the
   * blanked GPS key added after them, then the name and the geometry under
   * the two keys that follow it; every other key is unset.
   */
  lemma ExtendedBeyondGet(cells: seq<string>, coords: nat, name: string, geometry: string, k: nat)
    requires coords >= |cells|
    ensures Get(ExtendRow(cells, coords, true, name, geometry), k) ==
      if k < |cells| then Some(cells[k])
      else if k == coords then Some("")
      else if k == coords + 1 then Some(name)
      else if k == coords + 2 then Some(geometry)
      else None
  {
    var a := ExtendedBeyondShape(cells, coords, name, geometry);
    SetBeyondList(cells, coords, "");
    var b := a + [Entry(NextKey(a), name)];
    var last := Entry(NextKey(b), geometry);
    ExtendRowKeys(cells, coords, name, geometry, b, last);
    FindOfList(cells, k);
    FindAppend(FromList(cells), Entry(coords, ""), k);
    FindAppend(a, Entry(coords + 1, name), k);
    FindAppend(b, last, k);
  }

  lemma ExtendRowKeys(cells: seq<string>, coords: nat, name: string, geometry: string, b: PArray, last: Entry)
    requires ExtendRow(cells, coords, true, name, geometry) == b + [last]
    requires |b| > 0 && b[|b| - 1].key == coords + 1
    ensures last.key == coords + 2 && last.value == geometry
  {
    var r := ExtendRow(cells, coords, true, name, geometry);
    assert r[|r| - 2] == b[|b| - 1] && r[|r| - 1] == last;
  }

  /**
   * A matched row too short to have its GPS cell: the column right after its
   * cells reads "" (the blanked GPS key, or no key at all).
   */
  lemma MatchedShortRowReadsBlank(cells: seq<string>, coords: nat, name: string, geometry: string)
    requires coords >= |cells|
    ensures Property(ExtendRow(cells, coords, true, name, geometry), Some(|cells|)) == ""
  {
    if coords == |cells| {
      BeyondReads(cells, coords, name, geometry, |cells|, Some(""), "");
    } else {
      BeyondReads(cells, coords, name, geometry, |cells|, None, "");
    }
  }

  /** In a matched row too short to have its GPS cell, the name sits right after the GPS key. */
  lemma MatchedShortRowReadsName(cells: seq<string>, coords: nat, name: string, geometry: string)
    requires coords >= |cells|
    ensures Property(ExtendRow(cells, coords, true, name, geometry), Some(coords + 1)) == Trim(name, SpaceQuote)
  {
    BeyondReads(cells, coords, name, geometry, coords + 1, Some(name), Trim(name, SpaceQuote));
  }

  /** In a matched row too short to have its GPS cell, the geometry sits two keys after the GPS key. */
  lemma MatchedShortRowReadsGeometry(cells: seq<string>, coords: nat, name: string, geometry: string)
    requires coords >= |cells|
    ensures Property(ExtendRow(cells, coords, true, name, geometry), Some(coords + 2)) == Trim(geometry, SpaceQuote)
  {
    BeyondReads(cells, coords, name, geometry, coords + 2, Some(geometry), Trim(geometry, SpaceQuote));
  }

  lemma BeyondReads(cells: seq<string>, coords: nat, name: string, geometry: string, k: nat, v: Option<string>, p: string)
    requires coords >= |cells| && |cells| <= k
    requires v == if k == coords then Some("") else if k == coords + 1 then Some(name)
      else if k == coords + 2 then Some(geometry) else None
    requires p == if v.Some? then Trim(v.value, SpaceQuote) else ""
    ensures Property(ExtendRow(cells, coords, true, name, geometry), Some(k)) == p
  {
    ExtendedBeyondGet(cells, coords, name, geometry, k);
    assert Trim("", SpaceQuote) == "";
  }

  /** A present column beyond a short row reads what the join appended: the name, then the geometry. */
  lemma ShortRowReadsAppendedCells(cells: seq<string>, coords: nat, matched: bool, name: string, geometry: string)
    requires !matched || coords < |cells|
    ensures Property(ExtendRow(cells, coords, matched, name, geometry), Some(|cells|)) == Trim(name, SpaceQuote)
    ensures Property(ExtendRow(cells, coords, matched, name, geometry), Some(|cells| + 1)) == Trim(geometry, SpaceQuote)
    ensures Property(ExtendRow(cells, coords, matched, name, geometry), Some(|cells| + 2)) == ""
  {
    var row := ExtendRow(cells, coords, matched, name, geometry);
    ExtendedRowGet(cells, coords, matched, name, geometry, |cells|);
    assert Get(row, |cells|) == Some(name);
    ExtendedRowGet(cells, coords, matched, name, geometry, |cells| + 1);
    assert Get(row, |cells| + 1) == Some(geometry);
    ExtendedRowGet(cells, coords, matched, name, geometry, |cells| + 2);
    assert Get(row, |cells| + 2) == None;
  }

  /** The feature's properties: name, code_parcelle, adresse and groupe_personne. */
  function Properties(row: PArray, layout: Layout, name: string, majic: string): (p: Json)
    ensures IsArray(p)
    ensures p.JObj? && |p.members| == 4
    ensures Member(p, "name") == JStr(name)
    ensures Member(p, "code_parcelle") == JStr(majic)
    ensures Member(p, "adresse") == JStr(Property(row, layout.address))
    ensures Member(p, "groupe_personne") == JStr(Property(row, layout.group))
  {
    PropertyObject(name, majic, Property(row, layout.address), Property(row, layout.group))
  }

  /** The properties object built from its four values. */
  function PropertyObject(name: string, majic: string, address: string, group: string): (p: Json)
    ensures IsArray(p)
    ensures p.JObj? && |p.members| == 4
    ensures Member(p, "name") == JStr(name)
    ensures Member(p, "code_parcelle") == JStr(majic)
    ensures Member(p, "adresse") == JStr(address)
    ensures Member(p, "groupe_personne") == JStr(group)
  {
    var members := [
      ("name", JStr(name)),
      ("code_parcelle", JStr(majic)),
      ("adresse", JStr(address)),
      ("groupe_personne", JStr(group))];
    MemberAt(members, "name", 0);
    MemberAt(members, "code_parcelle", 1);
    MemberAt(members, "adresse", 2);
    MemberAt(members, "groupe_personne", 3);
    JObj(members)
  }

  /** What one row of the loop produces. */
  datatype RowOutcome = RowOutcome(
    cells: seq<string>,
    feature: Option<Json>,
    matched: bool,
    point: bool,
    geometry: string)

  /** The value json_decode gives for the row's geometry. */
  function Decoded(cells: seq<string>, layout: Layout, index: GeometryIndex, decode: string -> Json): (j: Json)
    ensures ParcelKey(cells, layout) !in index && PhpEmpty(GpsText(cells, layout)) ==> j == JNull
    ensures ParcelKey(cells, layout) !in index ==> j == JNull || IsArray(j)
    ensures ParcelKey(cells, layout) in index ==> j == decode(index[ParcelKey(cells, layout)].geo)
    ensures ParcelKey(cells, layout) !in index && !PhpEmpty(GpsText(cells, layout)) ==> j == DecodedPoint(GpsText(cells, layout))
  {
    var key := ParcelKey(cells, layout);
    if key in index then decode(index[key].geo)
    else if !PhpEmpty(GpsText(cells, layout)) then DecodedPoint(GpsText(cells, layout))
    else JNull
  }

  /**
   * One iteration of the loop. It fails only when a matched polygon's text
   * decodes to something other than an array, which createFeature refuses.
   */
  function JoinRow(cells: seq<string>, layout: Layout, s: Settings, index: GeometryIndex, decode: string -> Json)
    : (r: Result<RowOutcome, Error>)
    ensures r.Failure? <==>
      ParcelKey(cells, layout) in index
      && decode(index[ParcelKey(cells, layout)].geo) != JNull
      && !IsArray(decode(index[ParcelKey(cells, layout)].geo))
    ensures r.Failure? ==> r.error == GeometryNotArray(index[ParcelKey(cells, layout)].geo)
    ensures r.Success? ==> (r.value.matched <==> ParcelKey(cells, layout) in index)
    ensures r.Success? ==> (r.value.point <==> !r.value.matched && !PhpEmpty(GpsText(cells, layout)))
    ensures r.Success? && r.value.matched ==> r.value.geometry == index[ParcelKey(cells, layout)].geo
    ensures r.Success? && r.value.point ==> r.value.geometry == CreatePointGeometry(GpsText(cells, layout))
    ensures r.Success? && !r.value.matched && !r.value.point ==> r.value.geometry == ""
    ensures r.Success? ==>
      r.value.cells == OutputRow(cells, layout.coords, r.value.matched, s.locationName, r.value.geometry)
    ensures r.Success? ==> (r.value.feature.Some? <==> Decoded(cells, layout, index, decode) != JNull)
    ensures r.Success? && r.value.feature.Some? ==>
      && Member(r.value.feature.value, "type") == JStr("Feature")
      && Member(r.value.feature.value, "geometry") == Decoded(cells, layout, index, decode)
      && Member(Member(r.value.feature.value, "properties"), "name") == JStr(s.locationName)
      && Member(Member(r.value.feature.value, "properties"), "code_parcelle") == JStr(MajicCode(cells, layout))
    ensures r.Success? && r.value.feature.Some? ==>
      && Member(Member(r.value.feature.value, "properties"), "adresse")
        == JStr(Property(ExtendRow(cells, layout.coords, r.value.matched, s.locationName, r.value.geometry), layout.address))
      && Member(Member(r.value.feature.value, "properties"), "groupe_personne")
        == JStr(Property(ExtendRow(cells, layout.coords, r.value.matched, s.locationName, r.value.geometry), layout.group))
  {
    var key := ParcelKey(cells, layout);
    var gps := GpsText(cells, layout);
    var matched := key in index;
    var point := !matched && !PhpEmpty(gps);
    var geometry := if matched then index[key].geo else if point then CreatePointGeometry(gps) else "";
    var decoded := Decoded(cells, layout, index, decode);
    var row := ExtendRow(cells, layout.coords, matched, s.locationName, geometry);
    if decoded != JNull && !IsArray(decoded) then Failure(GeometryNotArray(geometry))
    else
      var feature :=
        if decoded == JNull then None
        else Some(CreateFeature(decoded, Properties(row, layout, s.locationName, MajicCode(cells, layout))));
      Success(RowOutcome(OutputRow(cells, layout.coords, matched, s.locationName, geometry), feature, matched, point, geometry))
  }

  /** The loop over all data rows, stopping at the first row that fails. */
  function JoinRows(rows: seq<Record>, layout: Layout, s: Settings, index: GeometryIndex, decode: string -> Json)
    : (r: Result<seq<RowOutcome>, Error>)
    ensures r.Success? ==> |r.value| == |rows|
    ensures r.Success? ==> forall i :: 0 <= i < |rows| ==> JoinRow(rows[i], layout, s, index, decode) == Success(r.value[i])
    ensures r.Failure? ==> exists i :: 0 <= i < |rows| && JoinRow(rows[i], layout, s, index, decode) == Failure(r.error) && forall j :: 0 <= j < i ==> JoinRow(rows[j], layout, s, index, decode).Success?
    ensures r.Success? <==> forall i :: 0 <= i < |rows| ==> JoinRow(rows[i], layout, s, index, decode).Success?
  {
    MapAll(rows, row => JoinRow(row, layout, s, index, decode))
  }

  /** Every row keeps its cells up to the GPS cell, which a match blanks; name and geometry end it. */
  lemma JoinRowCells(cells: seq<string>, layout: Layout, s: Settings, index: GeometryIndex, decode: string -> Json)
    requires JoinRow(cells, layout, s, index, decode).Success?
    ensures var o := JoinRow(cells, layout, s, index, decode).value;
      && |o.cells| >= |cells| + 2
      && o.cells[|o.cells| - 2] == s.locationName
      && o.cells[|o.cells| - 1] == o.geometry
      && (forall j :: 0 <= j < |cells| && (j != layout.coords || !o.matched) ==> o.cells[j] == cells[j])
      && (o.matched && layout.coords < |cells| ==> o.cells[layout.coords] == "")
  {
    var o := JoinRow(cells, layout, s, index, decode).value;
    OutputRowCells(cells, layout.coords, o.matched, s.locationName, o.geometry);
  }

  lemma OutputRowCells(cells: seq<string>, coords: nat, matched: bool, name: string, geometry: string)
    ensures var out := OutputRow(cells, coords, matched, name, geometry);
      && |out| >= |cells| + 2
      && out[|out| - 2] == name
      && out[|out| - 1] == geometry
      && (forall j :: 0 <= j < |cells| && (j != coords || !matched) ==> out[j] == cells[j])
      && (matched && coords < |cells| ==> out[coords] == "")
  {
  }

  /** The geometry column of an output row: what the join decided for that row. */
  predicate EmptyLastCell(row: seq<string>) {
    |row| > 0 && row[|row| - 1] == ""
  }

  predicate IsMatched(o: RowOutcome) { o.matched }
  predicate IsUnmatched(o: RowOutcome) { !o.matched }
  predicate IsPoint(o: RowOutcome) { o.point }
  predicate IsPointGeometry(o: RowOutcome) { o.point && o.geometry != "" }
  predicate HasGeometry(o: RowOutcome) { o.geometry != "" }
  predicate LacksGeometry(o: RowOutcome) { o.geometry == "" }
  predicate HasFeature(o: RowOutcome) { o.feature.Some? }

  /**
   * What the join guarantees of an outcome when every indexed geometry is
   * non-empty: a match has a geometry and is not a point, and a row that is
   * neither has none.
   */
  predicate Consistent(o: RowOutcome) {
    && (o.matched ==> !o.point && o.geometry != "")
    && (!o.matched && !o.point ==> o.geometry == "")
  }

  /** Every geometry the index holds is non-empty, as loadCadastralData guarantees. */
  predicate Loaded(index: GeometryIndex) {
    forall k :: k in index ==> index[k].geo != ""
  }

  lemma JoinRowConsistent(cells: seq<string>, layout: Layout, s: Settings, index: GeometryIndex, decode: string -> Json)
    requires Loaded(index) && JoinRow(cells, layout, s, index, decode).Success?
    ensures Consistent(JoinRow(cells, layout, s, index, decode).value)
  {
  }

  /** The table printed at the end of the command. */
  datatype Summary = Summary(total: nat, exported: int, polygons: nat, points: nat, withoutGeometry: int)

  /**
   * The table as written: every unmatched row with GPS text counts as a GPS
   * point, even when that text yields no Point.
   */
  function SummaryAsWritten(outs: seq<RowOutcome>, total: nat): (t: Summary)
    ensures t.total == total
    ensures t.points == CountIf(outs, IsPoint)
    ensures t.polygons + CountIf(outs, IsUnmatched) == |outs|
    ensures t.exported == t.polygons + t.points
    ensures t.withoutGeometry == CountIf(outs, IsUnmatched) - t.points
  {
    CountComplement(outs, IsMatched, IsUnmatched);
    var m := CountIf(outs, IsMatched);
    var pt := CountIf(outs, IsPoint);
    Summary(total, m + pt, m, pt, CountIf(outs, IsUnmatched) - pt)
  }

  /** The table with GPS points counted only when a Point geometry was produced. */
  function Summarize(outs: seq<RowOutcome>, total: nat): (t: Summary)
    requires forall i :: 0 <= i < |outs| ==> Consistent(outs[i])
    ensures t.exported == CountIf(outs, HasGeometry)
    ensures t.withoutGeometry == CountIf(outs, LacksGeometry)
    ensures t.exported + t.withoutGeometry == |outs|
  {
    SummaryCountsGeometries(outs);
    var m := CountIf(outs, IsMatched);
    var pt := CountIf(outs, IsPointGeometry);
    Summary(total, m + pt, m, pt, CountIf(outs, IsUnmatched) - pt)
  }

  lemma SummaryCountsGeometries(outs: seq<RowOutcome>)
    requires forall i :: 0 <= i < |outs| ==> Consistent(outs[i])
    ensures CountIf(outs, IsMatched) + CountIf(outs, IsPointGeometry) == CountIf(outs, HasGeometry)
    ensures CountIf(outs, IsUnmatched) - CountIf(outs, IsPointGeometry) == CountIf(outs, LacksGeometry)
    ensures CountIf(outs, HasGeometry) + CountIf(outs, LacksGeometry) == |outs|
  {
    CountUnion(outs, IsMatched, IsPointGeometry, HasGeometry);
    CountComplement(outs, IsMatched, IsUnmatched);
    CountComplement(outs, HasGeometry, LacksGeometry);
  }

  /** Where every GPS text yields a Point, both tables agree. */
  lemma SummariesAgreeOnWellFormedGps(outs: seq<RowOutcome>, total: nat)
    requires forall i :: 0 <= i < |outs| ==> Consistent(outs[i])
    requires forall i :: 0 <= i < |outs| ==> (outs[i].point ==> outs[i].geometry != "")
    ensures SummaryAsWritten(outs, total) == Summarize(outs, total)
  {
    CountAlongSame(outs, IsPoint, IsPointGeometry);
  }

  /** An unmatched row whose GPS text has no single comma is a "point" with no geometry. */
  lemma MalformedGpsRow(cells: seq<string>, layout: Layout, s: Settings, index: GeometryIndex, decode: string -> Json)
    requires ParcelKey(cells, layout) !in index
    requires !PhpEmpty(GpsText(cells, layout)) && Occurrences(GpsText(cells, layout), ',') != 1
    ensures JoinRow(cells, layout, s, index, decode).Success?
    ensures var o := JoinRow(cells, layout, s, index, decode).value;
      o.point && o.geometry == "" && o.feature.None? && Consistent(o)
  {
  }

  /**
   * The miscount: one such row makes the written table report no line
   * without geometry, although its geometry column is empty.
   */
  lemma MalformedGpsMiscounted(o: RowOutcome)
    requires Consistent(o) && o.point && o.geometry == ""
    ensures SummaryAsWritten([o], 1).points == 1
    ensures SummaryAsWritten([o], 1).withoutGeometry == 0
    ensures CountIf([o], LacksGeometry) == 1
    ensures Summarize([o], 1).withoutGeometry == 1 && Summarize([o], 1).points == 0
  {
    assert [o][..0] == [];
  }

  predicate IsMalformedPoint(o: RowOutcome) { o.point && o.geometry == "" }
  predicate IsNeither(o: RowOutcome) { !o.matched && !o.point }

  /**
   * What the printed table means: "GPS points" never exceeds the unmatched
   * rows, so "Lines without geometry" is never negative; it counts the rows
   * without geometry except the malformed GPS points; and the three counts
   * cover every row.
   */
  lemma SummaryAsWrittenCounts(outs: seq<RowOutcome>, total: nat)
    requires forall i :: 0 <= i < |outs| ==> Consistent(outs[i])
    ensures CountIf(outs, IsPoint) <= CountIf(outs, IsUnmatched)
    ensures SummaryAsWritten(outs, total).withoutGeometry >= 0
    ensures SummaryAsWritten(outs, total).withoutGeometry + CountIf(outs, IsMalformedPoint) == CountIf(outs, LacksGeometry)
    ensures var t := SummaryAsWritten(outs, total); t.polygons + t.points + t.withoutGeometry == |outs|
  {
    CountMonotone(outs, IsPoint, IsUnmatched);
    CountUnion(outs, IsPoint, IsNeither, IsUnmatched);
    CountUnion(outs, IsNeither, IsMalformedPoint, LacksGeometry);
    CountComplement(outs, IsMatched, IsUnmatched);
  }

  /** The output lines of the joined rows. */
  function OutputLines(outs: seq<RowOutcome>): (lines: seq<seq<string>>)
    ensures |lines| == |outs|
    ensures forall i :: 0 <= i < |outs| ==> lines[i] == outs[i].cells
  {
    seq(|outs|, i requires 0 <= i < |outs| => outs[i].cells)
  }

  /** The features of the joined rows, in row order. */
  function Features(outs: seq<RowOutcome>): (fs: seq<Json>)
    ensures |fs| == CountIf(outs, HasFeature)
    ensures forall j :: 0 <= j < |fs| ==> exists i :: 0 <= i < |outs| && outs[i].feature == Some(fs[j])
  {
    if |outs| == 0 then []
    else
      var init := Features(outs[..|outs| - 1]);
      var last := outs[|outs| - 1];
      assert forall i :: 0 <= i < |outs| - 1 ==> outs[..|outs| - 1][i] == outs[i];
      if last.feature.Some? then init + [last.feature.value] else init
  }

  /**
   * The features come out in row order: the feature of row i is preceded by
   * exactly the features of the rows before it.
   */
  lemma {:induction false} FeaturesInRowOrder(outs: seq<RowOutcome>, i: nat)
    requires i < |outs| && outs[i].feature.Some?
    ensures CountIf(outs[..i], HasFeature) < |Features(outs)|
    ensures Features(outs)[CountIf(outs[..i], HasFeature)] == outs[i].feature.value
  {
    var n := |outs| - 1;
    var init := Features(outs[..n]);
    if i < n {
      assert outs[..n][i] == outs[i];
      assert outs[..n][..i] == outs[..i];
      FeaturesInRowOrder(outs[..n], i);
    } else {
      assert outs[..i] == outs[..n];
      assert Features(outs) == init + [outs[n].feature.value];
    }
  }

  /** The command's outputs: the CSV lines, the GeoJSON document and the summary table. */
  datatype Report = Report(csv: seq<seq<string>>, geoJson: Json, summary: Summary)

  /**
   * The command up to the end of its loop: load the index, check the social
   * file, resolve its columns and join every row.
   */
  function Outcomes(cadastral: CsvFile, social: CsvFile, s: Settings, decode: string -> Json)
    : (r: Result<seq<RowOutcome>, Error>)
    ensures r.Success? ==> social.Present? && |social.records| > 0 && |r.value| == CountLines(social)
    ensures r.Success? ==> forall i :: 0 <= i < |r.value| ==> Consistent(r.value[i]) && EndsWithGeometry(r.value[i])
  {
    var index :- Load(cadastral, s);
    if social.Missing? then Failure(FileNotFound)
    else
      var header :- GetHeader(social);
      var layout :- ResolveLayout(header, s);
      var joined := JoinRows(social.records[1..], layout, s, index, decode);
      if joined.Success? then
        JoinedRowsSummary(social.records[1..], layout, s, index, decode);
        joined
      else joined
  }

  /**
   * execute: load the index, check the social file, resolve its columns,
   * join every row, and assemble the outputs: the CSV lines, the features in
   * row order, and the table as printed.
   */
  function ProcessParcelles(cadastral: CsvFile, social: CsvFile, s: Settings, decode: string -> Json)
    : (r: Result<Report, Error>)
    ensures Load(cadastral, s).Failure? ==> r == Failure(Load(cadastral, s).error)
    ensures Load(cadastral, s).Success? && social.Missing? ==> r == Failure(FileNotFound)
    ensures Load(cadastral, s).Success? && social.Present? && |social.records| == 0 ==> r == Failure(NoHeader)
    ensures
      (Load(cadastral, s).Success? && GetHeader(social).Success? && ResolveLayout(GetHeader(social).value, s).Failure?)
      ==> r == Failure(RequiredColumnsMissing([s.colGpsCoords, s.colCodeParcelle]))
    ensures r.Success? <==> Outcomes(cadastral, social, s, decode).Success?
    ensures Outcomes(cadastral, social, s, decode).Failure? ==> r == Failure(Outcomes(cadastral, social, s, decode).error)
    ensures r.Success? ==> |r.value.csv| == CountLines(social) + 1
    ensures r.Success? ==> r.value.csv[0] == GetHeader(social).value + ["name", s.colCadastralGeo]
    ensures r.Success? ==> r.value.csv[1..] == OutputLines(Outcomes(cadastral, social, s, decode).value)
    ensures r.Success? ==> Member(r.value.geoJson, "type") == JStr("FeatureCollection")
    ensures r.Success? ==> Member(r.value.geoJson, "features") == JArr(Features(Outcomes(cadastral, social, s, decode).value))
    ensures r.Success? ==> r.value.summary == SummaryAsWritten(Outcomes(cadastral, social, s, decode).value, CountLines(social))
    ensures r.Success? ==> r.value.summary.total == CountLines(social)
    ensures r.Success? ==>
      var t := r.value.summary; t.polygons + t.points + t.withoutGeometry == t.total
    ensures r.Success? ==> 0 <= r.value.summary.withoutGeometry <= CountIf(r.value.csv[1..], EmptyLastCell)
  {
    var index :- Load(cadastral, s);
    var total := CountLines(social);
    if social.Missing? then Failure(FileNotFound)
    else
      var header :- GetHeader(social);
      var layout :- ResolveLayout(header, s);
      var outs :- JoinRows(social.records[1..], layout, s, index, decode);
      JoinedRowsSummary(social.records[1..], layout, s, index, decode);
      SummaryAsWrittenCounts(outs, total);
      var lines := OutputLines(outs);
      var csv := [header + ["name", s.colCadastralGeo]] + lines;
      assert csv[1..] == lines;
      Success(Report(csv, CreateFeatureCollection(Features(outs)), SummaryAsWritten(outs, total)))
  }

  /**
   * The printed table against the written CSV: "Lines without geometry" falls
   * short of the lines whose geometry cell is empty by exactly the malformed
   * GPS points. The corrected table matches the CSV always, and the printed
   * one equals it when every GPS text yields a Point.
   */
  lemma PrintedTableAgainstOutput(cadastral: CsvFile, social: CsvFile, s: Settings, decode: string -> Json)
    requires ProcessParcelles(cadastral, social, s, decode).Success?
    ensures Outcomes(cadastral, social, s, decode).Success?
    ensures var outs := Outcomes(cadastral, social, s, decode).value;
      var rep := ProcessParcelles(cadastral, social, s, decode).value;
      && (forall i :: 0 <= i < |outs| ==> Consistent(outs[i]))
      && rep.summary.withoutGeometry + CountIf(outs, IsMalformedPoint) == CountIf(rep.csv[1..], EmptyLastCell)
      && Summarize(outs, CountLines(social)).withoutGeometry == CountIf(rep.csv[1..], EmptyLastCell)
      && ((forall i :: 0 <= i < |outs| ==> (outs[i].point ==> outs[i].geometry != ""))
          ==> rep.summary == Summarize(outs, CountLines(social)))
  {
    var outs := Outcomes(cadastral, social, s, decode).value;
    var total := CountLines(social);
    EmptyCellsAreMissingGeometries(outs);
    SummaryAsWrittenCounts(outs, total);
    if forall i :: 0 <= i < |outs| ==> (outs[i].point ==> outs[i].geometry != "") {
      SummariesAgreeOnWellFormedGps(outs, total);
    }
  }

  /**
   * Line i of the written CSV is the join of record i of the social file:
   * the rows are neither reordered, dropped nor merged.
   */
  lemma ProcessedLineIsJoinedRow(cadastral: CsvFile, social: CsvFile, s: Settings, decode: string -> Json, i: nat)
    requires ProcessParcelles(cadastral, social, s, decode).Success?
    requires 1 <= i < |ProcessParcelles(cadastral, social, s, decode).value.csv|
    ensures social.Present? && i < |social.records|
    ensures GetHeader(social).Success? && ResolveLayout(GetHeader(social).value, s).Success? && Load(cadastral, s).Success?
    ensures var o := JoinRow(social.records[i], ResolveLayout(GetHeader(social).value, s).value, s, Load(cadastral, s).value, decode);
      o.Success? && ProcessParcelles(cadastral, social, s, decode).value.csv[i] == o.value.cells
  {
    var header := GetHeader(social).value;
    var layout := ResolveLayout(header, s).value;
    var rows := social.records[1..];
    var outs := JoinRows(rows, layout, s, Load(cadastral, s).value, decode).value;
    assert rows[i - 1] == social.records[i];
    assert OutputLines(outs)[i - 1] == outs[i - 1].cells;
  }

  /**
   * The joined rows are consistent, and a row lacks a geometry exactly when
   * its output line ends with an empty cell.
   */
  lemma JoinedRowsSummary(rows: seq<Record>, layout: Layout, s: Settings, index: GeometryIndex, decode: string -> Json)
    requires Loaded(index) && JoinRows(rows, layout, s, index, decode).Success?
    ensures var outs := JoinRows(rows, layout, s, index, decode).value;
      && (forall i :: 0 <= i < |outs| ==> Consistent(outs[i]) && EndsWithGeometry(outs[i]))
      && CountIf(outs, LacksGeometry) == CountIf(OutputLines(outs), EmptyLastCell)
  {
    var outs := JoinRows(rows, layout, s, index, decode).value;
    forall i | 0 <= i < |outs| ensures Consistent(outs[i]) && EndsWithGeometry(outs[i]) {
      JoinRowConsistent(rows[i], layout, s, index, decode);
      JoinRowEndsWithGeometry(rows[i], layout, s, index, decode);
    }
    EmptyCellsAreMissingGeometries(outs);
  }

  /** The last cell written for an outcome is its geometry. */
  predicate EndsWithGeometry(o: RowOutcome) {
    |o.cells| > 0 && o.cells[|o.cells| - 1] == o.geometry
  }

  lemma JoinRowEndsWithGeometry(cells: seq<string>, layout: Layout, s: Settings, index: GeometryIndex, decode: string -> Json)
    requires JoinRow(cells, layout, s, index, decode).Success?
    ensures EndsWithGeometry(JoinRow(cells, layout, s, index, decode).value)
  {
    JoinRowCells(cells, layout, s, index, decode);
  }

  /** When every line ends with its geometry, empty geometry cells count the rows without one. */
  lemma EmptyCellsAreMissingGeometries(outs: seq<RowOutcome>)
    requires forall i :: 0 <= i < |outs| ==> EndsWithGeometry(outs[i])
    ensures CountIf(outs, LacksGeometry) == CountIf(OutputLines(outs), EmptyLastCell)
  {
    var lines := OutputLines(outs);
    forall i | 0 <= i < |outs| ensures LacksGeometry(outs[i]) <==> EmptyLastCell(lines[i]) {
      assert EndsWithGeometry(outs[i]);
    }
    CountAlong(outs, LacksGeometry, lines, EmptyLastCell);
  }


  /** The geometry index the command loads, with its configured cadastral columns. */
  function Load(cadastral: CsvFile, s: Settings): (r: Result<GeometryIndex, Error>)
    ensures r.Success? ==> Loaded(r.value)
  {
    LoadCadastralData(cadastral, s.colCadastralId, s.colCadastralGeo, s.colCadastralLat, s.colCadastralLon)
  }
}
