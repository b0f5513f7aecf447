/**
 * CadastralDataService: the geometry index, a map from the trimmed parcel id
 * of the cadastral file to the record of the LAST row carrying that id.
 */
module CadastralData {
  import opened Wrappers
  import opened Errors
  import opened PhpString
  import opened Csv

  /** One indexed parcel: the raw geometry text, and lat/lon (null when absent). */
  datatype GeometryRecord = GeometryRecord(geo: string, lat: Option<string>, lon: Option<string>)

  type GeometryIndex = map<string, GeometryRecord>

  /** Positions of the four columns in the header; lat and lon are optional. */
  datatype Columns = Columns(id: nat, geo: nat, lat: Option<nat>, lon: Option<nat>)

  /** The row's key: its id cell trimmed of spaces and double quotes. */
  function RowId(row: Record, cols: Columns): (id: string)
    ensures Trimmed(id, SpaceQuote)
    ensures cols.id < |row| ==> id == Trim(row[cols.id], SpaceQuote)
    ensures cols.id >= |row| ==> id == ""
  {
    Trim(CellText(row, cols.id), SpaceQuote)
  }

  /** The row's geometry cell, raw. */
  function RowGeo(row: Record, cols: Columns): string {
    CellText(row, cols.geo)
  }

  /** A row is indexed unless its id or its geometry is PHP-empty ("" or "0"). */
  predicate Kept(row: Record, cols: Columns)
    ensures Kept(row, cols) ==> cols.id < |row| && cols.geo < |row|
    ensures Kept(row, cols) ==> RowId(row, cols) != "" && RowGeo(row, cols) != ""
  {
    !PhpEmpty(RowId(row, cols)) && !PhpEmpty(RowGeo(row, cols))
  }

  /** The key a row contributes to the index: its id when kept, none otherwise. */
  function KeyOf(row: Record, cols: Columns): Option<string> {
    if Kept(row, cols) then Some(RowId(row, cols)) else None
  }

  /** The keys of all rows, in file order. */
  function Keys(rows: seq<Record>, cols: Columns): (ks: seq<Option<string>>)
    ensures |ks| == |rows|
    ensures forall i :: 0 <= i < |rows| ==> ks[i] == KeyOf(rows[i], cols)
  {
    seq(|rows|, i requires 0 <= i < |rows| => KeyOf(rows[i], cols))
  }

  /** The record a kept row contributes; lat/lon null when their column is absent. */
  function RecordOf(row: Record, cols: Columns): (r: GeometryRecord)
    ensures cols.geo < |row| ==> r.geo == row[cols.geo]
    ensures r.lat.Some? <==> cols.lat.Some? && cols.lat.value < |row|
    ensures r.lat.Some? ==> r.lat.value == row[cols.lat.value]
    ensures r.lon.Some? <==> cols.lon.Some? && cols.lon.value < |row|
    ensures r.lon.Some? ==> r.lon.value == row[cols.lon.value]
  {
    GeometryRecord(
      RowGeo(row, cols),
      if cols.lat.Some? then Cell(row, cols.lat.value) else None,
      if cols.lon.Some? then Cell(row, cols.lon.value) else None)
  }

  /** The foreach of loadCadastralData: rows folded in order into the index. */
  function BuildIndex(rows: seq<Record>, cols: Columns): (m: GeometryIndex)
    ensures forall k :: k in m ==> !PhpEmpty(k) && Trimmed(k, SpaceQuote)
    ensures forall k :: k in m ==> !PhpEmpty(m[k].geo)
  {
    if |rows| == 0 then map[]
    else
      var m := BuildIndex(rows[..|rows| - 1], cols);
      var row := rows[|rows| - 1];
      if Kept(row, cols) then m[RowId(row, cols) := RecordOf(row, cols)] else m
  }

  /** The last position holding `x`, if any. */
  function LastIndex<T(==)>(xs: seq<T>, x: T): (r: Option<nat>)
    ensures r.Some? ==> r.value < |xs| && xs[r.value] == x
    ensures r.Some? ==> forall j :: r.value < j < |xs| ==> xs[j] != x
    ensures r.None? <==> x !in xs
  {
    if |xs| == 0 then None
    else if xs[|xs| - 1] == x then Some(|xs| - 1)
    else
      var r := LastIndex(xs[..|xs| - 1], x);
      assert xs == xs[..|xs| - 1] + [xs[|xs| - 1]];
      r
  }

  /**
   * The reference reading of "last row wins": the position of the last kept
   * row whose id is `k`.
   */
  function LastWith(rows: seq<Record>, cols: Columns, k: string): (r: Option<nat>)
    ensures r.Some? ==> r.value < |rows| && KeyOf(rows[r.value], cols) == Some(k)
    ensures r.Some? ==> forall j :: r.value < j < |rows| ==> Keys(rows, cols)[j] != Some(k)
    ensures r.None? <==> Some(k) !in Keys(rows, cols)
  {
    LastIndex(Keys(rows, cols), Some(k))
  }

  /**
   * The index holds exactly the ids of kept rows, each with the record of the
   * last kept row carrying it.
   */
  lemma BuildIndexIsLastWins(rows: seq<Record>, cols: Columns, k: string)
    ensures k in BuildIndex(rows, cols) <==> LastWith(rows, cols, k).Some?
    ensures k in BuildIndex(rows, cols) ==>
      BuildIndex(rows, cols)[k] == RecordOf(rows[LastWith(rows, cols, k).value], cols)
  {
    BuildIndexIsIndexOf(rows, cols);
    IndexOfLastWins(Keys(rows, cols), Records(rows, cols), k);
  }

  /** The records of all rows, in file order. */
  function Records(rows: seq<Record>, cols: Columns): (rs: seq<GeometryRecord>)
    ensures |rs| == |rows|
    ensures forall i :: 0 <= i < |rows| ==> rs[i] == RecordOf(rows[i], cols)
  {
    seq(|rows|, i requires 0 <= i < |rows| => RecordOf(rows[i], cols))
  }

  /** A map built from parallel keys and values, a later key overriding an earlier one. */
  function IndexOf<V>(keys: seq<Option<string>>, vals: seq<V>): map<string, V>
    requires |keys| == |vals|
  {
    if |keys| == 0 then map[]
    else
      var m := IndexOf(keys[..|keys| - 1], vals[..|vals| - 1]);
      if keys[|keys| - 1].Some? then m[keys[|keys| - 1].value := vals[|vals| - 1]] else m
  }

  lemma {:induction false} IndexOfLastWins<V>(keys: seq<Option<string>>, vals: seq<V>, k: string)
    requires |keys| == |vals|
    ensures k in IndexOf(keys, vals) <==> LastIndex(keys, Some(k)).Some?
    ensures k in IndexOf(keys, vals) ==> IndexOf(keys, vals)[k] == vals[LastIndex(keys, Some(k)).value]
  {
    if |keys| > 0 {
      var n := |keys| - 1;
      IndexOfLastWins(keys[..n], vals[..n], k);
      if keys[n] != Some(k) {
        var w := LastIndex(keys[..n], Some(k));
        if w.Some? {
          assert vals[..n][w.value] == vals[w.value];
        }
      }
    }
  }

  lemma {:induction false} BuildIndexIsIndexOf(rows: seq<Record>, cols: Columns)
    ensures BuildIndex(rows, cols) == IndexOf(Keys(rows, cols), Records(rows, cols))
  {
    if |rows| > 0 {
      var n := |rows| - 1;
      BuildIndexIsIndexOf(rows[..n], cols);
      KeysPrefix(rows, cols);
      assert Records(rows[..n], cols) == Records(rows, cols)[..n];
    }
  }

  lemma KeysPrefix(rows: seq<Record>, cols: Columns)
    requires |rows| > 0
    ensures Keys(rows[..|rows| - 1], cols) == Keys(rows, cols)[..|rows| - 1]
  {
  }

  /** Every kept row's id is a key of the index. */
  lemma KeptRowIndexed(rows: seq<Record>, cols: Columns, i: nat)
    requires i < |rows| && Kept(rows[i], cols)
    ensures RowId(rows[i], cols) in BuildIndex(rows, cols)
  {
    var k := RowId(rows[i], cols);
    assert Keys(rows, cols)[i] == Some(k);
    BuildIndexIsLastWins(rows, cols, k);
  }

  /** Every key of the index is the id of some kept row. */
  lemma IndexKeyFromRow(rows: seq<Record>, cols: Columns, k: string)
    requires k in BuildIndex(rows, cols)
    ensures exists i :: 0 <= i < |rows| && Kept(rows[i], cols) && RowId(rows[i], cols) == k
  {
    BuildIndexIsLastWins(rows, cols, k);
    var i := LastWith(rows, cols, k).value;
    assert KeyOf(rows[i], cols) == Some(k);
  }

  /** Indexing one more row: a kept row sets its id's record, a skipped row changes nothing. */
  lemma BuildIndexSnoc(rows: seq<Record>, row: Record, cols: Columns)
    ensures Kept(row, cols) ==> BuildIndex(rows + [row], cols) == BuildIndex(rows, cols)[RowId(row, cols) := RecordOf(row, cols)]
    ensures !Kept(row, cols) ==> BuildIndex(rows + [row], cols) == BuildIndex(rows, cols)
  {
    var all := rows + [row];
    assert all[..|all| - 1] == rows;
    assert all[|all| - 1] == row;
  }

  /** A skipped row contributes nothing: the index is as if it were absent. */
  lemma SkippedRowIgnored(rows: seq<Record>, row: Record, cols: Columns)
    requires !Kept(row, cols)
    ensures BuildIndex(rows + [row], cols) == BuildIndex(rows, cols)
  {
    BuildIndexSnoc(rows, row, cols);
  }

  /**
   * A kept row's record replaces whatever earlier rows stored under its id:
   * of two rows with the same id, the later one wins.
   */
  lemma LaterRowWins(rows: seq<Record>, row: Record, cols: Columns)
    requires Kept(row, cols)
    ensures RowId(row, cols) in BuildIndex(rows + [row], cols)
      && BuildIndex(rows + [row], cols)[RowId(row, cols)] == RecordOf(row, cols)
  {
    BuildIndexSnoc(rows, row, cols);
  }

  /**
   * loadCadastralData: reads the header, fails when the id or geometry column
   * is missing, then indexes every data row.
   */
  function LoadCadastralData(f: CsvFile, colId: string, colGeo: string, colLat: string, colLon: string)
    : (r: Result<GeometryIndex, Error>)
    ensures GetHeader(f).Failure? ==> r == Failure(GetHeader(f).error)
    ensures GetHeader(f).Success? ==>
      (r.Failure? <==> colId !in GetHeader(f).value || colGeo !in GetHeader(f).value)
    ensures GetHeader(f).Success? && r.Failure? ==> r.error == RequiredColumnsMissing([colId, colGeo])
    ensures r.Success? ==> r.value == BuildIndex(f.records[1..], ResolveColumns(GetHeader(f).value, colId, colGeo, colLat, colLon).value)
  {
    var header :- GetHeader(f);
    var cols :- ResolveColumns(header, colId, colGeo, colLat, colLon);
    ReadCsvRows(f);
    Success(BuildIndex(Rows(ReadCsv(f).value), cols))
  }

  /** The four column positions; only the id and geometry columns are required. */
  function ResolveColumns(header: seq<string>, colId: string, colGeo: string, colLat: string, colLon: string)
    : (r: Result<Columns, Error>)
    ensures r.Success? <==> colId in header && colGeo in header
    ensures r.Failure? ==> r.error == RequiredColumnsMissing([colId, colGeo])
    ensures r.Success? ==> r.value.id < |header| && r.value.geo < |header|
    ensures r.Success? ==> header[r.value.id] == colId && header[r.value.geo] == colGeo
    ensures r.Success? ==> (r.value.lat.Some? <==> colLat in header) && (r.value.lon.Some? <==> colLon in header)
  {
    var id := Search(header, colId);
    var geo := Search(header, colGeo);
    if id.None? || geo.None? then Failure(RequiredColumnsMissing([colId, colGeo]))
    else Success(Columns(id.value, geo.value, Search(header, colLat), Search(header, colLon)))
  }

  /** Absent lat/lon columns never make loading fail. */
  lemma LatLonOptional(f: CsvFile, colId: string, colGeo: string, colLat: string, colLon: string, otherLat: string, otherLon: string)
    ensures LoadCadastralData(f, colId, colGeo, colLat, colLon).Success?
        <==> LoadCadastralData(f, colId, colGeo, otherLat, otherLon).Success?
  {
  }

  /** With the lat column absent, every record's lat is null. */
  lemma {:induction false} AbsentLatIsNull(rows: seq<Record>, cols: Columns, k: string)
    requires cols.lat.None? && k in BuildIndex(rows, cols)
    ensures BuildIndex(rows, cols)[k].lat.None?
  {
    BuildIndexIsLastWins(rows, cols, k);
  }
}
