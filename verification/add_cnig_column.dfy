/**
 * The add-cnig-column command: every row of the social-housing file gets the
 * CNIG code converted from its MAJIC code_parcelle, in the id_parcellaire
 * column (added at the end of the header when the file has none).
 *
 * A row with more cells than the target index has that cell overwritten;
 * a shorter row has the code appended after its last cell, wherever that is.
 */
module AddCnigColumn {
  import opened Wrappers
  import opened Errors
  import opened PhpString
  import opened Csv
  import opened MajicConverter
  import opened Counting

  /** What the command ends with when it does not fail. */
  datatype AddOutcome =
    | Cancelled
    | Updated(lines: seq<seq<string>>, total: nat, converted: nat, errors: nat)

  /** Where the code is read and where the converted code goes. */
  datatype Target = Target(code: nat, id: nat)

  /** The MAJIC code of a row: the code cell trimmed of double quotes. */
  function RowMajic(row: Record, code: nat): (m: string)
    ensures Trimmed(m, Quote)
    ensures code < |row| ==> m == Trim(row[code], Quote)
    ensures code >= |row| ==> m == ""
  {
    Trim(CellText(row, code), Quote)
  }

  /** The CNIG code written into a row: "" when its MAJIC code is not 14 characters. */
  function RowCnig(row: Record, code: nat): (cnig: string)
    ensures cnig != "" <==> |RowMajic(row, code)| == MajicLength
    ensures cnig != "" ==> |cnig| == CnigLength
    ensures cnig != "" ==> Expand(cnig, RowMajic(row, code)[5..7]) == RowMajic(row, code)
  {
    var majic := RowMajic(row, code);
    if |majic| == MajicLength then ExpandConvert(majic); ConvertToCnigPci(majic)
    else ConvertToCnigPci(majic)
  }

  /** Update or add the id_parcellaire cell of one row. */
  function ConvertRow(row: Record, t: Target): (out: Record)
    ensures |row| > t.id ==> |out| == |row| && out[t.id] == RowCnig(row, t.code)
    ensures |row| <= t.id ==> |out| == |row| + 1 && out[|row|] == RowCnig(row, t.code)
    ensures forall j :: 0 <= j < |row| && j != t.id ==> out[j] == row[j]
  {
    var cnig := RowCnig(row, t.code);
    if |row| > t.id then row[t.id := cnig] else row + [cnig]
  }

  /** The data lines written to the new file, one per input row. */
  function ConvertRows(rows: seq<Record>, t: Target): (out: seq<Record>)
    ensures |out| == |rows|
    ensures forall i :: 0 <= i < |rows| ==> out[i] == ConvertRow(rows[i], t)
  {
    seq(|rows|, i requires 0 <= i < |rows| => ConvertRow(rows[i], t))
  }

  /** The MAJIC codes of all rows, in file order. */
  function Majics(rows: seq<Record>, code: nat): (ms: seq<string>)
    ensures |ms| == |rows|
    ensures forall i :: 0 <= i < |rows| ==> ms[i] == RowMajic(rows[i], code)
  {
    seq(|rows|, i requires 0 <= i < |rows| => RowMajic(rows[i], code))
  }

  predicate IsMajicLength(majic: string) {
    |majic| == MajicLength
  }

  predicate NotMajicLength(majic: string) {
    |majic| != MajicLength
  }

  /** The conversion-error counter: rows whose MAJIC code does not have 14 characters. */
  function ConversionErrors(rows: seq<Record>, code: nat): (n: nat)
    ensures n <= |rows|
  {
    CountIf(Majics(rows, code), NotMajicLength)
  }

  /**
   * The successful-conversion counter: rows whose MAJIC code has 14
   * characters. Every row is counted once, as a conversion or as an error.
   */
  function Converted(rows: seq<Record>, code: nat): (n: nat)
    ensures n + ConversionErrors(rows, code) == |rows|
  {
    CountComplement(Majics(rows, code), IsMajicLength, NotMajicLength);
    CountIf(Majics(rows, code), IsMajicLength)
  }

  /**
   * The counters are those of the loop: one more row adds one to `converted`
   * when its code converts, and one to `errors` otherwise.
   */
  lemma ConvertedStep(rows: seq<Record>, row: Record, code: nat)
    ensures Converted(rows + [row], code) == Converted(rows, code) + (if RowCnig(row, code) != "" then 1 else 0)
    ensures ConversionErrors(rows + [row], code) == ConversionErrors(rows, code) + (if RowCnig(row, code) == "" then 1 else 0)
  {
    var all := Majics(rows + [row], code);
    assert all[..|rows|] == Majics(rows, code);
    assert all[|rows|] == RowMajic(row, code);
  }

  /** Every row converts exactly when every MAJIC code has 14 characters; none, when none has. */
  lemma ConvertedIffFourteen(rows: seq<Record>, code: nat)
    ensures Converted(rows, code) == |rows| <==> forall i :: 0 <= i < |rows| ==> |Majics(rows, code)[i]| == MajicLength
    ensures Converted(rows, code) == 0 <==> forall i :: 0 <= i < |rows| ==> |Majics(rows, code)[i]| != MajicLength
  {
    LengthCountIff(Majics(rows, code));
  }

  /** The count of 14-character codes reaches its two extremes exactly when all or none have 14. */
  lemma LengthCountIff(ms: seq<string>)
    ensures CountIf(ms, IsMajicLength) == |ms| <==> forall i :: 0 <= i < |ms| ==> |ms[i]| == MajicLength
    ensures CountIf(ms, IsMajicLength) == 0 <==> forall i :: 0 <= i < |ms| ==> |ms[i]| != MajicLength
  {
    CountAll(ms, IsMajicLength);
    CountNone(ms, IsMajicLength);
  }

  /**
   * The header written out and the column the code goes to: a new last
   * column when the header has no id_parcellaire column, the existing one
   * otherwise.
   */
  function OutputHeader(header: seq<string>, colId: string): (r: (seq<string>, nat))
    ensures colId !in header ==> r.0 == header + [colId] && r.1 == |header|
    ensures colId in header ==> r.0 == header && r.1 < |header| && header[r.1] == colId
    ensures r.1 < |r.0| && r.0[r.1] == colId
  {
    match Search(header, colId)
    case Some(k) => (header, k)
    case None => (header + [colId], |header|)
  }

  /**
   * execute: `confirmUpdate` is the answer to the prompt asked when the file
   * already has an id_parcellaire column.
   */
  function AddCnigColumn(social: CsvFile, colCode: string, colId: string, confirmUpdate: bool)
    : (r: Result<AddOutcome, Error>)
    ensures social.Missing? ==> r == Failure(FileNotFound)
    ensures social.Present? && |social.records| == 0 ==> r == Failure(NoHeader)
    ensures GetHeader(social).Success? ==>
      (r == Failure(RequiredColumnsMissing([colCode])) <==> colCode !in GetHeader(social).value)
    ensures r == Success(Cancelled) <==>
      GetHeader(social).Success? && colCode in GetHeader(social).value
      && colId in GetHeader(social).value && !confirmUpdate
    ensures (GetHeader(social).Success? && colCode in GetHeader(social).value
             && (colId !in GetHeader(social).value || confirmUpdate))
      ==> r.Success? && r.value.Updated?
    ensures r.Success? && r.value.Updated? ==>
      && |r.value.lines| == |social.records|
      && r.value.lines[0] == OutputHeader(GetHeader(social).value, colId).0
      && r.value.total == CountLines(social)
      && r.value.converted + r.value.errors == r.value.total
    ensures r.Success? && r.value.Updated? ==>
      && Search(GetHeader(social).value, colCode).Some?
      && var code := Search(GetHeader(social).value, colCode).value;
      && r.value.lines[1..] == ConvertRows(social.records[1..], Target(code, OutputHeader(GetHeader(social).value, colId).1))
      && r.value.converted == Converted(social.records[1..], code)
      && r.value.errors == ConversionErrors(social.records[1..], code)
  {
    var header :- GetHeader(social);
    match Search(header, colCode)
    case None => Failure(RequiredColumnsMissing([colCode]))
    case Some(code) =>
      if colId in header && !confirmUpdate then Success(Cancelled)
      else
        var total := CountLines(social);
        var (outHeader, id) := OutputHeader(header, colId);
        var rows := social.records[1..];
        var lines := [outHeader] + ConvertRows(rows, Target(code, id));
        assert lines[1..] == ConvertRows(rows, Target(code, id));
        Success(Updated(lines, total,
          Converted(rows, code), ConversionErrors(rows, code)))
  }

  /**
   * Converting lines already converted changes nothing, for rows that reach
   * the target column and a code column other than the target.
   */
  lemma ConvertRowIdempotent(row: Record, t: Target)
    requires |row| >= t.id && t.code != t.id
    ensures ConvertRow(ConvertRow(row, t), t) == ConvertRow(row, t)
  {
    var once := ConvertRow(row, t);
    assert CellText(once, t.code) == CellText(row, t.code);
  }

  lemma ConvertRowsIdempotent(rows: seq<Record>, t: Target)
    requires forall i :: 0 <= i < |rows| ==> |rows[i]| >= t.id
    requires t.code != t.id
    ensures ConvertRows(ConvertRows(rows, t), t) == ConvertRows(rows, t)
  {
    forall i | 0 <= i < |rows| ensures ConvertRow(ConvertRow(rows[i], t), t) == ConvertRow(rows[i], t) {
      ConvertRowIdempotent(rows[i], t);
    }
  }

  /** On a second run the added column is found where the first run put it. */
  lemma SecondRunFindsColumn(header: seq<string>, colId: string)
    requires colId !in header
    ensures OutputHeader(OutputHeader(header, colId).0, colId) == OutputHeader(header, colId)
  {
    assert (header + [colId])[|header|] == colId;
  }

  /** A short row gets its code after its last cell, not under the id_parcellaire header. */
  lemma ShortRowAppends(row: Record, t: Target)
    requires |row| < t.id
    ensures |ConvertRow(row, t)| <= t.id
    ensures ConvertRow(row, t)[|row|] == RowCnig(row, t.code)
  {
  }
}
