/**
 * CsvService over already-parsed files.
 *
 * A file is either missing or a sequence of records, each record the cells
 * fgetcsv returned for one line (semicolon-delimited, `"`-quoted,
 * backslash-escaped; the parsing itself is not part of this model). The
 * first record is the header.
 */
module Csv {
  import opened Wrappers
  import opened Errors
  import opened PhpString

  type Record = seq<string>

  datatype CsvFile = Missing | Present(records: seq<Record>)

  /** One element of the readCsv stream: the cleaned header and a raw data record. */
  datatype Item = Item(header: seq<string>, row: Record)

  /** The UTF-8 byte-order mark, three bytes. */
  const Bom: string := "\U{EF}\U{BB}\U{BF}"

  predicate StartsWithBom(s: string) {
    |s| >= 3 && s[..3] == Bom
  }

  /** `preg_replace('/^\xEF\xBB\xBF/', '', $s)`: one leading mark removed. */
  function StripBom(s: string): (r: string)
    ensures StartsWithBom(s) ==> Bom + r == s
    ensures !StartsWithBom(s) ==> r == s
  {
    if StartsWithBom(s) then s[3..] else s
  }

  /**
   * cleanHeader: the mark stripped from the first cell when that cell is not
   * PHP-empty, then every cell trimmed of spaces and double quotes.
   */
  function CleanHeader(header: seq<string>): (r: seq<string>)
    ensures |r| == |header|
    ensures forall i :: 0 <= i < |r| ==> Trimmed(r[i], SpaceQuote)
    ensures forall i :: 0 < i < |r| ==> r[i] == Trim(header[i], SpaceQuote)
    ensures |r| > 0 ==> r[0] == Trim(StripBom(header[0]), SpaceQuote)
  {
    var h := if |header| > 0 && !PhpEmpty(header[0]) then header[0 := StripBom(header[0])] else header;
    assert forall i :: 0 < i < |h| ==> h[i] == header[i];
    assert |h| > 0 ==> h[0] == StripBom(header[0]);
    seq(|h|, i requires 0 <= i < |h| => Trim(h[i], SpaceQuote))
  }

  /** getHeader. */
  function GetHeader(f: CsvFile): (r: Result<seq<string>, Error>)
    ensures f.Missing? ==> r == Failure(FileNotFound)
    ensures f.Present? && |f.records| == 0 ==> r == Failure(NoHeader)
    ensures f.Present? && |f.records| > 0 ==> r == Success(CleanHeader(f.records[0]))
  {
    match f
    case Missing => Failure(FileNotFound)
    case Present(records) =>
      if |records| == 0 then Failure(NoHeader) else Success(CleanHeader(records[0]))
  }

  /** readCsv: one item per record after the header, all sharing the cleaned header. */
  function ReadCsv(f: CsvFile): (r: Result<seq<Item>, Error>)
    ensures r.Failure? <==> GetHeader(f).Failure?
    ensures r.Failure? ==> r.error == GetHeader(f).error
    ensures r.Success? ==> |r.value| == |f.records| - 1
    ensures r.Success? ==> forall i :: 0 <= i < |r.value| ==>
      r.value[i].header == GetHeader(f).value && r.value[i].row == f.records[i + 1]
  {
    var header :- GetHeader(f);
    var data := f.records[1..];
    Success(seq(|data|, i requires 0 <= i < |data| => Item(header, data[i])))
  }

  /** The raw records of a readCsv stream. */
  function Rows(items: seq<Item>): (rows: seq<Record>)
    ensures |rows| == |items|
    ensures forall i :: 0 <= i < |items| ==> rows[i] == items[i].row
  {
    seq(|items|, i requires 0 <= i < |items| => items[i].row)
  }

  /** countLines: records after the header; 0 for a missing or empty file. */
  function CountLines(f: CsvFile): (n: nat)
    ensures f.Missing? ==> n == 0
    ensures f.Present? && |f.records| == 0 ==> n == 0
    ensures ReadCsv(f).Success? ==> n == |ReadCsv(f).value|
  {
    match f
    case Missing => 0
    case Present(records) => if |records| == 0 then 0 else |records| - 1
  }

  /** `array_search` in a header: the first position of `name`, or false. */
  function Search(header: seq<string>, name: string): (r: Option<nat>)
    ensures r.Some? ==> r.value < |header| && header[r.value] == name
    ensures r.Some? ==> forall j :: 0 <= j < r.value ==> header[j] != name
    ensures r.None? <==> name !in header
  {
    if |header| == 0 then None
    else if header[0] == name then Some(0)
    else match Search(header[1..], name)
      case Some(i) => Some(i + 1)
      case None => None
  }

  /** The data records of a file whose header reads: what readCsv streams, in order. */
  lemma ReadCsvRows(f: CsvFile)
    requires ReadCsv(f).Success?
    ensures Rows(ReadCsv(f).value) == f.records[1..]
  {
  }

  /**
   * The mark is stripped before trimming: a first cell made of the mark, then
   * spaces and quotes around a name, cleans to the name.
   */
  lemma BomThenTrim(pre: string, name: string, post: string, rest: seq<string>)
    requires forall i :: 0 <= i < |pre| ==> pre[i] in SpaceQuote
    requires forall i :: 0 <= i < |post| ==> post[i] in SpaceQuote
    requires name != "" && Trimmed(name, SpaceQuote)
    ensures CleanHeader([Bom + pre + name + post] + rest)[0] == name
  {
    var c := Bom + pre + name + post;
    assert c[..3] == Bom && c[3..] == pre + name + post;
    assert StripBom(c) == pre + name + post;
    TrimWrapped(pre, name, post, SpaceQuote);
  }

  /** Cells other than the first are never touched by mark stripping. */
  lemma BomOnlyInFirstCell(header: seq<string>, i: nat)
    requires 0 < i < |header| && StartsWithBom(header[i])
    ensures CleanHeader(header)[i] == Trim(header[i], SpaceQuote)
    ensures StartsWithBom(CleanHeader(header)[i])
  {
    var t := header[i];
    assert t[0] == '\U{EF}' && t[1] == '\U{BB}' && t[2] == '\U{BF}';
    assert TrimLeft(t, SpaceQuote) == t;
    var r := TrimRight(t, SpaceQuote);
    assert |r| >= 3 by {
      if |r| < 3 {
        assert t[2] in SpaceQuote;
      }
    }
    assert r[..3] == t[..3];
  }

  /** An empty header stays empty. */
  lemma EmptyHeaderStaysEmpty()
    ensures CleanHeader([]) == []
  {
  }

  /** A header whose cells are already clean comes back unchanged. */
  lemma {:induction false} CleanHeaderOfCleanHeader(header: seq<string>)
    requires forall i :: 0 <= i < |header| ==> Trimmed(header[i], SpaceQuote)
    requires |header| > 0 ==> !StartsWithBom(header[0])
    ensures CleanHeader(header) == header
  {
    var r := CleanHeader(header);
    forall i | 0 <= i < |header| ensures r[i] == header[i] {
      TrimOfTrimmed(header[i], SpaceQuote);
    }
  }

  /**
   * Cleaning twice is cleaning once, unless trimming uncovers a mark at the
   * start of the first cell.
   */
  lemma CleanHeaderIdempotent(header: seq<string>)
    requires |header| > 0 ==> !StartsWithBom(CleanHeader(header)[0])
    ensures CleanHeader(CleanHeader(header)) == CleanHeader(header)
  {
    CleanHeaderOfCleanHeader(CleanHeader(header));
  }

  /**
   * The exception to idempotence: a space before the mark hides it from the
   * first pass, and the second pass strips it.
   */
  lemma CleanHeaderNotIdempotent(name: string)
    requires name != "" && Trimmed(name, SpaceQuote)
    ensures CleanHeader([" " + Bom + name]) == [Bom + name]
    ensures CleanHeader(CleanHeader([" " + Bom + name])) == [name]
  {
    SpaceHidesBom(name);
    BomUncovered(name);
  }

  /** A first cell that starts with a space keeps the mark behind it. */
  lemma SpaceHidesBom(name: string)
    requires name != "" && Trimmed(name, SpaceQuote)
    ensures CleanHeader([" " + Bom + name]) == [Bom + name]
  {
    var c := " " + Bom + name;
    var once := Bom + name;
    assert c[0] == ' ' && Bom[0] != ' ';
    assert StripBom(c) == c;
    assert c == " " + once + "";
    assert once[0] == Bom[0] && once[|once| - 1] == name[|name| - 1];
    TrimWrapped(" ", once, "", SpaceQuote);
    assert Trim(StripBom(c), SpaceQuote) == once;
  }

  /** A first cell that starts with the mark loses it. */
  lemma BomUncovered(name: string)
    requires name != "" && Trimmed(name, SpaceQuote)
    ensures CleanHeader([Bom + name]) == [name]
  {
    var once := Bom + name;
    assert once[..3] == Bom && once[3..] == name;
    assert StripBom(once) == name;
    TrimOfTrimmed(name, SpaceQuote);
    assert Trim(StripBom(once), SpaceQuote) == name;
  }

  /** countLines: a missing file counts 0 and a file of n + 1 records counts n. */
  lemma CountLinesExamples(header: Record, data: seq<Record>)
    ensures CountLines(Missing) == 0
    ensures CountLines(Present([header] + data)) == |data|
  {
  }

  /** readCsv and getHeader on a missing file fail with "File not found". */
  lemma MissingFileFails()
    ensures ReadCsv(Missing) == Failure(FileNotFound)
    ensures GetHeader(Missing) == Failure(FileNotFound)
  {
  }
}
