/**
 * The localization reader: it splits a tab-separated sheet into lines, picks
 * the column whose header names the requested language, and adds
 * `key -> text` for every data row to a dictionary the caller owns.
 *
 * The C# class holds no mutable state: its settings are constants or
 * read-only fields, and its value parser is a plain field that only the
 * constructor assigns. So the settings are module constants and its
 * operations module members.
 */
module TSVReader {
  import opened Wrappers
  import opened Strings
  import opened Dictionaries

  /** Whether data rows are split only on tabs outside double quotes; fixed off. */
  const AvoidSplittingInQuotationMarks: bool := false

  /** The line endings, in the order `String.Split` tries them at each position. */
  const LineSeparator: seq<string> := ["\r\n", "\n\r", "\n"]

  /** The column separator. */
  const Separator: char := '\t'

  /** The failures `Read` lets escape to its caller. */
  datatype Error =
    | ResourceNotFound  // the asset does not exist, so its text cannot be read
    | MissingHeaderRow  // the text has no non-empty line, so `lines[0]` is out of range
    | HeaderNotFound    // no header contains the language code

  // ---------------------------------------------------------------------------
  // Splitting
  // ---------------------------------------------------------------------------

  /** `text.Split(LineSeparator, StringSplitOptions.RemoveEmptyEntries)`. */
  function SplitLines(text: string): (lines: seq<string>)
    ensures forall i :: 0 <= i < |lines| ==> lines[i] != ""
    ensures forall l :: l in lines <==> l in SplitAny(text, LineSeparator) && l != ""
  {
    RemoveEmpty(SplitAny(text, LineSeparator))
  }

  /**
   * The quote-aware value parser: a tab separates two fields only when an even
   * number of double quotes follows it on the line, so tabs between a pair of
   * quotes stay inside their field.
   */
  function SplitOutsideQuotes(s: string): (fields: seq<string>)
    ensures |fields| >= 1
  {
    if s == [] then [""]
    else
      var rest := SplitOutsideQuotes(s[1..]);
      if s[0] == Separator && Count(s[1..], '"') % 2 == 0 then [""] + rest
      else [[s[0]] + rest[0]] + rest[1..]
  }

  /** The fields of a data row as the value parser, configured by `avoidQuotes`, yields them. */
  function ValueFields(line: string, avoidQuotes: bool): (fields: seq<string>)
    ensures |fields| >= 1
  {
    if avoidQuotes then SplitOutsideQuotes(line) else Split(line, Separator)
  }

  /** The fields of a data row under the reader's configuration. */
  function Fields(row: string): (fields: seq<string>)
    ensures |fields| >= 1
  {
    ValueFields(row, AvoidSplittingInQuotationMarks)
  }

  /** The first field of a data row, used as the dictionary key. */
  function Key(row: string): (k: string)
    ensures Separator !in k
  {
    Fields(row)[0]
  }

  // ---------------------------------------------------------------------------
  // Header selection
  // ---------------------------------------------------------------------------

  /** The first column whose header contains `language`, if there is one. */
  function HeaderColumn(language: string, headers: seq<string>): (r: Option<nat>)
    ensures r.Some? ==> r.value < |headers| && Contains(headers[r.value], language)
    ensures r.Some? ==> forall j :: 0 <= j < r.value ==> !Contains(headers[j], language)
    ensures r.None? <==> forall j :: 0 <= j < |headers| ==> !Contains(headers[j], language)
  {
    if headers == [] then None
    else if Contains(headers[0], language) then Some(0)
    else match HeaderColumn(language, headers[1..])
      case None => None
      case Some(j) => Some(j + 1)
  }

  /** `ReadHeader`: scans the headers left to right; `None` stands for the exception. */
  method ReadHeader(language: string, headers: seq<string>) returns (r: Option<nat>)
    ensures r.Some? ==> r.value < |headers| && Contains(headers[r.value], language)
    ensures r.Some? ==> forall j :: 0 <= j < r.value ==> !Contains(headers[j], language)
    ensures r.None? <==> forall j :: 0 <= j < |headers| ==> !Contains(headers[j], language)
    ensures r == HeaderColumn(language, headers)
  {
    var i := 0;
    while i < |headers|
      invariant 0 <= i <= |headers|
      invariant forall j :: 0 <= j < i ==> !Contains(headers[j], language)
    {
      if Contains(headers[i], language) {
        return Some(i);
      }
      i := i + 1;
    }
    return None;
  }

  // ---------------------------------------------------------------------------
  // Row population
  // ---------------------------------------------------------------------------

  /** A row the loop passes over: its key is empty or already in the table. */
  predicate Skipped(row: string, d: map<string, string>)
  {
    Key(row) == "" || Key(row) in d
  }

  /** A row with no field at the target column. */
  predicate IsShort(row: string, languageId: nat)
  {
    |Fields(row)| <= languageId
  }

  /**
   * The table after the data rows `rows` have been processed in order from
   * `d`: skipped rows change nothing, the first short row with a new key ends
   * processing, any other row adds its key with the text at `languageId`.
   */
  function Populate(rows: seq<string>, languageId: nat, d: map<string, string>): (r: map<string, string>)
    ensures d.Keys <= r.Keys
    ensures "" in r ==> "" in d
    decreases |rows|
  {
    if rows == [] then d
    else if Skipped(rows[0], d) then Populate(rows[1..], languageId, d)
    else if IsShort(rows[0], languageId) then d
    else Populate(rows[1..], languageId, d[Key(rows[0]) := Fields(rows[0])[languageId]])
  }

  /** How many of `rows` are processed before the loop stops at a short row. */
  function Processed(rows: seq<string>, languageId: nat, d: map<string, string>): (n: nat)
    ensures n <= |rows|
    decreases |rows|
  {
    if rows == [] then 0
    else if Skipped(rows[0], d) then 1 + Processed(rows[1..], languageId, d)
    else if IsShort(rows[0], languageId) then 0
    else 1 + Processed(rows[1..], languageId, d[Key(rows[0]) := Fields(rows[0])[languageId]])
  }

  /** The table after `ParseValues`: line 0 is the header row and is never read as data. */
  function ParsedTable(lines: seq<string>, languageId: nat, d: map<string, string>): (r: map<string, string>)
    ensures d.Keys <= r.Keys
    ensures "" in r ==> "" in d
  {
    if lines == [] then d else Populate(lines[1..], languageId, d)
  }

  /** `ParseValues`: adds the data rows of `lines` to `dictionary` in place. */
  method ParseValues(lines: seq<string>, languageId: nat, dictionary: Dictionary)
    modifies dictionary
    ensures dictionary.entries == ParsedTable(lines, languageId, old(dictionary.entries))
  {
    ghost var target := ParsedTable(lines, languageId, dictionary.entries);
    var i := 1;
    while i < |lines|
      invariant 1 <= i && (i <= |lines| || lines == [])
      invariant Populate(if i <= |lines| then lines[i..] else [], languageId, dictionary.entries) == target
    {
      ghost var rest := lines[i..];
      assert rest[0] == lines[i] && rest[1..] == lines[i + 1..];
      var fields := ValueFields(lines[i], AvoidSplittingInQuotationMarks);
      var key := fields[0];
      if key == "" {
        i := i + 1;
      } else {
        var present := dictionary.ContainsKey(key);
        if present {
          i := i + 1;
        } else if |fields| <= languageId {
          break;
        } else {
          dictionary.Add(key, fields[languageId]);
          i := i + 1;
        }
      }
    }
  }

  // ---------------------------------------------------------------------------
  // The whole load
  // ---------------------------------------------------------------------------

  /**
   * What `Read` computes from the asset's text (`None` when the asset does not
   * exist) and the table it is given.
   */
  function Load(language: string, asset: Option<string>, d: map<string, string>): (r: Result<map<string, string>, Error>)
    ensures asset.None? <==> r == Failure(ResourceNotFound)
    ensures asset.Some? && SplitLines(asset.value) == [] <==> r == Failure(MissingHeaderRow)
    ensures r.Success? ==> d.Keys <= r.value.Keys && ("" in r.value ==> "" in d)
  {
    match asset
    case None => Failure(ResourceNotFound)
    case Some(text) =>
      var lines := SplitLines(text);
      if lines == [] then Failure(MissingHeaderRow)
      else match HeaderColumn(language, Split(lines[0], Separator))
        case None => Failure(HeaderNotFound)
        case Some(column) => Success(ParsedTable(lines, column, d))
  }

  /**
   * `Read`: splits the text into lines and the first line into headers, selects
   * the language's column and fills `dictionary`. On a failure the dictionary
   * is left as it was, since every failure is detected before any row is read.
   */
  method Read(language: string, asset: Option<string>, dictionary: Dictionary) returns (r: Outcome<Error>)
    modifies dictionary
    ensures Load(language, asset, old(dictionary.entries)).Success? ==>
              r == Pass && dictionary.entries == Load(language, asset, old(dictionary.entries)).value
    ensures Load(language, asset, old(dictionary.entries)).Failure? ==>
              r == Fail(Load(language, asset, old(dictionary.entries)).error) && dictionary.entries == old(dictionary.entries)
  {
    if asset.None? {
      return Fail(ResourceNotFound);
    }
    var lines := SplitLines(asset.value);
    if |lines| == 0 {
      return Fail(MissingHeaderRow);
    }
    var headers := Split(lines[0], Separator);
    var targetColumn := ReadHeader(language, headers);
    if targetColumn.None? {
      return Fail(HeaderNotFound);
    }
    ParseValues(lines, targetColumn.value, dictionary);
    return Pass;
  }
}
