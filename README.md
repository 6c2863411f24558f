# TSVReader in Dafny

A model of the localization reader `TSVReader` (C#, Unity), with proofs about it.
The reader loads a tab-separated sheet. Its first line holds the column headers:
a key column, then one column per language. It picks the first column whose
header contains the requested language code. Then, for every later line, it adds
`first field -> field in that column` to a dictionary the caller owns.

Modules, one per file:

- `Wrappers` (`wrappers.dfy`): `Option`, `Result` and `Outcome`, which stand for
  the exceptions the reader lets escape.
- `Strings` (`strings.dfy`): the .NET string operations the reader relies on.
  - Ordinal `String.Contains`.
  - `String.Split(char, None)`.
  - `String.Split(string[], RemoveEmptyEntries)`. At each position it tries the
    separators in array order; `SeparatorAt`, `SplitAny` and `Delimiters` model
    this, and `RemoveEmpty` models dropping the empty entries.
  - Round-trip and inverse lemmas for these.
- `Dictionaries` (`dictionary.dfy`): the caller's `Dictionary<string, string>`.
  It is a class whose `entries` map is updated in place by `Add`.
- `TSVReader` (`tsv_reader.dfy`): the reader.
  - The three settings are module constants: the quote flag, the line
    separators and the tab. In the C# they are a constant and two read-only
    fields, and the value parser is a field that only the constructor assigns.
  - Both value parsers:
    - The plain tab split, `Split`, which is in use.
    - The quote-aware split, `SplitOutsideQuotes`, which the constant flag
      turns off.
  - Specification functions:
    - `HeaderColumn` selects the header.
    - `Populate`, `Processed` and `ParsedTable` describe what the row loop does.
    - `Load` describes the whole read.
  - Imperative methods, each proved against those functions:
    - `ReadHeader`: a loop with early return.
    - `ParseValues`: a loop over the lines that mutates the dictionary. It has
      `continue`-style skips and a `break`.
    - `Read`.
- `TSVProperties` (`tsv_properties.dfy`): properties of the specification
  functions, and the sheet examples worked through.

Errors are values, not exceptions:

- `Read` returns `Fail(e)` where the C# throws.
- `ResourceNotFound`: the asset is missing, so `tsvFile.text` dereferences null.
- `MissingHeaderRow`: the text yields no line, so `lines[0]` is out of range.
- `HeaderNotFound`: `ReadHeader` throws.

All three are detected before any row is read. In each case the dictionary is
left unchanged, and `Read` proves this.

Three behaviours of the C# that are easy to misstate, kept as written:

- The header match is a substring test (`headers[i].Contains(language)`), not
  equality. So "EN" selects a column headed "EN_US" (`HeaderMatchesSubstring`).
- The empty-key and duplicate-key tests come before the column is read. A row
  that is too short is therefore skipped, not fatal, when its key is empty or
  already present (`EmptyKeySkipped`, `DuplicateKeySkipped`). Only a short row
  with a new key stops the loop (`PopulateStops`).
- A key the caller's dictionary already holds is treated like a duplicate. Its
  value is never overwritten (`PopulateKeepsEntries`).

## Model

| member | source | states |
|---|---|---|
| `Strings.Contains` | TSVReader.cs:41 | `headers[i].Contains(language)` as a left-to-right scan for `sub` as a prefix of some suffix; an empty `sub` is always found and a found `sub` is no longer than `s` |
| `Strings.ContainsIff` | TSVReader.cs:41 | ordinal `Contains` holds exactly when `sub` occurs at some index of `s` |
| `Strings.Split` | TSVReader.cs:28 | splitting on a character yields one more field than there are separators, and no field holds the separator |
| `Strings.SplitJoin` | TSVReader.cs:28 | joining the fields with the separator gives the text back |
| `Strings.JoinSplit` | TSVReader.cs:28 | splitting the join of separator-free fields gives those fields back |
| `Strings.SeparatorAt` | TSVReader.cs:13 | the separator matched at a position is the first in array order that matches; none is reported only if none matches |
| `Strings.SplitAny` | TSVReader.cs:27 | `Split(lineSeparator, None)`: scanning from the left, a matching separator (the first in array order) is consumed and ends a segment, any other character joins the current segment; there is always at least one segment |
| `Strings.Delimiters` | TSVReader.cs:27 | the separators that same scan consumes, in order; each is one of the given separators |
| `Strings.SplitAnyRoundTrip` | TSVReader.cs:27 | putting each consumed separator back between the segments rebuilds the text, so nothing is lost or reordered |
| `Strings.SplitAnyAvoids` | TSVReader.cs:27 | a one-character separator occurs in no segment |
| `Strings.SplitIsSplitAny` | TSVReader.cs:28 | splitting on a `char` equals splitting on the one-element separator list |
| `Strings.RemoveEmpty` | TSVReader.cs:27 | `RemoveEmptyEntries` keeps no empty entry, and an entry is kept exactly when it is non-empty |
| `Strings.RemoveEmptySingle` | TSVReader.cs:27 | a one-entry list keeps its entry exactly when the entry is non-empty |
| `Strings.RemoveEmptyAppend` | TSVReader.cs:27 | removing empty entries commutes with concatenation, so the kept entries keep their order and number of occurrences |
| `Strings.RemoveEmptyKeepsText` | TSVReader.cs:27 | removing empty entries loses no text: the kept entries concatenate to the same text as all of them |
| `TSVReader.SplitLines` | TSVReader.cs:27 | `text.Split(lineSeparator, RemoveEmptyEntries)`: the ordered left-to-right scan with empty segments dropped; every line is non-empty, and the lines are exactly the non-empty segments |
| `TSVReader.SplitOutsideQuotes` | TSVReader.cs:21 | the quote-aware `valueParser`: a tab splits only when an even number of double quotes follows it; at least one field |
| `TSVReader.ValueFields` | TSVReader.cs:73-75 | each value parser yields at least one field, so `fields[0]` never fails |
| `TSVReader.Fields` | TSVReader.cs:73 | `valueParser.Split(lines[i])` under the fixed flag, which selects `Regex("\t")`; at least one field |
| `TSVReader.Key` | TSVReader.cs:75 | `fields[0]`, the dictionary key; it never holds a tab |
| `TSVReader.HeaderColumn` | TSVReader.cs:37-48 | the selected column is the first whose header contains the language; none is selected only if no header contains it |
| `TSVReader.ReadHeader` | TSVReader.cs:37-48 | the loop returns the first matching column, or fails exactly when no header matches; it agrees with `HeaderColumn` |
| `TSVReader.Populate` | TSVReader.cs:73-94 | the rows in order: skip a row whose key is empty or present, stop at the first short row with a new key, otherwise add `fields[0] -> fields[languageId]`; no key is lost and the empty key is never added |
| `TSVReader.Processed` | TSVReader.cs:71-92 | how many rows that loop goes through before the `break`; at most all of them |
| `TSVReader.ParsedTable` | TSVReader.cs:71 | the loop starts at line 1, so the header row is never read as data; no key is lost and the empty key is never added |
| `TSVReader.ParseValues` | TSVReader.cs:69-96 | after the loop the dictionary is what `Populate` builds from the data rows (line 0 excluded) and the old contents |
| `TSVReader.Load` | TSVReader.cs:24-35 | the whole read as a value: `ResourceNotFound` exactly when the asset is absent, `MissingHeaderRow` exactly when the text has no line, `HeaderNotFound` when no header matches, otherwise the parsed table, which keeps every given key and adds no empty key |
| `TSVReader.Read` | TSVReader.cs:24-35 | on success the dictionary holds the loaded table; on each of the three failures `Read` reports it and the dictionary is unchanged |
| `Dictionaries.Dictionary.ContainsKey` | TSVReader.cs:77 | reports exactly whether the key is present |
| `Dictionaries.Dictionary.Add` | TSVReader.cs:94 | adds the one entry and changes nothing else |
| `TSVProperties.SplitLinesWellFormed` | TSVReader.cs:27 | every line is non-empty and contains none of the three line endings |
| `TSVProperties.SplitLinesRoundTrip` | TSVReader.cs:27 | the lines are the non-empty segments of a decomposition of the text into segments and line endings that loses no text |
| `TSVProperties.LineEndingAt` | TSVReader.cs:13 | at each position `"\r\n"` wins over `"\n\r"`, which wins over `"\n"`; a carriage return that does not touch a line feed ends no line |
| `TSVProperties.SplitAnyInterleave` | TSVReader.cs:27 | plain lines joined by any mix of the three line endings split back into exactly those lines and endings |
| `TSVProperties.SplitLinesInterleave` | TSVReader.cs:27 | no plain line is lost, merged or reordered, whatever line endings join them |
| `TSVProperties.BlankRunDropped` | TSVReader.cs:27 | a run of line endings in any mix, before the start of a line or the end of the text, yields no line: no carriage return is left over, however the scan pairs the characters |
| `TSVProperties.SplitLinesAfterRun` | TSVReader.cs:27 | after a run of line endings, lines that are each plain or blank split into exactly the non-empty ones, in order and with their multiplicity |
| `TSVProperties.SplitLinesBlankLines` | TSVReader.cs:27 | blank lines, that is two consecutive line endings, add no line, and every plain line is kept in order |
| `TSVProperties.SplitLinesTrailingEnding` | TSVReader.cs:27 | a line ending after the last line adds no line |
| `TSVProperties.OnlyLineFeeds` | TSVReader.cs:27-28 | text made only of line feeds has no line, so it has no header row |
| `TSVProperties.HasHeaderRow` | TSVReader.cs:27-28 | text holding any character other than `\r` and `\n` has a header row |
| `TSVProperties.FieldsRoundTrip` | TSVReader.cs:73 | a row's fields are its tab-separated pieces and rejoin to the row |
| `TSVProperties.FieldsAreSplitAny` | TSVReader.cs:21 | the `Regex("\t")` value parser is the ordered-separator scan with the single separator `"\t"` |
| `TSVProperties.SplitOutsideQuotesJoin` | TSVReader.cs:21 | the quote-aware fields rejoin to the row |
| `TSVProperties.SplitOutsideQuotesWithoutQuotes` | TSVReader.cs:21 | on a row without double quotes the two value parsers agree |
| `TSVProperties.QuotedTabKept` | TSVReader.cs:21 | the quote-aware parser keeps tabs inside a quoted last field, which the plain parser splits |
| `TSVProperties.HeaderMatchesSubstring` | TSVReader.cs:41 | the match is on substrings, so "EN" selects a column headed "EN_US" |
| `TSVProperties.LoadFailures` | TSVReader.cs:27-30 | a read of existing text fails exactly when the text has no line, or no header contains the language |
| `TSVProperties.PopulateKeepsEntries` | TSVReader.cs:77-81 | an entry already in the table keeps its value, whether the caller or an earlier row put it there |
| `TSVProperties.PopulateNewEntry` | TSVReader.cs:71-95 | every added entry has a non-empty key and comes from the first row with that key, which was processed and has the target column |
| `TSVProperties.PopulateKeys` | TSVReader.cs:71-95 | the final keys are the initial keys plus the non-empty keys of the rows processed before the loop stopped |
| `TSVProperties.PopulateStops` | TSVReader.cs:84-92 | the loop stops at a short row with a new key; the table is then the one the earlier rows built |
| `TSVProperties.PopulateAppend` | TSVReader.cs:84-92 | after a stop nothing later is inserted; without one, later rows continue from the table built so far |
| `TSVProperties.ShortRowStops` | TSVReader.cs:84-92 | once the earlier rows are all processed, a short row with a new key ends the loop and no later row is inserted |
| `TSVProperties.EmptyKeySkipped` | TSVReader.cs:76 | a row with an empty key changes nothing and the loop goes on, even if the row is short |
| `TSVProperties.DuplicateKeySkipped` | TSVReader.cs:77-81 | a row whose key is present changes nothing and the loop goes on, even if the row is short |
| `TSVProperties.HeaderRowNotInserted` | TSVReader.cs:71 | the header row is never read as data |
| `TSVProperties.LoadExtends` | TSVReader.cs:24-35 | a successful read keeps all the caller's entries; each new entry maps the first field of the first row with that key to its text in the selected column |
| `TSVProperties.PopulateTwoRows` | TSVReader.cs:84-94 | two well-formed rows with distinct new keys each add their own entry |
| `TSVProperties.TwoRowLoad` | TSVReader.cs:24-35 | reading a header row and two well-formed rows with distinct keys yields exactly those two entries |
| `TSVProperties.EnglishSheet` | TSVReader.cs:24-35 | reading "EN" from `Key\tEN\tFR`, `hello\tHi\tBonjour`, `bye\tBye\tAu revoir` yields exactly `{hello: Hi, bye: Bye}` |
| `TSVProperties.BlankLineSheet` | TSVReader.cs:24-35 | the example sheet with a blank line and a trailing line feed still yields exactly `{hello: Hi, bye: Bye}` |
| `TSVProperties.ShortRowExample` | TSVReader.cs:84-92 | rows `hello\tHi`, `oops`, `bye\tBye` read at column 1 give only `{hello: Hi}`: the one-field row stops the loop |
| `TSVProperties.PopulateRepeatedKey` | TSVReader.cs:77-81 | a third row that repeats the first key leaves the two-row table unchanged |
| `TSVProperties.RepeatedKeyLoad` | TSVReader.cs:77-81 | with such a row appended, the read yields the same two entries; the first occurrence wins |
| `TSVProperties.RepeatedKeySheet` | TSVReader.cs:77-81 | with `hello\tHowdy\tSalut` appended to the example sheet, `hello` still maps to `Hi` |

## Left out

- Asset loading (TSVReader.cs:50-67): `Resources.LoadAsync`, `Resources.Load` and `Addressables.LoadAssetAsync` are Unity I/O. `Read` takes the asset's text as `Option<string>`, where `None` is a missing asset.
- The folder prefix (TSVReader.cs:14, 52, 59, 64) only builds asset paths, so it is left out with the loading.
- `async` and `UniTask` (TSVReader.cs:24, 26): a read is modelled as one atomic call, with no interleaving.
- Logging and timing (TSVReader.cs:34, 79, 90, 98-101): `Debug.Log`, `Debug.LogError` and `Time.realtimeSinceStartup` are output only. The model records no log.
- `Dictionaries.Dictionary.Add`: the duplicate-key `ArgumentException` of .NET is a precondition here. The reader guards every `Add` with `ContainsKey`, so it cannot happen.
- Null arguments (a null `language`, `filename` or dictionary) are not modelled: Dafny values are never null.
- `TSVReader.SplitOutsideQuotes`: the quote-aware regex is replaced by its reading, "a tab splits when an even number of double quotes follows it on the line". .NET regex semantics are not modelled. That parser is switched off by the constant at TSVReader.cs:12.
- The C# `TSVReader` class and its constructor (TSVReader.cs:19-22) hold no mutable state, so they become module constants. The constructor's choice of parser is `ValueFields` applied to the constant flag.
- Integer widths are not modelled: a column index is a `nat`, and .NET strings and arrays are far shorter than `int` can count.
- Character-level .NET behaviour beyond ordinal comparison (culture, normalisation, surrogates) is not modelled. Strings are sequences of `char`.
