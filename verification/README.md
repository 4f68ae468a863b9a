# Backpack access notes to KeePassX: a Dafny model

`dump-access.rb` reads "access" notes from Backpack pages and turns each into a
KeePassX group. A note's content holds a Textile pipe table such as

    |_.Name|_.Username|_.Password|_.URL|_.PIN|
    |MyBank|alice|secret|http://bank.example|1234|

The program does four things:

- It finds the first page whose title matches a pattern, then the first note on that page
  whose title matches the pattern `access`: case-insensitive, anywhere in the title.
- It keeps the lines of the note that look like table rows and parses them as
  `|`-separated CSV with the first row as headers.
- It maps every data row to one KeePassX entry. The Name, Username, Password and
  URL columns fill entry fields. Every other named column goes into a `<br/>`-separated
  comment.
- It emits one group per requested page, in the order the caller's mapping lists them.

This project models that core as pure functions over immutable data. The result is an
abstract list of groups and entries, not XML text.

| file | module | models |
|---|---|---|
| `options.dfy` | `Options` | `Option` (Ruby's nil) and `Result` |
| `seqs.dfy` | `Seqs` | first-match search (`detect`), filtering, subsequences, split/join, stop-at-first-error collection |
| `text.dfy` | `Text` | Ruby 1.8 `\s`, trimming, `gsub(/_\./, '')`, `gsub(/\s/, "T")` |
| `locator.dfy` | `Locator` | `Backpack#find_page`, `Backpack#find_note` |
| `table.dfy` | `Table` | `AccessNote#to_csv_table`: line filter, pipe split, header cleanup, FasterCSV rows |
| `keepassx.dfy` | `Keepassx` | `AccessNote#initialize`, `AccessNote#to_xml`, `to_keepassx_xml` |
| `scenarios.dfy` | `Scenarios` | worked examples: the Bank note above from its two lines to its group, column order, empty notes, duplicate headers |

The notes service is one parameter, `Locator.Backpack`. It holds three things:

- the page listing (`list_pages`);
- a function from page id to full page (`show_page`);
- a title matcher standing in for `Regexp.new(pattern, IGNORECASE)` and `=~`.

## Where the model follows the code

- The group title is the requested pattern (`@title = page_title`, line 56). It is not
  the title of the page that was found.
- `created_at.gsub(/\s/, "T")` replaces every whitespace character with its own `T`.
  A run of whitespace is not collapsed, so the timestamp keeps the length of `created_at`.
- `gsub(/_\./, '')` makes one left-to-right pass. For `__..` it deletes the inner `_.`,
  and the outer `_` and `.` then form a new `_.` (`Text.RemoveMarkersSinglePass`).
  So "no `_.` is left" holds only for headers without `__.` (`Text.RemoveMarkersLeavesNone`).
  Textile header markers sit at the start of a cell, so ordinary headers are not affected.
- `row[header]` returns the cell of the first column with that header. A header that
  appears twice therefore renders the first column's cell twice
  (`Scenarios.DuplicateHeaderRepeatsFirst`).
- The model applies `scan(/^\s*(\|.*\|)\s*$/)` one line at a time. This is equivalent for
  two reasons: `.` does not cross a line feed, and the surrounding `\s*` can only absorb
  whitespace-only lines, which never match. `\s` is Ruby 1.8's class: space, tab, line
  feed, carriage return and form feed.
- `Fixnum` is the 64-bit range, -2^62 to 2^62-1. An integer icon outside that range is a
  `Bignum` in Ruby 1.8, so the icon falls back to 48.
- A missing page or note makes `dump-access.rb` dereference nil and crash before anything
  is printed. The model returns `Err(PageNotFound(pattern))` or `Err(NoteNotFound(pattern))`
  from the first failing request, and no document.

## Model

| member | source | states |
|---|---|---|
| `Seqs.FirstIndex` | dump-access.rb:14 | the position returned holds the first element satisfying the predicate; None exactly when no element does |
| `Seqs.FirstMatch` | dump-access.rb:26 | the element returned is the first satisfying one; None exactly when none does |
| `Seqs.FirstIndexConcat` | dump-access.rb:14 | a match in the front part wins; the back part is searched only if the front has none |
| `Locator.FindPage` | dump-access.rb:11-19 | None iff no listed title matches; otherwise the fetched page of the first matching listing entry |
| `Locator.FindNote` | dump-access.rb:24-30 | None iff no note title matches; otherwise the first matching note in page order |
| `Locator.FindPageIgnoresLater` | dump-access.rb:14 | pages listed after a match never change the result |
| `Locator.FindNoteFrontFirst` | dump-access.rb:26 | notes placed in front are searched first; the rest only when none of them matches |
| `Text.Trim` | dump-access.rb:101 | the result is never longer than the line and neither starts nor ends with whitespace |
| `Text.TrimIsSlice` | dump-access.rb:101 | the trimmed line is the slice of the line between a whitespace-only front and a whitespace-only back |
| `Text.TrimBetween` | dump-access.rb:101 | trimming is determined by the first and last non-space characters |
| `Table.RowPatternCapturesTrim` | dump-access.rb:101 | any way the row pattern matches a line, its capture is the trimmed line and is a table line |
| `Table.TableLineMatchesRowPattern` | dump-access.rb:101 | a line whose trimmed form starts and ends with distinct pipes matches the row pattern |
| `Table.KeepTableLines` | dump-access.rb:99-101 | every kept line is a table line without line feeds and the trimmed form of some input line; every input line whose trimmed form is a table line is kept |
| `Table.TableLines` | dump-access.rb:99-101 | every kept line starts and ends with a pipe, has at least two characters and holds no line feed |
| `Table.TableLinesFilter` | dump-access.rb:99-101 | kept lines are a subsequence of the trimmed lines, in order; each table line keeps its multiplicity; every other line is dropped |
| `Table.TableLinesIdempotent` | dump-access.rb:101 | extracting from the joined table lines gives the same table lines |
| `Table.RecordsOfJoin` | dump-access.rb:101-106 | joining the kept lines with line feeds and splitting into CSV records gives the same lines; none give no records |
| `Table.Records` | dump-access.rb:101-106 | the CSV records hold no line feed and, joined with line feeds, give back the text, up to one final line feed |
| `Seqs.SplitJoin` | dump-access.rb:101-106 | splitting a join of separator-free pieces gives the pieces back |
| `Seqs.JoinSplit` | dump-access.rb:106 | joining the pieces of a split restores the text |
| `Table.ParseFields` | dump-access.rb:106-110 | one field per pipe-separated piece of a non-empty record; no field is an empty string and none contains a pipe |
| `Table.ParseFieldsRoundTrip` | dump-access.rb:106 | writing parsed fields back with pipes, nil as empty, restores the record |
| `Table.UnparseFieldsRoundTrip` | dump-access.rb:106 | fields in the parser's form survive writing and re-parsing |
| `Table.ParseFieldsExample` | dump-access.rb:106-110 | the record a, b written between pipes parses to nil, a, b, nil |
| `Text.RemoveMarkers` | dump-access.rb:104 | the result is never longer and keeps its length exactly when the header has no `_.`; it is the header with some characters deleted, in order, and every character other than `_` and `.` keeps its count |
| `Text.RemoveMarkersIdentity` | dump-access.rb:104 | a header is unchanged iff it contains no `_.` |
| `Text.RemoveMarkersLeavesNone` | dump-access.rb:103-104 | without `__.` in the header, no `_.` is left after cleanup |
| `Text.RemoveMarkersSinglePass` | dump-access.rb:104 | the single pass turns `__..` into `_.` |
| `Table.CleanHeader` | dump-access.rb:103-110 | nil stays nil; a name is never longer and changes iff it had a `_.`; the cleaned name keeps the other characters in order, each with its count |
| `Table.CleanHeaderLeading` | dump-access.rb:103-104 | `_.Name` becomes `Name` |
| `Table.CleanHeaderInside` | dump-access.rb:103-104 | `_.Other_.Field` becomes `OtherField` |
| `Table.Lookup` | dump-access.rb:77-83 | a name that heads no column reads nil; a value read is the cell of a column headed by that name |
| `Table.LookupIsFirst` | dump-access.rb:77-83 | the cell read is the one under the first column headed by the name |
| `Table.Zip` | dump-access.rb:106-110 | a row is as long as the longer of headers and fields; each header and field keeps its position; the shorter side is padded with nil |
| `Table.LookupFirstHeader` | dump-access.rb:77-83 | looking a name up reads the cell under the first column with that header, nil past the row's end |
| `Table.LookupAbsentHeader` | dump-access.rb:77-83 | a name that heads no column reads nil |
| `Table.BuildTable` | dump-access.rb:106-110 | one row per record; only the first is the header row; headers are the cleaned first record; each row pairs the headers with its own fields |
| `Table.ExtractTable` | dump-access.rb:98-111 | one row per kept table line; only the first is the header row; the headers are its cleaned fields; row k pairs them with the fields of table line k |
| `Table.ExtractEmpty` | dump-access.rb:98-111 | empty content gives no headers and no rows |
| `Keepassx.CoerceIcon` | dump-access.rb:57 | the icon is always a Fixnum: the configured integer when it is one, 48 otherwise |
| `Keepassx.DatabaseIcons` | dump-access.rb:41-57 | in a successful run, group i has request i's icon when it is a Fixnum and 48 otherwise |
| `Keepassx.NewAccessNote` | dump-access.rb:52-60 | fails iff the page or its access note is missing, naming the pattern and which lookup failed; on success it carries the pattern as title, the coerced icon and the note's content and creation time |
| `Keepassx.CommentHeaders` | dump-access.rb:67-68 | no recognized name; every name comes from the headers; every non-recognized named header is kept |
| `Keepassx.CommentHeadersSubseq` | dump-access.rb:68 | comment headers are a subsequence of the headers, keep each non-recognized name's multiplicity, and hold no nil |
| `Keepassx.CommentHeadersIgnoreRecognized` | dump-access.rb:68 | inserting a recognized or nil column anywhere leaves the comment headers unchanged |
| `Keepassx.RenderCommentConcat` | dump-access.rb:81-85 | the comment over two runs of headers is the two comments concatenated, in order |
| `Keepassx.CommentLine` | dump-access.rb:83 | a comment line is `header: `, then the cell read for the header, then `<br/>`; a missing cell renders as `header: <br/>` |
| `Keepassx.RenderComment` | dump-access.rb:81-85 | no headers give an empty comment; otherwise it starts with the first header and `: `, ends with `<br/>`, and has at least seven characters per header |
| `Keepassx.RenderCommentOne` | dump-access.rb:82-83 | the comment over a single header is that header's comment line |
| `Keepassx.EntryFor` | dump-access.rb:76-91 | each of title, username, password and URL, when present, is the cell of a column with that header; the comment has at least seven characters per comment header; icon 0, expire "Never", the one timestamp in all three time fields |
| `Keepassx.Entries` | dump-access.rb:74-93 | at most one entry per row; none when every row is a header row; every entry has icon 0 and the note's timestamp |
| `Keepassx.EntryOfRowIsEntryFor` | dump-access.rb:74-91 | an entry built from row k is the entry of that row's cells over the comment headers and the note's timestamp |
| `Keepassx.GroupOfOneRow` | dump-access.rb:63-95 | a note whose table has a header row and one data row gives a group holding exactly that row's entry |
| `Keepassx.Timestamp` | dump-access.rb:65 | same length as `created_at`, no whitespace, non-space characters kept in place |
| `Keepassx.EntriesSkipHeaderRow` | dump-access.rb:74-93 | the header row is skipped: rows − 1 entries (0 for no rows); entry k is built from row k + 1 |
| `Keepassx.GroupOf` | dump-access.rb:63-95 | group title and icon come from the note; one entry per data row in table order; each entry has the row's Name/Username/Password/URL cells, the comment over the comment headers, icon 0, one timestamp in all three time fields, expire "Never" |
| `Keepassx.Database` | dump-access.rb:37-46 | succeeds iff every request finds its page and note; then group i belongs to request i, with its pattern and coerced icon; otherwise the error of the first failing request |
| `Seqs.CollectOk` | dump-access.rb:41-44 | values are collected in order when all succeed; otherwise the first error is returned |
| `Keepassx.DatabaseMissingPage` | dump-access.rb:41-43 | a first request matching no page fails the run with its pattern |
| `Seqs.FilterIsSubseq` | dump-access.rb:101 | filtering keeps the chosen elements in their relative order |
| `Seqs.FilterCount` | dump-access.rb:101 | filtering keeps each chosen element's multiplicity and drops the others |
| `Scenarios.RecognizedColumnsAnywhere` | dump-access.rb:68 | with columns URL, Notes, Name, Username, Password only Notes goes to the comment |
| `Table.PipeRow` | dump-access.rb:101 | cells written between pipes form a table line, without line feeds when the cells have none |
| `Table.PipeRowFields` | dump-access.rb:106 | a non-empty list of cells written between pipes parses to nil, one field per cell (an empty cell as nil), nil |
| `Table.CleanMarkedHeader` | dump-access.rb:103-104 | a name without `_`, written with the `_.` marker in front, cleans back to the name |
| `Table.CleanMarkedHeaders` | dump-access.rb:103-110 | a header line of marked names cleans back to the names, in order |
| `Table.CleanFramedHeaders` | dump-access.rb:103-110 | the same with the nil headers at both ends of a pipe row kept as nil |
| `Scenarios.BankTableLines` | dump-access.rb:101 | both lines of the Bank note are kept as table lines, in order |
| `Scenarios.BankHeadersCleaned` | dump-access.rb:103-110 | the Bank header line cleans to nil, Name, Username, Password, URL, PIN, nil |
| `Scenarios.BankTable` | dump-access.rb:98-111 | the Bank note's table has those headers, a header row and one data row pairing them with MyBank, alice, secret, http://bank.example, 1234 |
| `Scenarios.BankEntry` | dump-access.rb:74-91 | the Bank row gives MyBank/alice/secret/http://bank.example, comment `PIN: 1234<br/>`, and timestamp `2009-01-01T12:00:00` in all three fields |
| `Scenarios.BankGroup` | dump-access.rb:63-95 | the Bank note as written gives one group with the requested title and icon and the single Bank entry |
| `Scenarios.EmptyNoteGroup` | dump-access.rb:70-76 | a note with empty content still gives its group, with no entries |
| `Scenarios.DuplicateHeaderRepeatsFirst` | dump-access.rb:82-83 | two columns with the same header both render the first column's cell |

## Left out

- Locator.FindNote: `Page.notes[i]` stands for `page['notes'][i]['note'][0]`, the first
  note of the i-th element of the XmlSimple `notes` list, because `find_note` tests only
  that note. Further notes in the same element are not represented. On a real page, where
  XmlSimple puts all notes in one `notes` element, only the page's first note can match.
- The Backpack API calls (`list_pages`, `show_page`) and the XmlSimple hash shapes are
  not modelled. The listing, the page fetch and the notes are plain parameters and records.
- Ruby `Regexp` construction, case-insensitive matching and regexp options are not
  modelled. Title matching is the `Matcher` parameter.
- FasterCSV quoting is not modelled. This covers quoted fields, escaped quotes,
  multi-line fields, and the `MalformedCSVError` raised for a stray quote or a carriage
  return inside a line. The model splits every table line at every `|`.
- Builder XML serialisation is not modelled: the DOCTYPE, element escaping, raw `<<`
  insertion of the comment, indentation, and how a nil cell prints. Groups and entries
  are records whose fields follow the element order of the format.
- YAML configuration loading, the command-line block and writing to stdout are not
  modelled. The page→icon mapping is given as a sequence of `Keepassx.Request`.
- The commented-out CSV write-back at the end of the file is not modelled.
- Ruby 1.8 `Hash#each_pair` does not promise insertion order. The model takes the
  mapping in the order the caller's sequence gives it.
- Only the 64-bit `Fixnum` range is modelled. A 32-bit build
  would use -2^30 to 2^30-1.
