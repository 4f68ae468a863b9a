/** Extracting the Textile pipe table from a note (`AccessNote#to_csv_table`). */
module Table {
  import opened Options
  import opened Seqs
  import opened Text

  /** A trimmed line that starts and ends with a pipe, the two pipes being distinct. */
  predicate IsTableLine(t: string) {
    |t| >= 2 && t[0] == '|' && t[|t| - 1] == '|'
  }

  /** Reference reading of the line pattern `^\s*(\|.*\|)\s*$`: `line` matches with the
      captured group `line[i..j]` (inside a line `.` matches any character). */
  predicate RowPatternAt(line: string, i: int, j: int) {
    && 0 <= i && i + 2 <= j <= |line|
    && SpacesIn(line, 0, i) && SpacesIn(line, j, |line|)
    && line[i] == '|' && line[j - 1] == '|'
  }

  /** Whatever way the pattern matches a line, its capture is the trimmed line. */
  lemma RowPatternCapturesTrim(line: string, i: int, j: int)
    requires RowPatternAt(line, i, j)
    ensures Trim(line) == line[i..j] && IsTableLine(Trim(line))
  {
    TrimBetween(line, i, j);
  }

  /** A line whose trimmed form is a table line matches the pattern. */
  lemma TableLineMatchesRowPattern(line: string)
    requires IsTableLine(Trim(line))
    ensures exists i, j :: RowPatternAt(line, i, j) && Trim(line) == line[i..j]
  {
    var t := Trim(line);
    var i := TrimSliceAt(line);
    var j := i + |t|;
    assert line[i] == t[0] && line[j - 1] == t[|t| - 1];
    assert RowPatternAt(line, i, j);
  }

  /** The note's lines, split at line feeds. */
  function Lines(content: string): seq<string> {
    SplitOn(content, '\n')
  }

  /** A table line is its own trimmed form. */
  lemma TrimTableLine(t: string)
    requires IsTableLine(t)
    ensures Trim(t) == t
  {
    assert SpacesIn(t, 0, 0);
    assert SpacesIn(t, |t|, |t|);
    assert !IsSpace(t[0]) && !IsSpace(t[|t| - 1]);
    TrimBetween(t, 0, |t|);
    assert t[0..|t|] == t;
  }

  /** Trimming never introduces a line feed. */
  lemma TrimKeepsNoNewline(line: string)
    requires '\n' !in line
    ensures '\n' !in Trim(line)
  {
    var t := Trim(line);
    var i := TrimSliceAt(line);
    forall k | 0 <= k < |t| ensures t[k] != '\n' {
      assert t[k] == line[i + k];
    }
  }

  /** The trimmed forms of `lines` that are table lines, in order. */
  function KeepTableLines(lines: seq<string>): (r: seq<string>)
    requires forall k :: 0 <= k < |lines| ==> '\n' !in lines[k]
    ensures forall k :: 0 <= k < |r| ==> IsTableLine(r[k]) && '\n' !in r[k]
    ensures forall k :: 0 <= k < |r| ==> r[k] in Map(lines, Trim)
    ensures forall k :: 0 <= k < |lines| && IsTableLine(Trim(lines[k])) ==> Trim(lines[k]) in r
  {
    var trimmed := Map(lines, Trim);
    assert forall k :: 0 <= k < |trimmed| ==> '\n' !in trimmed[k] by {
      forall k | 0 <= k < |trimmed| ensures '\n' !in trimmed[k] {
        TrimKeepsNoNewline(lines[k]);
      }
    }
    Filter(trimmed, IsTableLine)
  }

  /** Lines that are already trimmed table lines are all kept, unchanged. */
  lemma KeepTableLinesFixed(lines: seq<string>)
    requires forall k :: 0 <= k < |lines| ==> IsTableLine(lines[k]) && '\n' !in lines[k]
    ensures KeepTableLines(lines) == lines
  {
    var trimmed := Map(lines, Trim);
    forall k | 0 <= k < |lines| ensures trimmed[k] == lines[k] {
      TrimTableLine(lines[k]);
    }
    assert trimmed == lines;
    FilterAll(lines, IsTableLine);
  }

  /** The trimmed table lines of `content`, in order; all other lines are dropped
      (`content.scan(/^\s*(\|.*\|)\s*$/)`). */
  function TableLines(content: string): (r: seq<string>)
    ensures forall k :: 0 <= k < |r| ==> IsTableLine(r[k]) && '\n' !in r[k]
  {
    KeepTableLines(Lines(content))
  }

  /** Kept lines appear in their original relative order, each kept as often as it occurs,
      and non-table lines are dropped. */
  lemma TableLinesFilter(content: string, line: string)
    ensures IsSubseq(TableLines(content), Map(Lines(content), Trim))
    ensures multiset(TableLines(content))[line] ==
      if IsTableLine(line) then multiset(Map(Lines(content), Trim))[line] else 0
  {
    FilterIsSubseq(Map(Lines(content), Trim), IsTableLine);
    FilterCount(Map(Lines(content), Trim), IsTableLine, line);
  }

  /** Content without any line feed and without table lines yields no table lines. */
  lemma EmptyContentHasNoTableLines()
    ensures TableLines("") == []
  {
    assert Lines("") == [""];
    assert Trim("") == "";
  }

  /** FasterCSV's record split: one record per line, a final line feed ending the last
      record rather than starting an empty one. */
  function Records(text: string): (r: seq<string>)
    ensures forall k :: 0 <= k < |r| ==> '\n' !in r[k]
    ensures text == JoinWith(r, '\n') || (|r| > 0 && text == JoinWith(r, '\n') + ['\n'])
  {
    var pieces := SplitOn(text, '\n');
    JoinSplit(text, '\n');
    if pieces[|pieces| - 1] == [] then
      var r := pieces[..|pieces| - 1];
      if |r| > 0 then
        assert pieces == r + [pieces[|pieces| - 1]];
        JoinWithSnoc(r, '\n', []);
        r
      else r
    else pieces
  }

  /** Joining non-empty lines and splitting them into records gives the lines back;
      no lines give no records. */
  lemma {:induction false} RecordsOfJoin(lines: seq<string>)
    requires forall k :: 0 <= k < |lines| ==> |lines[k]| > 0 && '\n' !in lines[k]
    ensures Records(JoinWith(lines, '\n')) == lines
  {
    if |lines| == 0 {
      assert SplitOn("", '\n') == [""];
    } else {
      SplitJoin(lines, '\n');
    }
  }

  /** Feeding the extracted table lines back through extraction reproduces them. */
  lemma TableLinesIdempotent(content: string)
    ensures TableLines(JoinWith(TableLines(content), '\n')) == TableLines(content)
  {
    var lines := TableLines(content);
    if |lines| == 0 {
      EmptyContentHasNoTableLines();
    } else {
      SplitJoin(lines, '\n');
      KeepTableLinesFixed(lines);
    }
  }

  /** A CSV field: FasterCSV reads an empty unquoted field as nil. */
  function FieldOf(s: string): Option<string> {
    if |s| == 0 then None else Some(s)
  }

  /** FasterCSV's parse of one record with `|` as the column separator. */
  function ParseFields(line: string): (r: seq<Option<string>>)
    ensures |line| > 0 ==> |r| == |SplitOn(line, '|')|
    ensures forall k :: 0 <= k < |r| ==> r[k] != Some("") && (r[k].Some? ==> '|' !in r[k].value)
  {
    if |line| == 0 then [] else Map(SplitOn(line, '|'), FieldOf)
  }

  /** Writes fields back as one record, nil as the empty string. */
  function UnparseFields(fields: seq<Option<string>>): string {
    JoinWith(Map(fields, (f: Option<string>) => f.GetOr("")), '|')
  }

  /** Parsing loses nothing: writing the fields back restores the record. */
  lemma ParseFieldsRoundTrip(line: string)
    requires |line| > 0
    ensures UnparseFields(ParseFields(line)) == line
  {
    var pieces := SplitOn(line, '|');
    var texts := Map(ParseFields(line), (f: Option<string>) => f.GetOr(""));
    assert forall k :: 0 <= k < |pieces| ==> texts[k] == pieces[k];
    assert texts == pieces;
    JoinSplit(line, '|');
  }

  /** Fields as the parser produces them survive a write and a re-parse. */
  lemma UnparseFieldsRoundTrip(fields: seq<Option<string>>)
    requires |fields| >= 2
    requires forall k :: 0 <= k < |fields| ==> fields[k] != Some("")
    requires forall k :: 0 <= k < |fields| ==> fields[k].Some? ==> '|' !in fields[k].value
    ensures ParseFields(UnparseFields(fields)) == fields
  {
    var texts := Map(fields, (f: Option<string>) => f.GetOr(""));
    SplitJoin(texts, '|');
    var line := JoinWith(texts, '|');
    assert line == texts[0] + ['|'] + JoinWith(texts[1..], '|');
    assert |line| > 0;
    var r := Map(SplitOn(line, '|'), FieldOf);
    forall k | 0 <= k < |fields| ensures r[k] == fields[k] {
      assert texts[k] == fields[k].GetOr("");
    }
  }

  /** A record written as pipe-joined, pipe-free texts parses into those texts, each empty
      one read as nil. */
  lemma ParseJoined(texts: seq<string>)
    requires |texts| >= 2
    requires forall k :: 0 <= k < |texts| ==> '|' !in texts[k]
    ensures ParseFields(JoinWith(texts, '|')) == Map(texts, FieldOf)
  {
    SplitJoin(texts, '|');
    JoinWithCons(texts[0], texts[1..], '|');
    assert [texts[0]] + texts[1..] == texts;
  }

  /** A Textile table line: its cells between pipes, with a pipe at each end. */
  function PipeRow(cells: seq<string>): (line: string)
    requires forall k :: 0 <= k < |cells| ==> '|' !in cells[k]
    ensures IsTableLine(line)
    ensures (forall k :: 0 <= k < |cells| ==> '\n' !in cells[k]) ==> '\n' !in line
  {
    var line := "|" + JoinWith(cells, '|') + "|";
    assert (forall k :: 0 <= k < |cells| ==> '\n' !in cells[k]) ==> '\n' !in line by {
      if forall k :: 0 <= k < |cells| ==> '\n' !in cells[k] {
        JoinWithAvoids(cells, '|', '\n');
      }
    }
    line
  }

  /** A pipe row parses into its cells, each empty one read as nil, with a nil field
      before the first pipe and after the last. */
  lemma PipeRowFields(cells: seq<string>)
    requires |cells| > 0
    requires forall k :: 0 <= k < |cells| ==> '|' !in cells[k]
    ensures ParseFields(PipeRow(cells)) == [None] + Map(cells, FieldOf) + [None]
  {
    var e: string := [];
    var texts := [e] + cells + [e];
    assert texts == [e] + (cells + [e]);
    var sep := '|';
    calc {
      JoinWith(texts, sep);
      { JoinWithCons(e, cells + [e], sep); }
      e + [sep] + JoinWith(cells + [e], sep);
      { JoinWithSnoc(cells, sep, e); }
      e + [sep] + (JoinWith(cells, sep) + [sep] + e);
      [sep] + JoinWith(cells, sep) + [sep];
      PipeRow(cells);
    }
    ParseJoined(texts);
    var fields := Map(texts, FieldOf);
    assert fields[0] == None && fields[|fields| - 1] == None;
    assert fields == [None] + Map(cells, FieldOf) + [None];
  }

  /** A header name with the Textile header marker in front, as in `|_.Name|`. */
  function MarkHeader(name: string): string {
    "_." + name
  }

  /** Header cells written with the marker are cleaned back into the plain names. */
  lemma CleanMarkedHeaders(names: seq<string>)
    requires forall k :: 0 <= k < |names| ==> '_' !in names[k]
    ensures Map(Map(Map(names, MarkHeader), FieldOf), CleanHeader) == Map(names, (n: string) => Some(n))
  {
    var cleaned := Map(Map(Map(names, MarkHeader), FieldOf), CleanHeader);
    forall k | 0 <= k < |names| ensures cleaned[k] == Some(names[k]) {
      CleanMarkedHeader(names[k]);
    }
  }

  /** A header line of marked names, nil at both ends, cleans into the plain names with
      the same nils around them. */
  lemma CleanFramedHeaders(names: seq<string>)
    requires forall k :: 0 <= k < |names| ==> '_' !in names[k]
    ensures Map([None] + Map(Map(names, MarkHeader), FieldOf) + [None], CleanHeader)
            == [None] + Map(names, (n: string) => Some(n)) + [None]
  {
    CleanMarkedHeaders(names);
    MapFramed(None, Map(Map(names, MarkHeader), FieldOf), CleanHeader);
  }

  /** A header marked at its front loses exactly the marker. */
  lemma CleanMarkedHeader(name: string)
    requires '_' !in name
    ensures CleanHeader(Some("_." + name)) == Some(name)
  {
    RemoveMarkersFront(name);
    RemoveMarkersPrefix(name, []);
    assert name + [] == name;
  }

  /** The pipe splitting of a typical row: leading and trailing pipes give nil fields. */
  lemma ParseFieldsExample()
    ensures ParseFields("|a|b|") == [None, Some("a"), Some("b"), None]
  {
    var e: string := [];
    assert SplitOn(e, '|') == [e];
    assert "b|" == "b" + ['|'] + e;
    SplitAfterPiece("b", '|', e);
    assert SplitOn("b|", '|') == ["b", e];
    assert "a|b|" == "a" + ['|'] + "b|";
    SplitAfterPiece("a", '|', "b|");
    assert SplitOn("a|b|", '|') == ["a", "b", e];
    assert "|a|b|" == e + ['|'] + "a|b|";
    SplitAfterPiece(e, '|', "a|b|");
    var pieces := SplitOn("|a|b|", '|');
    assert pieces == [e, "a", "b", e];
    assert FieldOf(e) == None && FieldOf("a") == Some("a") && FieldOf("b") == Some("b");
  }

  /** The header converter: nil stays nil, a name loses its `_.` markers and nothing else. */
  function CleanHeader(h: Option<string>): (r: Option<string>)
    ensures r.None? <==> h.None?
    ensures r.Some? ==> |r.value| <= |h.value|
    ensures r.Some? ==> (r.value == h.value <==> !HasMarker(h.value))
    ensures r.Some? ==> IsSubseq(r.value, h.value)
    ensures r.Some? ==> forall c :: c != '_' && c != '.' ==> multiset(r.value)[c] == multiset(h.value)[c]
  {
    match h
    case None => None
    case Some(s) => RemoveMarkersIdentity(s); Some(RemoveMarkers(s))
  }

  /** Textile header decorations are removed from the front of a name. */
  lemma CleanHeaderLeading()
    ensures CleanHeader(Some("_.Name")) == Some("Name")
  {
    var s := "_.Name";
    assert s[0] == '_' && s[1] == '.' && s[2..] == "Name";
    assert !MarkerAt("Name", 0) && !MarkerAt("Name", 1) && !MarkerAt("Name", 2) && !MarkerAt("Name", 3);
    NoMarkerUnchanged("Name");
  }

  /** A leading marker is dropped and removal continues after it. */
  lemma RemoveMarkersFront(b: string)
    ensures RemoveMarkers("_." + b) == RemoveMarkers(b)
  {
    assert ("_." + b)[2..] == b;
  }

  /** Textile header decorations are removed also between words. */
  lemma CleanHeaderInside()
    ensures CleanHeader(Some("_.Other_.Field")) == Some("OtherField")
  {
    var field := "Field";
    var tail := "_." + field;
    var mid := "Other" + tail;
    var header := "_." + mid;
    assert header == "_.Other_.Field";
    calc {
      RemoveMarkers(header);
      { RemoveMarkersFront(mid); }
      RemoveMarkers(mid);
      { RemoveMarkersPrefix("Other", tail); }
      "Other" + RemoveMarkers(tail);
      { RemoveMarkersFront(field); }
      "Other" + RemoveMarkers(field);
      { RemoveMarkersPrefix(field, []); assert field + [] == field; }
      "Other" + field;
    }
    assert "Other" + field == "OtherField";
  }

  /** Characters before the first `_` pass through removal unchanged. */
  lemma {:induction false} RemoveMarkersPrefix(a: string, b: string)
    requires '_' !in a
    ensures RemoveMarkers(a + b) == a + RemoveMarkers(b)
  {
    if |a| > 0 {
      assert (a + b)[1..] == a[1..] + b;
      RemoveMarkersPrefix(a[1..], b);
      assert a == [a[0]] + a[1..];
    } else {
      assert a + b == b;
    }
  }

  /** One column of a row: its header (nil beyond the header row) and its field. */
  datatype Cell = Cell(header: Option<string>, field: Option<string>)

  /** A FasterCSV row: cells in column order, flagged when it is the header row. */
  datatype Row = Row(cells: seq<Cell>, isHeaderRow: bool)

  /** A FasterCSV table with the header row returned as its first row. */
  datatype Table = Table(headers: seq<Option<string>>, rows: seq<Row>)

  /** The `i`-th element, or nil past the end. */
  function At(xs: seq<Option<string>>, i: nat): Option<string> {
    if i < |xs| then xs[i] else None
  }

  /** FasterCSV's row construction: headers paired with fields position by position,
      the shorter side padded with nil. */
  function Zip(headers: seq<Option<string>>, fields: seq<Option<string>>): (r: seq<Cell>)
    ensures |r| == if |headers| > |fields| then |headers| else |fields|
    ensures forall i :: 0 <= i < |headers| ==> r[i].header == headers[i]
    ensures forall i :: 0 <= i < |fields| ==> r[i].field == fields[i]
    ensures forall i :: |headers| <= i < |r| ==> r[i].header.None?
    ensures forall i :: |fields| <= i < |r| ==> r[i].field.None?
  {
    var n := if |headers| > |fields| then |headers| else |fields|;
    seq(n, i requires 0 <= i < n => Cell(At(headers, i), At(fields, i)))
  }

  /** `row[name]`: the field of the first column headed `name`, nil when there is none. */
  function Lookup(cells: seq<Cell>, name: string): (r: Option<string>)
    ensures (forall j :: 0 <= j < |cells| ==> cells[j].header != Some(name)) ==> r.None?
    ensures r.Some? ==> Cell(Some(name), r) in cells
  {
    var p := (c: Cell) => c.header == Some(name);
    match FirstIndex(cells, p)
    case None => None
    case Some(i) =>
      assert IsFirst(cells, p, i);
      cells[i].field
  }

  /** The cell read is the one under the first column headed `name`. */
  lemma LookupIsFirst(cells: seq<Cell>, name: string, i: int)
    requires 0 <= i < |cells| && cells[i].header == Some(name)
    requires forall j :: 0 <= j < i ==> cells[j].header != Some(name)
    ensures Lookup(cells, name) == cells[i].field
  {
    var p := (c: Cell) => c.header == Some(name);
    assert IsFirst(cells, p, i);
    FirstIndexIs(cells, p, i);
  }

  /** A lookup by name reads the field under the first header of that name (nil when the
      row is too short for it), whatever the later columns hold. */
  lemma LookupFirstHeader(headers: seq<Option<string>>, fields: seq<Option<string>>, name: string, i: int)
    requires 0 <= i < |headers| && headers[i] == Some(name)
    requires forall j :: 0 <= j < i ==> headers[j] != Some(name)
    ensures Lookup(Zip(headers, fields), name) == At(fields, i)
  {
    LookupIsFirst(Zip(headers, fields), name, i);
  }

  /** A name that heads no column reads nil. */
  lemma LookupAbsentHeader(headers: seq<Option<string>>, fields: seq<Option<string>>, name: string)
    requires forall j :: 0 <= j < |headers| ==> headers[j] != Some(name)
    ensures Lookup(Zip(headers, fields), name) == None
  {
    var cells := Zip(headers, fields);
    assert forall j :: 0 <= j < |cells| ==> cells[j].header != Some(name);
  }

  /** The table FasterCSV builds from `records` when the first one holds the headers. */
  function BuildTable(records: seq<string>): (t: Table)
    ensures |t.rows| == |records|
    ensures forall k :: 0 <= k < |t.rows| ==> (t.rows[k].isHeaderRow <==> k == 0)
    ensures |records| == 0 ==> t.headers == []
    ensures |records| > 0 ==> t.headers == Map(ParseFields(records[0]), CleanHeader)
    ensures forall k :: 0 <= k < |t.rows| ==> t.rows[k].cells == Zip(t.headers, ParseFields(records[k]))
  {
    if |records| == 0 then Table([], [])
    else
      var headers := Map(ParseFields(records[0]), CleanHeader);
      Table(headers, seq(|records|, k requires 0 <= k < |records| =>
                           Row(Zip(headers, ParseFields(records[k])), k == 0)))
  }

  /** Pipe-table extraction: keep the table lines, parse them as `|`-separated records,
      take the first record as the (cleaned) headers and also return it as a header row. */
  function ExtractTable(content: string): (t: Table)
    ensures |t.rows| == |TableLines(content)|
    ensures forall k :: 0 <= k < |t.rows| ==> (t.rows[k].isHeaderRow <==> k == 0)
    ensures |t.rows| == 0 ==> t.headers == []
    ensures |t.rows| > 0 ==> t.headers == Map(ParseFields(TableLines(content)[0]), CleanHeader)
    ensures forall k :: 0 <= k < |t.rows| ==>
      t.rows[k].cells == Zip(t.headers, ParseFields(TableLines(content)[k]))
  {
    var lines := TableLines(content);
    RecordsOfJoin(lines);
    BuildTable(Records(JoinWith(lines, '\n')))
  }

  /** Empty content gives an empty table. */
  lemma ExtractEmpty()
    ensures ExtractTable("") == Table([], [])
  {
    EmptyContentHasNoTableLines();
  }
}
