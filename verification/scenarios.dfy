/** Worked scenarios: concrete tables and notes and the groups they turn into. */
module Scenarios {
  import opened Options
  import opened Seqs
  import opened Text
  import opened Locator
  import opened Table
  import opened Keepassx

  /** Recognized columns are left out of the comment wherever they stand. */
  lemma RecognizedColumnsAnywhere()
    ensures CommentHeaders([Some("URL"), Some("Notes"), Some("Name"), Some("Username"), Some("Password")])
            == ["Notes"]
  {
    var hs := [Some("URL"), Some("Notes"), Some("Name"), Some("Username"), Some("Password")];
    var front := [Some("URL")];
    var back := [Some("Name"), Some("Username"), Some("Password")];
    assert hs == front + [Some("Notes")] + back;
    FilterNone(front, IsCommentHeader);
    FilterNone(back, IsCommentHeader);
    FilterConcat(front + [Some("Notes")], back, IsCommentHeader);
    FilterConcat(front, [Some("Notes")], IsCommentHeader);
  }

  const BankHeaders: seq<Option<string>> :=
    [None, Some("Name"), Some("Username"), Some("Password"), Some("URL"), Some("PIN"), None]
  const BankFields: seq<Option<string>> :=
    [None, Some("MyBank"), Some("alice"), Some("secret"), Some("http://bank.example"), Some("1234"), None]

  /** Of the Bank headers only the PIN goes to the comment. */
  lemma BankCommentHeaders()
    ensures CommentHeaders(BankHeaders) == ["PIN"]
  {
    var front := [None, Some("Name"), Some("Username"), Some("Password"), Some("URL")];
    assert BankHeaders == front + [Some("PIN")] + [None];
    var p := IsCommentHeader;
    var pin: seq<Option<string>> := [Some("PIN")];
    assert Filter(pin, p) == pin;
    calc {
      Filter(BankHeaders, p);
      Filter(front + pin + [None], p);
      { FilterConcat(front + pin, [None], p); }
      Filter(front + pin, p) + Filter([None], p);
      { FilterNone([None], p); }
      Filter(front + pin, p);
      { FilterConcat(front, pin, p); }
      Filter(front, p) + Filter(pin, p);
      { FilterNone(front, p); }
      pin;
    }
  }

  /** The entry the Bank row should become. */
  const BankRowEntry: Entry :=
    Entry(Some("MyBank"), Some("alice"), Some("secret"), Some("http://bank.example"),
          "PIN: 1234<br/>", 0,
          "2009-01-01T12:00:00", "2009-01-01T12:00:00", "2009-01-01T12:00:00", "Never")

  /** The Bank row's cells, read by header name. */
  lemma BankLookups()
    ensures Lookup(Zip(BankHeaders, BankFields), "Name") == Some("MyBank")
    ensures Lookup(Zip(BankHeaders, BankFields), "Username") == Some("alice")
    ensures Lookup(Zip(BankHeaders, BankFields), "Password") == Some("secret")
    ensures Lookup(Zip(BankHeaders, BankFields), "URL") == Some("http://bank.example")
    ensures Lookup(Zip(BankHeaders, BankFields), "PIN") == Some("1234")
  {
    BankLookupsFront();
    BankLookupsBack();
  }

  /** The first three Bank columns, each found at its own position. */
  lemma BankLookupsFront()
    ensures Lookup(Zip(BankHeaders, BankFields), "Name") == Some("MyBank")
    ensures Lookup(Zip(BankHeaders, BankFields), "Username") == Some("alice")
    ensures Lookup(Zip(BankHeaders, BankFields), "Password") == Some("secret")
  {
    LookupFirstHeader(BankHeaders, BankFields, "Name", 1);
    LookupFirstHeader(BankHeaders, BankFields, "Username", 2);
    LookupFirstHeader(BankHeaders, BankFields, "Password", 3);
  }

  /** The last two Bank columns, each found at its own position. */
  lemma BankLookupsBack()
    ensures Lookup(Zip(BankHeaders, BankFields), "URL") == Some("http://bank.example")
    ensures Lookup(Zip(BankHeaders, BankFields), "PIN") == Some("1234")
  {
    LookupFirstHeader(BankHeaders, BankFields, "URL", 4);
    LookupFirstHeader(BankHeaders, BankFields, "PIN", 5);
  }

  /** A row whose recognized cells and PIN read as in the Bank example. */
  lemma EntryOfBankCells(cells: seq<Cell>)
    requires Lookup(cells, "Name") == Some("MyBank")
    requires Lookup(cells, "Username") == Some("alice")
    requires Lookup(cells, "Password") == Some("secret")
    requires Lookup(cells, "URL") == Some("http://bank.example")
    requires Lookup(cells, "PIN") == Some("1234")
    ensures EntryFor(["PIN"], Row(cells, false), Timestamp("2009-01-01 12:00:00"))
            == BankRowEntry
  {
    RenderCommentOne("PIN", cells);
    PinComment(cells);
    TimestampExample();
  }

  /** The comment line of a PIN cell holding `1234`. */
  lemma PinComment(cells: seq<Cell>)
    requires Lookup(cells, "PIN") == Some("1234")
    ensures CommentLine("PIN", cells) == "PIN: 1234<br/>"
  {
    assert CommentLine("PIN", cells) == "PIN" + ": " + "1234" + "<br/>";
  }

  /** The Bank row: recognized columns fill the entry fields, the PIN goes to the comment. */
  lemma BankEntry()
    ensures EntryFor(CommentHeaders(BankHeaders), Row(Zip(BankHeaders, BankFields), false),
                     Timestamp("2009-01-01 12:00:00"))
            == BankRowEntry
  {
    BankCommentHeaders();
    BankLookups();
    EntryOfBankCells(Zip(BankHeaders, BankFields));
  }

  /** The Bank note as written in Backpack: the header line
      `|_.Name|_.Username|_.Password|_.URL|_.PIN|` and the data line
      `|MyBank|alice|secret|http://bank.example|1234|`, one below the other. */
  const BankNames: seq<string> := ["Name", "Username", "Password", "URL", "PIN"]
  const BankHeaderCells: seq<string> := Map(BankNames, MarkHeader)
  const BankFieldCells: seq<string> := ["MyBank", "alice", "secret", "http://bank.example", "1234"]

  /** The cells contain neither a pipe nor a line feed. */
  lemma BankCellsPlain()
    ensures forall k :: 0 <= k < |BankHeaderCells| ==> '|' !in BankHeaderCells[k] && '\n' !in BankHeaderCells[k]
    ensures forall k :: 0 <= k < |BankFieldCells| ==> '|' !in BankFieldCells[k] && '\n' !in BankFieldCells[k]
  {
  }

  function BankHeaderLine(): string {
    BankCellsPlain();
    PipeRow(BankHeaderCells)
  }

  function BankFieldLine(): string {
    BankCellsPlain();
    PipeRow(BankFieldCells)
  }

  function BankNote(): string {
    BankHeaderLine() + "\n" + BankFieldLine()
  }

  /** The header line's pieces between the pipes, markers still in place. */
  const RawBankHeaders: seq<Option<string>> := [None] + Map(BankHeaderCells, FieldOf) + [None]

  /** The header line parses into the marked header names, nil at both ends. */
  lemma BankHeaderLineFields()
    ensures ParseFields(BankHeaderLine()) == RawBankHeaders
  {
    BankCellsPlain();
    PipeRowFields(BankHeaderCells);
  }

  /** The data line parses into the Bank fields, nil at both ends. */
  lemma BankFieldLineFields()
    ensures ParseFields(BankFieldLine()) == BankFields
  {
    BankCellsPlain();
    PipeRowFields(BankFieldCells);
  }

  /** Header cleanup turns the marked names into the plain Bank headers. */
  lemma BankHeadersCleaned()
    ensures Map(RawBankHeaders, CleanHeader) == BankHeaders
  {
    BankNamesUnmarked();
    CleanFramedHeaders(BankNames);
    BankNamesAsHeaders();
  }

  /** No Bank name carries the underscore of the header marker. */
  lemma BankNamesUnmarked()
    ensures forall k :: 0 <= k < |BankNames| ==> '_' !in BankNames[k]
  {
  }

  /** The Bank names, each taken as a present header, between two nils. */
  lemma BankNamesAsHeaders()
    ensures [None] + Map(BankNames, (n: string) => Some(n)) + [None] == BankHeaders
  {
  }

  /** Both lines of the Bank note are table lines and are kept as they are. */
  lemma BankTableLines()
    ensures TableLines(BankNote()) == [BankHeaderLine(), BankFieldLine()]
  {
    BankCellsPlain();
    var lines := [BankHeaderLine(), BankFieldLine()];
    assert BankNote() == BankHeaderLine() + ['\n'] + JoinWith(lines[1..], '\n');
    JoinWithCons(BankHeaderLine(), lines[1..], '\n');
    assert [BankHeaderLine()] + lines[1..] == lines;
    SplitJoin(lines, '\n');
    KeepTableLinesFixed(lines);
  }

  /** The table of the Bank note: the cleaned headers, a header row and one data row that
      pairs them with the Bank fields. */
  lemma BankTable()
    ensures ExtractTable(BankNote()).headers == BankHeaders
    ensures |ExtractTable(BankNote()).rows| == 2
    ensures ExtractTable(BankNote()).rows[1].cells == Zip(BankHeaders, BankFields)
  {
    BankTableLines();
    BankHeaderLineFields();
    BankFieldLineFields();
    BankHeadersCleaned();
  }

  /** The Bank note, end to end: one group with one entry holding the Bank row. */
  lemma BankGroup(title: string, icon: int)
    ensures GroupOf(AccessNote(title, icon, BankNote(), "2009-01-01 12:00:00")) ==
      Group(title, icon, [BankRowEntry])
  {
    BankTable();
    GroupOfOneRow(AccessNote(title, icon, BankNote(), "2009-01-01 12:00:00"));
    BankEntry();
  }

  /** A note without table lines still gives its group, with no entries. */
  lemma EmptyNoteGroup(title: string, icon: int, createdAt: string)
    ensures GroupOf(AccessNote(title, icon, "", createdAt)) == Group(title, icon, [])
  {
    EmptyContentHasNoTableLines();
  }

  /** Two columns with the same header both render the first column's cell. */
  lemma DuplicateHeaderRepeatsFirst(a: string, b: string)
    ensures
      var headers := [Some("Note"), Some("Note")];
      RenderComment(CommentHeaders(headers), Zip(headers, [Some(a), Some(b)]))
        == "Note: " + a + "<br/>" + "Note: " + a + "<br/>"
  {
    var headers := [Some("Note"), Some("Note")];
    var fields := [Some(a), Some(b)];
    var cells := Zip(headers, fields);
    FilterAll(headers, IsCommentHeader);
    var names := CommentHeaders(headers);
    var one: seq<string> := ["Note"];
    assert names == one + one;
    LookupFirstHeader(headers, fields, "Note", 0);
    var line := CommentLine("Note", cells);
    assert line == "Note: " + a + "<br/>";
    calc {
      RenderComment(names, cells);
      { RenderCommentConcat(one, one, cells); }
      RenderComment(one, cells) + RenderComment(one, cells);
      { RenderCommentOne("Note", cells); }
      line + line;
    }
  }
}
