/** Turning access notes into KeePassX groups and entries (`AccessNote`, `to_keepassx_xml`).
    The output is the abstract group/entry structure the XML document carries. */
module Keepassx {
  import opened Options
  import opened Seqs
  import opened Text
  import opened Locator
  import opened Table

  /** An icon code as read from the configuration mapping: a YAML integer or anything else. */
  datatype IconSetting = IntSetting(n: int) | OtherSetting(text: string)

  /** The range of Ruby 1.8's `Fixnum` on a 64-bit build; larger integers are `Bignum`s. */
  const FixnumMin: int := -0x4000_0000_0000_0000
  const FixnumMax: int := 0x3FFF_FFFF_FFFF_FFFF

  predicate IsFixnum(n: int) {
    FixnumMin <= n <= FixnumMax
  }

  /** Group icon used when the configured one is not a `Fixnum`. */
  const DefaultGroupIcon: int := 48

  /** `icon.is_a?(Fixnum) ? icon : 48`. */
  function CoerceIcon(v: IconSetting): (icon: int)
    ensures IsFixnum(icon)
    ensures v.IntSetting? && IsFixnum(v.n) ==> icon == v.n
    ensures !(v.IntSetting? && IsFixnum(v.n)) ==> icon == DefaultGroupIcon
  {
    match v
    case IntSetting(n) => if IsFixnum(n) then n else DefaultGroupIcon
    case OtherSetting(_) => DefaultGroupIcon
  }

  /** The title pattern the access note is searched by: any note whose title contains
      `access`, ignoring case, as the matcher decides. */
  const AccessNotePattern: string := "access"

  /** What an `AccessNote` holds once constructed. */
  datatype AccessNote = AccessNote(title: string, icon: int, content: string, createdAt: string)

  /** Why an access note could not be constructed (`dump-access.rb` dereferences nil there). */
  datatype LookupError = PageNotFound(pattern: string) | NoteNotFound(pattern: string)

  /** `AccessNote.new(backpack, page_title, icon)`: find the page, then its first note whose
      title matches `access`.
      The note is titled with the pattern it was requested by. */
  function NewAccessNote(bp: Backpack, pattern: string, icon: IconSetting): (r: Result<AccessNote, LookupError>)
    ensures r.Err? <==> FindPage(bp, pattern).None? || FindNote(bp, FindPage(bp, pattern).value, AccessNotePattern).None?
    ensures r.Err? ==> r.error.pattern == pattern
    ensures r.Err? ==> (r.error.PageNotFound? <==> FindPage(bp, pattern).None?)
    ensures r.Ok? ==>
      var note := FindNote(bp, FindPage(bp, pattern).value, AccessNotePattern).value;
      && r.value.title == pattern
      && r.value.icon == CoerceIcon(icon)
      && r.value.content == note.content
      && r.value.createdAt == note.createdAt
  {
    match FindPage(bp, pattern)
    case None => Err(PageNotFound(pattern))
    case Some(page) =>
      match FindNote(bp, page, AccessNotePattern)
      case None => Err(NoteNotFound(pattern))
      case Some(note) => Ok(AccessNote(pattern, CoerceIcon(icon), note.content, note.createdAt))
  }

  /** One KeePassX entry, fields in the order the format lists them; a nil cell is None. */
  datatype Entry = Entry(
    title: Option<string>,
    username: Option<string>,
    password: Option<string>,
    url: Option<string>,
    comment: string,
    icon: int,
    creation: string,
    lastAccess: string,
    lastMod: string,
    expire: string)

  /** One KeePassX group: the requested title, its icon and its entries. */
  datatype Group = Group(title: string, icon: int, entries: seq<Entry>)

  /** Column names that map to entry fields instead of the comment. */
  const Recognized: set<string> := {"Name", "Username", "Password", "URL"}

  /** A header that goes into the comment: present and not a recognized field. */
  predicate IsCommentHeader(h: Option<string>) {
    h.Some? && h.value !in Recognized
  }

  /** `table.headers - %w{Name Username Password URL} - [nil]`. */
  function CommentHeaders(headers: seq<Option<string>>): (r: seq<string>)
    ensures forall k :: 0 <= k < |r| ==> r[k] !in Recognized && Some(r[k]) in headers
    ensures forall k :: 0 <= k < |headers| && IsCommentHeader(headers[k]) ==> headers[k].value in r
  {
    var kept := Filter(headers, IsCommentHeader);
    var r := seq(|kept|, k requires 0 <= k < |kept| => kept[k].value);
    assert forall k :: 0 <= k < |kept| ==> Some(r[k]) == kept[k];
    assert forall k :: 0 <= k < |headers| && IsCommentHeader(headers[k]) ==> headers[k].value in r by {
      forall k | 0 <= k < |headers| && IsCommentHeader(headers[k]) ensures headers[k].value in r {
        var j :| 0 <= j < |kept| && kept[j] == headers[k];
        assert r[j] == headers[k].value;
      }
    }
    r
  }

  /** Names seen as header values. */
  function Lift(names: seq<string>): seq<Option<string>> {
    Map(names, (s: string) => Some(s))
  }

  /** The comment headers are exactly the comment-worthy headers, as filtered. */
  lemma CommentHeadersAreFiltered(headers: seq<Option<string>>)
    ensures Lift(CommentHeaders(headers)) == Filter(headers, IsCommentHeader)
  {
  }

  /** The comment headers keep their table order, repeat a name as often as the table
      does, and never include a recognized name or a nil header. */
  lemma CommentHeadersSubseq(headers: seq<Option<string>>, name: string)
    ensures IsSubseq(Lift(CommentHeaders(headers)), headers)
    ensures multiset(Lift(CommentHeaders(headers)))[Some(name)] ==
      if name in Recognized then 0 else multiset(headers)[Some(name)]
    ensures multiset(Lift(CommentHeaders(headers)))[None] == 0
  {
    CommentHeadersAreFiltered(headers);
    FilterIsSubseq(headers, IsCommentHeader);
    FilterCount(headers, IsCommentHeader, Some(name));
    FilterCount(headers, IsCommentHeader, None);
  }

  /** Where a recognized or nil column stands does not change the comment headers. */
  lemma CommentHeadersIgnoreRecognized(a: seq<Option<string>>, h: Option<string>, b: seq<Option<string>>)
    requires h.None? || h.value in Recognized
    ensures CommentHeaders(a + [h] + b) == CommentHeaders(a + b)
  {
    var p := IsCommentHeader;
    assert Filter([h], p) == [];
    calc {
      Filter(a + [h] + b, p);
      { FilterConcat(a + [h], b, p); }
      Filter(a + [h], p) + Filter(b, p);
      { FilterConcat(a, [h], p); }
      Filter(a, p) + Filter([h], p) + Filter(b, p);
      Filter(a, p) + Filter(b, p);
      { FilterConcat(a, b, p); }
      Filter(a + b, p);
    }
    SameCommentHeaders(a + [h] + b, a + b);
  }

  /** Comment headers depend only on which headers survive the filter. */
  lemma SameCommentHeaders(x: seq<Option<string>>, y: seq<Option<string>>)
    requires Filter(x, IsCommentHeader) == Filter(y, IsCommentHeader)
    ensures CommentHeaders(x) == CommentHeaders(y)
  {
  }

  /** One comment line, `"#{header}: #{row[header]}<br/>"`; a nil cell prints as nothing. */
  function CommentLine(name: string, cells: seq<Cell>): (line: string)
    ensures |line| == |name| + 7 + |Lookup(cells, name).GetOr("")|
    ensures line[..|name| + 2] == name + ": "
    ensures line[|name| + 2..|line| - 5] == Lookup(cells, name).GetOr("")
    ensures line[|line| - 5..] == "<br/>"
    ensures Lookup(cells, name).None? ==> line == name + ": <br/>"
  {
    name + ": " + Lookup(cells, name).GetOr("") + "<br/>"
  }

  /** The comment of a row: its comment lines over `names`, in order. */
  function RenderComment(names: seq<string>, cells: seq<Cell>): (comment: string)
    ensures |comment| >= 7 * |names|
    ensures |names| == 0 ==> comment == ""
    ensures |names| > 0 ==> |comment| >= |names[0]| + 7
    ensures |names| > 0 ==> comment[..|names[0]| + 2] == names[0] + ": "
    ensures |names| > 0 ==> comment[|comment| - 5..] == "<br/>"
  {
    if |names| == 0 then ""
    else
      var line := CommentLine(names[0], cells);
      var rest := RenderComment(names[1..], cells);
      var comment := line + rest;
      assert comment[..|names[0]| + 2] == line[..|names[0]| + 2];
      assert |rest| == 0 ==> comment == line;
      assert |rest| > 0 ==> comment[|comment| - 5..] == rest[|rest| - 5..];
      comment
  }

  /** The comment over one header is that header's comment line. */
  lemma RenderCommentOne(name: string, cells: seq<Cell>)
    ensures RenderComment([name], cells) == CommentLine(name, cells)
  {
    assert [name][1..] == [];
  }

  /** The comment over two runs of headers is the two comments one after the other. */
  lemma {:induction false} RenderCommentConcat(a: seq<string>, b: seq<string>, cells: seq<Cell>)
    ensures RenderComment(a + b, cells) == RenderComment(a, cells) + RenderComment(b, cells)
  {
    if |a| == 0 {
      assert a + b == b;
    } else {
      assert (a + b)[1..] == a[1..] + b;
      RenderCommentConcat(a[1..], b, cells);
    }
  }

  /** The entry a data row turns into: the four recognized fields are cells of columns
      with those headers, every comment header gives one comment line, and the entry
      carries icon 0, the timestamp three times and no expiry. */
  function EntryFor(commentHeaders: seq<string>, row: Row, stamp: string): (e: Entry)
    ensures e.title.Some? ==> Cell(Some("Name"), e.title) in row.cells
    ensures e.username.Some? ==> Cell(Some("Username"), e.username) in row.cells
    ensures e.password.Some? ==> Cell(Some("Password"), e.password) in row.cells
    ensures e.url.Some? ==> Cell(Some("URL"), e.url) in row.cells
    ensures |e.comment| >= 7 * |commentHeaders|
    ensures e.icon == 0 && e.expire == "Never"
    ensures e.creation == stamp && e.lastAccess == stamp && e.lastMod == stamp
  {
    Entry(
      Lookup(row.cells, "Name"),
      Lookup(row.cells, "Username"),
      Lookup(row.cells, "Password"),
      Lookup(row.cells, "URL"),
      RenderComment(commentHeaders, row.cells),
      0, stamp, stamp, stamp, "Never")
  }

  predicate IsDataRow(row: Row) {
    !row.isHeaderRow
  }

  /** `created_at.gsub(/\s/, "T")`, KeePassX's date-time form. */
  function Timestamp(createdAt: string): (stamp: string)
    ensures |stamp| == |createdAt|
    ensures forall i :: 0 <= i < |stamp| ==> !IsSpace(stamp[i])
    ensures forall i :: 0 <= i < |createdAt| ==>
      stamp[i] == if IsSpace(createdAt[i]) then 'T' else createdAt[i]
  {
    SpacesToT(createdAt)
  }

  /** A date and time separated by a space become ISO-like. */
  lemma TimestampExample()
    ensures Timestamp("2009-01-01 12:00:00") == "2009-01-01T12:00:00"
  {
  }

  /** The entry for table row `k` as `AccessNote#to_xml` writes it. */
  ghost predicate EntryOfRow(e: Entry, t: Table, k: int, createdAt: string)
    requires 0 <= k < |t.rows|
  {
    var cells := t.rows[k].cells;
    && e.title == Lookup(cells, "Name")
    && e.username == Lookup(cells, "Username")
    && e.password == Lookup(cells, "Password")
    && e.url == Lookup(cells, "URL")
    && e.comment == RenderComment(CommentHeaders(t.headers), cells)
    && e.icon == 0
    && e.creation == Timestamp(createdAt)
    && e.lastAccess == e.creation
    && e.lastMod == e.creation
    && e.expire == "Never"
  }

  /** The entry described for row `k` is the one `EntryFor` builds from that row's cells. */
  lemma EntryOfRowIsEntryFor(e: Entry, t: Table, k: int, createdAt: string)
    requires 0 <= k < |t.rows| && EntryOfRow(e, t, k, createdAt)
    ensures e == EntryFor(CommentHeaders(t.headers), Row(t.rows[k].cells, false), Timestamp(createdAt))
  {
  }

  /** The entries of table `t`: one per data row, in row order. */
  function Entries(t: Table, createdAt: string): (es: seq<Entry>)
    ensures |es| <= |t.rows|
    ensures (forall k :: 0 <= k < |t.rows| ==> t.rows[k].isHeaderRow) ==> es == []
    ensures forall k :: 0 <= k < |es| ==> es[k].icon == 0 && es[k].creation == Timestamp(createdAt)
  {
    var names := CommentHeaders(t.headers);
    var stamp := Timestamp(createdAt);
    var data := Filter(t.rows, IsDataRow);
    assert (forall k :: 0 <= k < |t.rows| ==> t.rows[k].isHeaderRow) ==> data == [] by {
      if forall k :: 0 <= k < |t.rows| ==> t.rows[k].isHeaderRow {
        FilterNone(t.rows, IsDataRow);
      }
    }
    Map(data, (row: Row) => EntryFor(names, row, stamp))
  }

  /** Only the header row is skipped: row `k + 1` gives entry `k`. */
  lemma EntriesSkipHeaderRow(t: Table, createdAt: string)
    requires forall k :: 0 <= k < |t.rows| ==> (t.rows[k].isHeaderRow <==> k == 0)
    ensures |Entries(t, createdAt)| == if |t.rows| == 0 then 0 else |t.rows| - 1
    ensures forall k :: 0 <= k < |Entries(t, createdAt)| ==>
      EntryOfRow(Entries(t, createdAt)[k], t, k + 1, createdAt)
  {
    if |t.rows| > 0 {
      assert t.rows == [t.rows[0]] + t.rows[1..];
      assert !IsDataRow(t.rows[0]);
      FilterAll(t.rows[1..], IsDataRow);
      assert Filter(t.rows, IsDataRow) == t.rows[1..];
    }
  }

  /** `AccessNote#to_xml`: one group titled as requested, one entry per data row of the
      note's table, in table order; the header row never becomes an entry. */
  function GroupOf(note: AccessNote): (g: Group)
    ensures g.title == note.title && g.icon == note.icon
    ensures |g.entries| == if |TableLines(note.content)| == 0 then 0 else |TableLines(note.content)| - 1
    ensures forall k :: 0 <= k < |g.entries| ==>
      EntryOfRow(g.entries[k], ExtractTable(note.content), k + 1, note.createdAt)
  {
    var t := ExtractTable(note.content);
    EntriesSkipHeaderRow(t, note.createdAt);
    Group(note.title, note.icon, Entries(t, note.createdAt))
  }

  /** A note whose table has a header row and one data row gives one entry, built from
      that data row. */
  lemma GroupOfOneRow(note: AccessNote)
    requires |ExtractTable(note.content).rows| == 2
    ensures GroupOf(note) ==
      var t := ExtractTable(note.content);
      Group(note.title, note.icon,
            [EntryFor(CommentHeaders(t.headers), Row(t.rows[1].cells, false), Timestamp(note.createdAt))])
  {
    var t := ExtractTable(note.content);
    var g := GroupOf(note);
    assert |g.entries| == 1;
    EntryOfRowIsEntryFor(g.entries[0], t, 1, note.createdAt);
  }

  /** One request of the configuration mapping: a page title pattern and its icon. */
  datatype Request = Request(pattern: string, icon: IconSetting)

  /** The access note a request asks for. */
  function Attempt(bp: Backpack, request: Request): Result<AccessNote, LookupError> {
    NewAccessNote(bp, request.pattern, request.icon)
  }

  /** `to_keepassx_xml`: one group per request, in request order; the first request whose
      page or note cannot be found aborts the whole document. */
  function Database(bp: Backpack, requests: seq<Request>): (r: Result<seq<Group>, LookupError>)
    ensures r.Ok? <==> forall i :: 0 <= i < |requests| ==> Attempt(bp, requests[i]).Ok?
    ensures r.Ok? ==> |r.value| == |requests|
    ensures r.Ok? ==> forall i :: 0 <= i < |requests| ==>
      && r.value[i].title == requests[i].pattern
      && r.value[i].icon == CoerceIcon(requests[i].icon)
      && r.value[i] == GroupOf(Attempt(bp, requests[i]).value)
    ensures r.Err? ==> exists i ::
      && 0 <= i < |requests|
      && Attempt(bp, requests[i]) == Err(r.error)
      && forall j :: 0 <= j < i ==> Attempt(bp, requests[j]).Ok?
  {
    var attempts := Map(requests, (request: Request) => Attempt(bp, request));
    CollectOk(attempts, GroupOf)
  }

  /** Every group of a successful run carries the icon its request configures when that is
      a `Fixnum`, and 48 for any other setting (a string, a `Bignum`). */
  lemma DatabaseIcons(bp: Backpack, requests: seq<Request>)
    requires Database(bp, requests).Ok?
    ensures forall i :: 0 <= i < |requests| ==>
      Database(bp, requests).value[i].icon ==
        if requests[i].icon.IntSetting? && IsFixnum(requests[i].icon.n) then requests[i].icon.n
        else DefaultGroupIcon
  {
  }

  /** A first request whose pattern matches no page title fails the run with that pattern;
      no empty group stands in for it. */
  lemma DatabaseMissingPage(bp: Backpack, requests: seq<Request>)
    requires |requests| > 0
    requires forall i :: 0 <= i < |bp.listing| ==> !bp.matches(requests[0].pattern, bp.listing[i].title)
    ensures Database(bp, requests) == Err(PageNotFound(requests[0].pattern))
  {
  }
}
