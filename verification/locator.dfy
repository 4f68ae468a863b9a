/** Locating a Backpack page by title and the note within it (`find_page`, `find_note`). */
module Locator {
  import opened Options
  import opened Seqs

  type PageId = int

  /** One entry of the page listing: identifier and title only. */
  datatype PageSummary = PageSummary(id: PageId, title: string)

  /** A note: its title, free-text content and creation time as written by the service. */
  datatype Note = Note(title: string, content: string, createdAt: string)

  /** A fully fetched page. `notes[i]` is the first note of the i-th element of the page's
      `notes` list (`page['notes'][i]['note'][0]` in the XmlSimple hash): only that note is
      tested by `find_note`, so any further note in the same element is not represented. */
  datatype Page = Page(id: PageId, title: string, notes: seq<Note>)

  /** `matches(pattern, title)`: whether the regular expression built from `pattern`
      (case-insensitive unless the caller says otherwise) matches `title`. */
  type Matcher = (string, string) -> bool

  /** The notes service as the locator sees it: the page listing (`list_pages`), the
      full-page fetch (`show_page`) and the title matcher. */
  datatype Backpack = Backpack(listing: seq<PageSummary>, show: PageId -> Page, matches: Matcher)

  /** The first listed page whose title matches `pattern`, fetched in full through `show`;
      None when no title matches. */
  function FindPage(bp: Backpack, pattern: string): (r: Option<Page>)
    ensures r.None? <==> forall i :: 0 <= i < |bp.listing| ==> !bp.matches(pattern, bp.listing[i].title)
    ensures r.Some? ==>
      exists i :: && 0 <= i < |bp.listing|
                  && bp.matches(pattern, bp.listing[i].title)
                  && (forall j :: 0 <= j < i ==> !bp.matches(pattern, bp.listing[j].title))
                  && r.value == bp.show(bp.listing[i].id)
  {
    match FirstIndex(bp.listing, (s: PageSummary) => bp.matches(pattern, s.title))
    case None => None
    case Some(i) => Some(bp.show(bp.listing[i].id))
  }

  /** The first note of `page` whose title matches `pattern`; None when none does. */
  function FindNote(bp: Backpack, page: Page, pattern: string): (r: Option<Note>)
    ensures r.None? <==> forall i :: 0 <= i < |page.notes| ==> !bp.matches(pattern, page.notes[i].title)
    ensures r.Some? ==>
      exists i :: && 0 <= i < |page.notes|
                  && bp.matches(pattern, page.notes[i].title)
                  && (forall j :: 0 <= j < i ==> !bp.matches(pattern, page.notes[j].title))
                  && r.value == page.notes[i]
  {
    FirstMatch(page.notes, (n: Note) => bp.matches(pattern, n.title))
  }

  /** Pages listed after a matching page never influence the lookup. */
  lemma FindPageIgnoresLater(bp: Backpack, later: seq<PageSummary>, pattern: string)
    requires exists i :: 0 <= i < |bp.listing| && bp.matches(pattern, bp.listing[i].title)
    ensures FindPage(bp.(listing := bp.listing + later), pattern) == FindPage(bp, pattern)
  {
    FirstIndexConcat(bp.listing, later, (s: PageSummary) => bp.matches(pattern, s.title));
  }

  /** Notes placed in front of the note list are searched first. */
  lemma FindNoteFrontFirst(bp: Backpack, page: Page, front: seq<Note>, pattern: string)
    ensures FindNote(bp, page.(notes := front + page.notes), pattern) ==
      if exists i :: 0 <= i < |front| && bp.matches(pattern, front[i].title)
      then FindNote(bp, page.(notes := front), pattern)
      else FindNote(bp, page, pattern)
  {
    FirstMatchConcat(front, page.notes, (n: Note) => bp.matches(pattern, n.title));
  }
}
