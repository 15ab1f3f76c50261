/** Highlight extraction from the reader's SQLite database
    (`KoboDatabase::extract_books_with_highlights`).

    The input is the result of the bookmark query's three LEFT JOINs, one
    `JoinedRow` per result row in the order the query returns them. The
    model projects each row to the query's output columns (the two COALESCE
    expressions included), groups the rows into books by volume id, and
    sorts the books by title. */
module Kobo {
  import opened Wrappers
  import opened Strings
  import opened Models

  // ---------------------------------------------------------------------
  // Query rows
  // ---------------------------------------------------------------------

  /** The columns of one `content` row the query reads. */
  datatype ContentRow = ContentRow(
    title: Option<string>,
    book_title: Option<string>,
    attribution: Option<string>,
    isbn: Option<string>,
    publisher: Option<string>,
    language: Option<string>,
    date_last_read: Option<string>)

  /** One row of `Bookmark b LEFT JOIN content c_book LEFT JOIN content
      c_chapter LEFT JOIN content c_toc`; a join side that matched nothing is
      `None`, which reads as NULL in every one of its columns. `decodes` says
      whether rusqlite can read the row as the typed tuple the loop asks for:
      it cannot when `BookmarkID` or `VolumeID` is NULL or not text, or when
      `ChapterProgress` is not a number. */
  datatype JoinedRow = JoinedRow(
    decodes: bool,
    bookmark_id: string,
    content_id: string,
    volume_id: string,
    text: Option<string>,
    annotation: Option<string>,
    start_container_path: Option<string>,
    chapter_progress: Option<Progress>,
    date_created: Option<string>,
    book: Option<ContentRow>,
    chapter: Option<ContentRow>,
    toc: Option<ContentRow>)

  /** The tuple the Rust loop destructures: the query's output columns. */
  datatype BookmarkRow = BookmarkRow(
    bookmark_id: string,
    volume_id: string,
    book_title: Option<string>,
    chapter_title: Option<string>,
    attribution: Option<string>,
    text: Option<string>,
    annotation: Option<string>,
    container_path: Option<string>,
    chapter_progress: Option<Progress>,
    date_created: Option<string>,
    isbn: Option<string>,
    publisher: Option<string>,
    language: Option<string>,
    date_last_read: Option<string>)

  /** What a LEFT JOIN side that matched nothing contributes. */
  const NullContent := ContentRow(None, None, None, None, None, None, None)

  /** A join side's columns, all NULL when it matched nothing. */
  function Side(c: Option<ContentRow>): ContentRow {
    c.GetOr(NullContent)
  }

  function Title(c: Option<ContentRow>): Option<string> {
    Side(c).title
  }

  function BookTitleCol(c: Option<ContentRow>): Option<string> {
    Side(c).book_title
  }

  /** The first present value of `xs` (SQL `COALESCE`). */
  function FirstSome<T>(xs: seq<Option<T>>): (r: Option<T>)
    ensures r.Some? <==> exists i :: 0 <= i < |xs| && xs[i].Some?
    ensures r.Some? ==> exists i :: 0 <= i < |xs| && xs[i] == r && forall j :: 0 <= j < i ==> xs[j].None?
    ensures r.None? ==> forall i :: 0 <= i < |xs| ==> xs[i].None?
  {
    if |xs| == 0 then None
    else if xs[0].Some? then xs[0]
    else
      var r := FirstSome(xs[1..]);
      assert forall i :: 1 <= i < |xs| ==> xs[i] == xs[1..][i - 1];
      r
  }

  lemma {:induction false} FirstSomeAppend<T>(xs: seq<Option<T>>, x: Option<T>)
    ensures FirstSome(xs + [x]) == if FirstSome(xs).Some? then FirstSome(xs) else x
    decreases |xs|
  {
    if |xs| > 0 {
      assert (xs + [x])[1..] == xs[1..] + [x];
      FirstSomeAppend(xs[1..], x);
    } else {
      assert (xs + [x])[1..] == [];
    }
  }

  const UnknownTitle := "Unknown Title"
  const UnknownAuthor := "Unknown Author"

  /** The `BookTitle` column: `COALESCE(c_book.Title, c_book.BookTitle,
      c_chapter.BookTitle, c_chapter.Title, 'Unknown Title')`. */
  function BookTitleOf(j: JoinedRow): (r: string)
    ensures Title(j.book).Some? ==> r == Title(j.book).value
    ensures Title(j.book).None? && BookTitleCol(j.book).Some? ==> r == BookTitleCol(j.book).value
    ensures (Title(j.book).None? && BookTitleCol(j.book).None? && BookTitleCol(j.chapter).Some?)
      ==> r == BookTitleCol(j.chapter).value
    ensures (Title(j.book).None? && BookTitleCol(j.book).None? && BookTitleCol(j.chapter).None?
             && Title(j.chapter).Some?) ==> r == Title(j.chapter).value
    ensures (Title(j.book).None? && BookTitleCol(j.book).None? && BookTitleCol(j.chapter).None?
             && Title(j.chapter).None?) ==> r == UnknownTitle
  {
    Title(j.book).GetOr(BookTitleCol(j.book).GetOr(BookTitleCol(j.chapter).GetOr(
      Title(j.chapter).GetOr(UnknownTitle))))
  }

  /** A page title that reads like a file name: `LIKE '%.xhtml%'`,
      `'%.html%'`, `'%.htm%'` or `'%/%'`, case-insensitive on ASCII. */
  predicate LooksLikeFileName(t: string) {
    LikeContains(t, ".xhtml") || LikeContains(t, ".html") || LikeContains(t, ".htm") || LikeContains(t, "/")
  }

  /** The `ChapterTitle` column: the TOC entry's title when the TOC join
      produced one, otherwise the page title unless it looks like a file
      name, otherwise NULL. */
  function ChapterTitleOf(j: JoinedRow): (r: Option<string>)
    ensures Title(j.toc).Some? ==> r == Title(j.toc)
    ensures Title(j.toc).None? && Title(j.chapter).Some? && !LooksLikeFileName(Title(j.chapter).value)
      ==> r == Title(j.chapter)
    ensures Title(j.toc).None? && (Title(j.chapter).None? || LooksLikeFileName(Title(j.chapter).value))
      ==> r.None?
  {
    var page := Title(j.chapter);
    if Title(j.toc).Some? then Title(j.toc)
    else if page.Some? && !LooksLikeFileName(page.value) then page
    else None
  }

  /** Whatever a page title is, the chapter title never looks like a file
      name unless it came from the TOC entry. */
  lemma ChapterTitleNeverFileName(j: JoinedRow)
    requires Title(j.toc).None?
    ensures ChapterTitleOf(j).Some? ==> !LooksLikeFileName(ChapterTitleOf(j).value)
    ensures ChapterTitleOf(j).Some? ==> ChapterTitleOf(j) == Title(j.chapter)
  {
  }

  /** The `'%.html%'` test never decides anything: a title containing
      ".html" also contains ".htm". */
  lemma HtmlTestSubsumed(t: string)
    requires LikeContains(t, ".html")
    ensures LikeContains(t, ".htm")
  {
    var lt := LowerAscii(t);
    assert LowerAscii(".html") == ".html" && LowerAscii(".htm") == ".htm";
    var i :| 0 <= i <= |lt| - 5 && MatchAt(lt, ".html", i);
    assert lt[i..i + 4] == lt[i..i + 5][..4];
    assert MatchAt(lt, ".htm", i);
  }

  /** The query's SELECT list applied to one joined row. */
  function Project(j: JoinedRow): (r: BookmarkRow)
    ensures r.bookmark_id == j.bookmark_id && r.volume_id == j.volume_id && r.text == j.text
    ensures r.book_title == Some(BookTitleOf(j)) && r.chapter_title == ChapterTitleOf(j)
    ensures r.attribution == Side(j.book).attribution && r.isbn == Side(j.book).isbn
    ensures r.publisher == Side(j.book).publisher && r.language == Side(j.book).language
    ensures r.date_last_read == Side(j.book).date_last_read
  {
    var book := Side(j.book);
    BookmarkRow(
      j.bookmark_id, j.volume_id, Some(BookTitleOf(j)), ChapterTitleOf(j),
      book.attribution, j.text, j.annotation, j.start_container_path,
      j.chapter_progress, j.date_created,
      book.isbn, book.publisher, book.language, book.date_last_read)
  }

  /** `WHERE b.Text IS NOT NULL AND b.Text != ''`, and the loop's own
      `Some(t) if !t.is_empty()` test. */
  predicate HasText(text: Option<string>) {
    text.Some? && text.value != []
  }

  predicate Kept(r: BookmarkRow) {
    HasText(r.text)
  }

  /** The rows the query returns: the WHERE filter, then the SELECT list. */
  function QueryRows(js: seq<JoinedRow>): (rs: seq<BookmarkRow>)
    ensures |rs| <= |js|
    ensures forall i :: 0 <= i < |rs| ==> Kept(rs[i])
  {
    if |js| == 0 then []
    else
      var last := js[|js| - 1];
      QueryRows(js[..|js| - 1]) + (if HasText(last.text) then [Project(last)] else [])
  }

  function ProjectAll(js: seq<JoinedRow>): (rs: seq<BookmarkRow>)
    ensures |rs| == |js|
    ensures forall i :: 0 <= i < |js| ==> rs[i] == Project(js[i])
  {
    if |js| == 0 then []
    else ProjectAll(js[..|js| - 1]) + [Project(js[|js| - 1])]
  }

  // ---------------------------------------------------------------------
  // Building books and highlights from rows
  // ---------------------------------------------------------------------

  const OnboardPrefix := "file:///mnt/onboard/"

  /** The archive path relative to the device root, when the volume id is a
      file URI on the device. Rust `replace` drops every occurrence of the
      prefix, not only the leading one. */
  function FilePathOf(volume_id: string): (r: Option<string>)
    ensures r.Some? <==> StartsWith(volume_id, OnboardPrefix)
    ensures r.Some? ==> r.value == ReplaceAll(volume_id[|OnboardPrefix|..], OnboardPrefix, "")
    ensures r.Some? && !Contains(volume_id[|OnboardPrefix|..], OnboardPrefix)
      ==> r.value == volume_id[|OnboardPrefix|..]
  {
    if StartsWith(volume_id, OnboardPrefix) then Some(ReplaceAll(volume_id, OnboardPrefix, "")) else None
  }

  /** The prefix is dropped where it recurs too, not only at the start. */
  lemma RecurringPrefixDropped()
    ensures FilePathOf(OnboardPrefix + "a/" + OnboardPrefix + "b") == Some("a/b")
  {
    var P := OnboardPrefix;
    var rest := "a/" + P + "b";
    assert P + "a/" + P + "b" == P + rest;
    assert MatchAt(P + rest, P, 0);
    ReplaceAllAtStart(P + rest, P, "");
    assert (P + rest)[|P|..] == rest;
    InnerPrefixDropped();
  }

  /** The inner occurrence is dropped too, and nothing else is. */
  lemma InnerPrefixDropped()
    ensures ReplaceAll("a/" + OnboardPrefix + "b", OnboardPrefix, "") == "a/b"
  {
    var P := OnboardPrefix;
    var rest := "a/" + P + "b";
    assert !MatchAt(rest, P, 0) by { assert rest[0] != P[0]; }
    assert !MatchAt(rest, P, 1) by { assert rest[1] != P[0]; }
    assert MatchAt(rest, P, 2) by { assert rest[2..2 + |P|] == P; }
    ReplaceAllFirst(rest, P, "", 2);
    assert rest[2 + |P|..] == "b";
    assert !Contains("b", P);
    assert rest[..2] + "" + "b" == "a/b";
  }

  /** The highlight built for one kept row; the fields the row has no column
      for take the `Highlight::new` defaults. */
  function MakeHighlight(r: BookmarkRow): (h: Highlight)
    requires Kept(r)
    ensures h.id == r.bookmark_id && h.text == r.text.value && h.text != []
    ensures h.annotation == r.annotation && h.chapter_title == r.chapter_title
    ensures h.chapter_progress == r.chapter_progress && h.container_path == r.container_path
    ensures r.date_created.Some? ==> h.date_created == r.date_created.value
    ensures r.date_created.None? ==> h.date_created == "Unknown"
    ensures h.color.None? && h.personal_note.None? && !h.is_excluded && h.edited_text.None?
  {
    NewHighlight(r.bookmark_id, r.text.value, r.date_created.GetOr("Unknown"))
      .(annotation := r.annotation, chapter_title := r.chapter_title,
        chapter_progress := r.chapter_progress, container_path := r.container_path)
  }

  /** The book `or_insert_with` creates for the first row of a volume. */
  function FreshBook(r: BookmarkRow): Book {
    NewBook(r.volume_id, r.book_title.GetOr(UnknownTitle), r.attribution.GetOr(UnknownAuthor))
      .(file_path := FilePathOf(r.volume_id))
  }

  function Fill(current: Option<string>, offered: Option<string>): Option<string> {
    if current.None? && offered.Some? then offered else current
  }

  /** One loop body applied to the row's book: fill still-missing metadata,
      then append the row's highlight. */
  function Absorb(b: Book, r: BookmarkRow): Book
    requires Kept(r)
  {
    AddHighlight(
      b.(isbn := Fill(b.isbn, r.isbn), publisher := Fill(b.publisher, r.publisher),
         language := Fill(b.language, r.language),
         date_last_read := Fill(b.date_last_read, r.date_last_read)),
      MakeHighlight(r))
  }

  /** Position of the book keyed `v`, if any. */
  function IndexOf(books: seq<Book>, v: string): (r: Option<nat>)
    ensures r.Some? ==> r.value < |books| && books[r.value].content_id == v
    ensures r.None? ==> forall i :: 0 <= i < |books| ==> books[i].content_id != v
  {
    if |books| == 0 then None
    else if books[|books| - 1].content_id == v then Some(|books| - 1)
    else IndexOf(books[..|books| - 1], v)
  }

  /** One iteration of the `for row in rows` loop over the map of books. The
      map is kept as a sequence in first-insertion order. */
  function Step(books: seq<Book>, r: BookmarkRow): seq<Book> {
    if !Kept(r) then books
    else
      match IndexOf(books, r.volume_id)
      case Some(i) => books[i := Absorb(books[i], r)]
      case None => books + [Absorb(FreshBook(r), r)]
  }

  /** The whole grouping loop. */
  function Group(rows: seq<BookmarkRow>): seq<Book> {
    if |rows| == 0 then []
    else Step(Group(rows[..|rows| - 1]), rows[|rows| - 1])
  }

  // ---------------------------------------------------------------------
  // Reference definition of a grouped book
  // ---------------------------------------------------------------------

  /** The kept rows of volume `v`, in row order. */
  function RowsOf(rows: seq<BookmarkRow>, v: string): (rs: seq<BookmarkRow>)
    ensures forall i :: 0 <= i < |rs| ==> Kept(rs[i]) && rs[i].volume_id == v
  {
    if |rows| == 0 then []
    else
      var last := rows[|rows| - 1];
      RowsOf(rows[..|rows| - 1], v) + (if Kept(last) && last.volume_id == v then [last] else [])
  }

  /** Volume ids of the kept rows. */
  function VolumeIds(rows: seq<BookmarkRow>): set<string> {
    if |rows| == 0 then {}
    else
      var last := rows[|rows| - 1];
      VolumeIds(rows[..|rows| - 1]) + (if Kept(last) then {last.volume_id} else {})
  }

  function Isbns(rs: seq<BookmarkRow>): seq<Option<string>> {
    if |rs| == 0 then [] else Isbns(rs[..|rs| - 1]) + [rs[|rs| - 1].isbn]
  }

  function Publishers(rs: seq<BookmarkRow>): seq<Option<string>> {
    if |rs| == 0 then [] else Publishers(rs[..|rs| - 1]) + [rs[|rs| - 1].publisher]
  }

  function Languages(rs: seq<BookmarkRow>): seq<Option<string>> {
    if |rs| == 0 then [] else Languages(rs[..|rs| - 1]) + [rs[|rs| - 1].language]
  }

  function DatesLastRead(rs: seq<BookmarkRow>): seq<Option<string>> {
    if |rs| == 0 then [] else DatesLastRead(rs[..|rs| - 1]) + [rs[|rs| - 1].date_last_read]
  }

  function HighlightsOf(rs: seq<BookmarkRow>): seq<Highlight>
    requires forall i :: 0 <= i < |rs| ==> Kept(rs[i])
  {
    if |rs| == 0 then [] else HighlightsOf(rs[..|rs| - 1]) + [MakeHighlight(rs[|rs| - 1])]
  }

  /** What the book of volume `v` must be, stated directly over its rows:
      title and author from its first kept row, each metadata field the first
      value any of its rows offers, one highlight per kept row in row order. */
  function SpecBook(rows: seq<BookmarkRow>, v: string): Book
    requires RowsOf(rows, v) != []
  {
    var rs := RowsOf(rows, v);
    Book(v, rs[0].book_title.GetOr(UnknownTitle), rs[0].attribution.GetOr(UnknownAuthor),
      FirstSome(Isbns(rs)), FirstSome(Publishers(rs)), FirstSome(Languages(rs)),
      FirstSome(DatesLastRead(rs)), None, FilePathOf(v), None, HighlightsOf(rs))
  }

  predicate DistinctIds(books: seq<Book>) {
    forall i, j :: 0 <= i < j < |books| ==> books[i].content_id != books[j].content_id
  }

  function Ids(books: seq<Book>): set<string> {
    set i | 0 <= i < |books| :: books[i].content_id
  }

  /** Every grouped book agrees with the reference definition. */
  ghost predicate MatchesSpec(rows: seq<BookmarkRow>, books: seq<Book>) {
    forall i :: 0 <= i < |books| ==>
      RowsOf(rows, books[i].content_id) != [] && books[i] == SpecBook(rows, books[i].content_id)
  }

  lemma RowsOfNewVolume(rows: seq<BookmarkRow>, v: string)
    requires v !in VolumeIds(rows)
    ensures RowsOf(rows, v) == []
  {
    if |rows| > 0 {
      RowsOfNewVolume(rows[..|rows| - 1], v);
    }
  }

  lemma SpecBookOther(pre: seq<BookmarkRow>, r: BookmarkRow, v: string)
    requires v != r.volume_id || !Kept(r)
    requires RowsOf(pre, v) != []
    ensures RowsOf(pre + [r], v) == RowsOf(pre, v)
    ensures SpecBook(pre + [r], v) == SpecBook(pre, v)
  {
    assert (pre + [r])[..|pre|] == pre;
  }

  lemma RowsOfAppend(pre: seq<BookmarkRow>, r: BookmarkRow, v: string)
    ensures RowsOf(pre + [r], v) == RowsOf(pre, v) + (if Kept(r) && r.volume_id == v then [r] else [])
  {
    assert (pre + [r])[..|pre|] == pre;
  }

  lemma SpecBookExtend(pre: seq<BookmarkRow>, r: BookmarkRow)
    requires Kept(r)
    requires RowsOf(pre, r.volume_id) != []
    ensures SpecBook(pre + [r], r.volume_id) == Absorb(SpecBook(pre, r.volume_id), r)
  {
    var v := r.volume_id;
    var rs := RowsOf(pre, v);
    RowsOfAppend(pre, r, v);
    var rs' := RowsOf(pre + [r], v);
    assert rs' == rs + [r];
    assert rs'[0] == rs[0];
    assert rs'[..|rs|] == rs;
    assert Isbns(rs') == Isbns(rs) + [r.isbn];
    assert Publishers(rs') == Publishers(rs) + [r.publisher];
    assert Languages(rs') == Languages(rs) + [r.language];
    assert DatesLastRead(rs') == DatesLastRead(rs) + [r.date_last_read];
    FirstSomeAppend(Isbns(rs), r.isbn);
    FirstSomeAppend(Publishers(rs), r.publisher);
    FirstSomeAppend(Languages(rs), r.language);
    FirstSomeAppend(DatesLastRead(rs), r.date_last_read);
    assert HighlightsOf(rs') == HighlightsOf(rs) + [MakeHighlight(r)];
    var before := SpecBook(pre, v);
    var after := SpecBook(pre + [r], v);
    var absorbed := Absorb(before, r);
    assert after.isbn == absorbed.isbn;
    assert after.publisher == absorbed.publisher;
    assert after.language == absorbed.language;
    assert after.date_last_read == absorbed.date_last_read;
    assert after.highlights == absorbed.highlights;
    assert after.title == absorbed.title && after.author == absorbed.author;
  }

  lemma SpecBookFresh(pre: seq<BookmarkRow>, r: BookmarkRow)
    requires Kept(r)
    requires RowsOf(pre, r.volume_id) == []
    ensures RowsOf(pre + [r], r.volume_id) == [r]
    ensures SpecBook(pre + [r], r.volume_id) == Absorb(FreshBook(r), r)
  {
    assert (pre + [r])[..|pre|] == pre;
    var rs := [r];
    assert RowsOf(pre + [r], r.volume_id) == rs;
    assert HighlightsOf(rs) == [MakeHighlight(r)];
    assert Isbns(rs)[1..] == [];
    assert Publishers(rs)[1..] == [];
    assert Languages(rs)[1..] == [];
    assert DatesLastRead(rs)[1..] == [];
  }

  /** What the grouping loop keeps true after every row. */
  ghost predicate GroupInv(rows: seq<BookmarkRow>, g: seq<Book>) {
    DistinctIds(g) && Ids(g) == VolumeIds(rows) && MatchesSpec(rows, g)
  }

  lemma GroupAppend(pre: seq<BookmarkRow>, r: BookmarkRow)
    ensures Group(pre + [r]) == Step(Group(pre), r)
  {
    assert (pre + [r])[..|pre|] == pre;
  }

  lemma VolumeIdsAppend(pre: seq<BookmarkRow>, r: BookmarkRow)
    ensures VolumeIds(pre + [r]) == VolumeIds(pre) + (if Kept(r) then {r.volume_id} else {})
  {
    assert (pre + [r])[..|pre|] == pre;
  }

  lemma StepSkip(pre: seq<BookmarkRow>, g: seq<Book>, r: BookmarkRow)
    requires GroupInv(pre, g) && !Kept(r)
    ensures GroupInv(pre + [r], Step(g, r))
  {
    VolumeIdsAppend(pre, r);
    forall i | 0 <= i < |g|
      ensures RowsOf(pre + [r], g[i].content_id) != [] && g[i] == SpecBook(pre + [r], g[i].content_id)
    {
      SpecBookOther(pre, r, g[i].content_id);
    }
  }

  lemma StepExisting(pre: seq<BookmarkRow>, g: seq<Book>, r: BookmarkRow, k: nat)
    requires GroupInv(pre, g) && Kept(r)
    requires k < |g| && g[k].content_id == r.volume_id
    ensures GroupInv(pre + [r], g[k := Absorb(g[k], r)])
  {
    var g' := g[k := Absorb(g[k], r)];
    VolumeIdsAppend(pre, r);
    assert r.volume_id in Ids(g);
    forall i | 0 <= i < |g'|
      ensures RowsOf(pre + [r], g'[i].content_id) != [] && g'[i] == SpecBook(pre + [r], g'[i].content_id)
    {
      if i == k {
        SpecBookExtend(pre, r);
        RowsOfAppend(pre, r, r.volume_id);
      } else {
        SpecBookOther(pre, r, g'[i].content_id);
      }
    }
    UpdateKeepsIds(g, k, Absorb(g[k], r));
  }

  lemma UpdateKeepsIds(g: seq<Book>, k: nat, b: Book)
    requires k < |g| && b.content_id == g[k].content_id
    ensures Ids(g[k := b]) == Ids(g)
    ensures DistinctIds(g) ==> DistinctIds(g[k := b])
  {
    var g' := g[k := b];
    assert forall i :: 0 <= i < |g| ==> g'[i].content_id == g[i].content_id;
    forall x | x in Ids(g') ensures x in Ids(g) {
      var i :| 0 <= i < |g'| && g'[i].content_id == x;
    }
    forall x | x in Ids(g) ensures x in Ids(g') {
      var i :| 0 <= i < |g| && g[i].content_id == x;
    }
  }

  lemma StepNew(pre: seq<BookmarkRow>, g: seq<Book>, r: BookmarkRow)
    requires GroupInv(pre, g) && Kept(r)
    requires forall i :: 0 <= i < |g| ==> g[i].content_id != r.volume_id
    ensures GroupInv(pre + [r], g + [Absorb(FreshBook(r), r)])
  {
    var nb := Absorb(FreshBook(r), r);
    var g' := g + [nb];
    VolumeIdsAppend(pre, r);
    assert r.volume_id !in Ids(g);
    RowsOfNewVolume(pre, r.volume_id);
    assert nb.content_id == r.volume_id;
    forall i | 0 <= i < |g'|
      ensures RowsOf(pre + [r], g'[i].content_id) != [] && g'[i] == SpecBook(pre + [r], g'[i].content_id)
    {
      if i == |g| {
        SpecBookFresh(pre, r);
      } else {
        assert g'[i] == g[i];
        SpecBookOther(pre, r, g'[i].content_id);
      }
    }
    AppendIds(g, nb);
  }

  lemma AppendIds(g: seq<Book>, b: Book)
    ensures Ids(g + [b]) == Ids(g) + {b.content_id}
    ensures DistinctIds(g) && b.content_id !in Ids(g) ==> DistinctIds(g + [b])
  {
    var g' := g + [b];
    forall x | x in Ids(g') ensures x in Ids(g) + {b.content_id} {
      var i :| 0 <= i < |g'| && g'[i].content_id == x;
      if i < |g| { assert g[i].content_id == x; }
    }
    forall x | x in Ids(g) + {b.content_id} ensures x in Ids(g') {
      if x in Ids(g) {
        var i :| 0 <= i < |g| && g[i].content_id == x;
        assert g'[i].content_id == x;
      } else {
        assert g'[|g|].content_id == x;
      }
    }
    if DistinctIds(g) && b.content_id !in Ids(g) {
      forall i, j | 0 <= i < j < |g'| ensures g'[i].content_id != g'[j].content_id {
        if j == |g| {
          assert g'[i] == g[i];
        } else {
          assert g'[i] == g[i] && g'[j] == g[j];
        }
      }
    }
  }

  /** The grouping loop builds, for each distinct volume id of a kept row,
      exactly one book, and that book is the reference book of its volume. */
  lemma {:induction false} GroupCorrect(rows: seq<BookmarkRow>)
    ensures DistinctIds(Group(rows))
    ensures Ids(Group(rows)) == VolumeIds(rows)
    ensures MatchesSpec(rows, Group(rows))
    decreases |rows|
  {
    if |rows| > 0 {
      var pre := rows[..|rows| - 1];
      var r := rows[|rows| - 1];
      assert rows == pre + [r];
      GroupCorrect(pre);
      var g := Group(pre);
      GroupAppend(pre, r);
      if !Kept(r) {
        StepSkip(pre, g, r);
      } else {
        match IndexOf(g, r.volume_id)
        case Some(k) => StepExisting(pre, g, r, k);
        case None => StepNew(pre, g, r);
      }
    }
  }

  /** Rows without text are invisible to the grouping: the loop's test
      repeats the query's WHERE clause. */
  lemma {:induction false} WhereClauseRedundant(js: seq<JoinedRow>)
    ensures Group(QueryRows(js)) == Group(ProjectAll(js))
    decreases |js|
  {
    if |js| > 0 {
      var pre := js[..|js| - 1];
      var last := js[|js| - 1];
      WhereClauseRedundant(pre);
      var p := Project(last);
      GroupAppend(ProjectAll(pre), p);
      assert Group(ProjectAll(js)) == Step(Group(QueryRows(pre)), p);
      if HasText(last.text) {
        assert QueryRows(js) == QueryRows(pre) + [p];
        GroupAppend(QueryRows(pre), p);
      } else {
        assert QueryRows(js) == QueryRows(pre);
        assert !Kept(p);
      }
    }
  }

  /** Total number of highlights over a list of books. */
  function TotalHighlights(books: seq<Book>): nat {
    if |books| == 0 then 0
    else TotalHighlights(books[..|books| - 1]) + |books[|books| - 1].highlights|
  }

  function CountKept(rows: seq<BookmarkRow>): nat {
    if |rows| == 0 then 0
    else CountKept(rows[..|rows| - 1]) + (if Kept(rows[|rows| - 1]) then 1 else 0)
  }

  lemma {:induction false} TotalHighlightsUpdate(books: seq<Book>, k: nat, b: Book)
    requires k < |books|
    ensures TotalHighlights(books[k := b])
      == TotalHighlights(books) - |books[k].highlights| + |b.highlights|
    decreases |books|
  {
    var n := |books| - 1;
    if k < n {
      assert books[k := b][..n] == books[..n][k := b];
      TotalHighlightsUpdate(books[..n], k, b);
    } else {
      assert books[k := b][..n] == books[..n];
    }
  }

  /** Every kept row becomes exactly one highlight, and no other row
      becomes one. */
  lemma {:induction false} GroupHighlightCount(rows: seq<BookmarkRow>)
    ensures TotalHighlights(Group(rows)) == CountKept(rows)
    decreases |rows|
  {
    if |rows| > 0 {
      var pre := rows[..|rows| - 1];
      var r := rows[|rows| - 1];
      GroupHighlightCount(pre);
      var g := Group(pre);
      if Kept(r) {
        match IndexOf(g, r.volume_id)
        case Some(k) =>
          TotalHighlightsUpdate(g, k, Absorb(g[k], r));
        case None =>
          var g' := g + [Absorb(FreshBook(r), r)];
          assert g'[..|g|] == g;
      }
    }
  }

  // ---------------------------------------------------------------------
  // Sorting by title
  // ---------------------------------------------------------------------

  predicate SortedByTitle(books: seq<Book>) {
    forall i, j :: 0 <= i < j < |books| ==> LexLe(books[i].title, books[j].title)
  }

  /** Where `b` goes in a title-sorted list: after every strictly smaller
      title. */
  function InsertPos(b: Book, t: seq<Book>): (k: nat)
    ensures k <= |t|
    ensures forall i :: 0 <= i < k ==> !LexLe(b.title, t[i].title)
    ensures k < |t| ==> LexLe(b.title, t[k].title)
  {
    if |t| == 0 || LexLe(b.title, t[0].title) then 0
    else
      var k := 1 + InsertPos(b, t[1..]);
      assert forall i :: 1 <= i < k ==> t[i] == t[1..][i - 1];
      k
  }

  function InsertByTitle(b: Book, t: seq<Book>): (r: seq<Book>)
    requires SortedByTitle(t)
    ensures SortedByTitle(r)
    ensures multiset(r) == multiset(t) + multiset{b}
    ensures forall x :: x in r <==> x == b || x in t
  {
    var k := InsertPos(b, t);
    assert t == t[..k] + t[k..];
    InsertSorted(b, t);
    t[..k] + [b] + t[k..]
  }

  lemma InsertSorted(b: Book, t: seq<Book>)
    requires SortedByTitle(t)
    ensures SortedByTitle(t[..InsertPos(b, t)] + [b] + t[InsertPos(b, t)..])
  {
    var k := InsertPos(b, t);
    var r := t[..k] + [b] + t[k..];
    forall i, j | 0 <= i < j < |r| ensures LexLe(r[i].title, r[j].title) {
      if i < k && j == k {
        LexLeTotal(b.title, t[i].title);
      } else if i < k && j > k {
        LexLeTotal(b.title, t[i].title);
        assert r[j] == t[j - 1];
      } else if i == k && j > k {
        assert r[j] == t[j - 1];
        if j - 1 > k {
          LexLeTransitive(b.title, t[k].title, t[j - 1].title);
        }
      } else if i > k {
        assert r[i] == t[i - 1] && r[j] == t[j - 1];
      }
    }
  }

  lemma InsertKeepsDistinct(b: Book, t: seq<Book>)
    requires SortedByTitle(t) && DistinctIds(t)
    requires forall x :: x in t ==> x.content_id != b.content_id
    ensures DistinctIds(InsertByTitle(b, t))
  {
    var k := InsertPos(b, t);
    var r := InsertByTitle(b, t);
    assert r == t[..k] + [b] + t[k..];
    assert forall i :: 0 <= i < k ==> r[i] == t[i];
    assert r[k] == b;
    assert forall i :: k < i < |r| ==> r[i] == t[i - 1];
    forall i, j | 0 <= i < j < |r| ensures r[i].content_id != r[j].content_id {
      if i == k {
        assert t[j - 1] in t;
      } else if j == k {
        assert t[i] in t;
      }
    }
  }

  lemma SortStepDistinct(books: seq<Book>, rest: seq<Book>)
    requires |books| > 0 && DistinctIds(books)
    requires SortedByTitle(rest) && DistinctIds(rest)
    requires forall x :: x in rest <==> x in books[1..]
    ensures DistinctIds(InsertByTitle(books[0], rest))
  {
    forall x | x in rest ensures x.content_id != books[0].content_id {
      var i :| 0 <= i < |books[1..]| && books[1..][i] == x;
      assert books[i + 1] == x;
    }
    InsertKeepsDistinct(books[0], rest);
  }

  lemma TailDistinct(books: seq<Book>)
    requires |books| > 0 && DistinctIds(books)
    ensures DistinctIds(books[1..])
  {
    forall i, j | 0 <= i < j < |books[1..]|
      ensures books[1..][i].content_id != books[1..][j].content_id
    {
      assert books[1..][i] == books[i + 1] && books[1..][j] == books[j + 1];
    }
  }

  /** `books.sort_by(|a, b| a.title.cmp(&b.title))`. The source sorts the
      values of a `HashMap`, whose order is unspecified, so among equal
      titles no order is promised; this insertion sort is one valid
      outcome. */
  function SortByTitle(books: seq<Book>): (r: seq<Book>)
    ensures SortedByTitle(r)
    ensures multiset(r) == multiset(books)
    ensures forall x :: x in r <==> x in books
    ensures DistinctIds(books) ==> DistinctIds(r)
  {
    if |books| == 0 then []
    else
      var rest := SortByTitle(books[1..]);
      assert books == [books[0]] + books[1..];
      if DistinctIds(books) then
        TailDistinct(books);
        SortStepDistinct(books, rest);
        InsertByTitle(books[0], rest)
      else
        InsertByTitle(books[0], rest)
  }

  // ---------------------------------------------------------------------
  // The whole extraction
  // ---------------------------------------------------------------------

  /** Why the extraction failed: a row the query returned could not be
      read as the typed tuple. */
  datatype DbError = RowDecodeError

  /** Every row the query returns can be read. */
  predicate RowsDecode(js: seq<JoinedRow>) {
    forall i :: 0 <= i < |js| && HasText(js[i].text) ==> js[i].decodes
  }

  /** `extract_books_with_highlights` after the query has run: any returned
      row that cannot be read ends the loop with an error (`row?`), and the
      books grouped so far are dropped. */
  function ExtractBooks(js: seq<JoinedRow>): (r: Result<seq<Book>, DbError>)
    ensures r.Err? <==> exists i :: 0 <= i < |js| && HasText(js[i].text) && !js[i].decodes
    ensures r.Ok? ==> SortedByTitle(r.value)
    ensures r.Ok? ==> multiset(r.value) == multiset(Group(QueryRows(js)))
  {
    if RowsDecode(js) then Ok(SortByTitle(Group(QueryRows(js)))) else Err(RowDecodeError)
  }

  /** The extraction result: sorted by title; one book per volume id of a
      row with text; each book as the reference definition says. */
  lemma ExtractBooksCorrect(js: seq<JoinedRow>)
    ensures ExtractBooks(js).Ok? <==> RowsDecode(js)
    ensures ExtractBooks(js).Ok? ==>
      var books := ExtractBooks(js).value;
      SortedByTitle(books) && DistinctIds(books) && Ids(books) == VolumeIds(QueryRows(js)) &&
      forall b :: b in books ==>
        RowsOf(QueryRows(js), b.content_id) != [] && b == SpecBook(QueryRows(js), b.content_id)
  {
    if RowsDecode(js) {
      var rows := QueryRows(js);
      var g := Group(rows);
      GroupCorrect(rows);
      var r := SortByTitle(g);
      assert ExtractBooks(js).value == r;
      SameMembersSameIds(g, r);
      forall b | b in r
        ensures RowsOf(rows, b.content_id) != [] && b == SpecBook(rows, b.content_id)
      {
        var i :| 0 <= i < |g| && g[i] == b;
      }
    }
  }

  lemma SameMembersSameIds(g: seq<Book>, r: seq<Book>)
    requires forall x :: x in r <==> x in g
    ensures Ids(r) == Ids(g)
  {
    forall x | x in Ids(r) ensures x in Ids(g) {
      var i :| 0 <= i < |r| && r[i].content_id == x;
      assert r[i] in g;
      var j :| 0 <= j < |g| && g[j] == r[i];
    }
    forall x | x in Ids(g) ensures x in Ids(r) {
      var i :| 0 <= i < |g| && g[i].content_id == x;
      assert g[i] in r;
      var j :| 0 <= j < |r| && r[j] == g[i];
    }
  }
}
