/** The entities shared by every subsystem: books with their highlights, the
    detected reader device, and the export configuration. */
module Models {
  import opened Wrappers

  /** `ChapterProgress` is an `f64` in the source. No arithmetic on it is
      modelled, so it is carried as its 64-bit IEEE-754 bit pattern. */
  type Progress = bv64

  /** One highlighted passage. `text` is the passage as stored on the device,
      `edited_text` an optional user rewrite of it. */
  datatype Highlight = Highlight(
    id: string,
    text: string,
    annotation: Option<string>,
    personal_note: Option<string>,
    chapter_title: Option<string>,
    chapter_progress: Option<Progress>,
    container_path: Option<string>,
    date_created: string,
    color: Option<string>,
    is_excluded: bool,
    edited_text: Option<string>)

  /** A book, keyed by the device's volume identifier `content_id`. */
  datatype Book = Book(
    content_id: string,
    title: string,
    author: string,
    isbn: Option<string>,
    publisher: Option<string>,
    language: Option<string>,
    date_last_read: Option<string>,
    description: Option<string>,
    file_path: Option<string>,
    cover_path: Option<string>,
    highlights: seq<Highlight>)

  datatype KoboDevice = KoboDevice(
    name: string,
    path: string,
    is_valid: bool,
    serial_number: Option<string>)

  datatype DateFormat = DdMmYyyy | DdMonthYyyy | Iso8601

  /** Which metadata lines an export shows. */
  datatype MetadataConfig = MetadataConfig(
    author: bool,
    isbn: bool,
    publisher: bool,
    date_last_read: bool,
    language: bool,
    description: bool)

  datatype ExportConfig = ExportConfig(
    export_path: string,
    metadata: MetadataConfig,
    date_format: DateFormat)

  /** `Book::new`: the given identity, title and author, nothing else yet. */
  function NewBook(content_id: string, title: string, author: string): (b: Book)
    ensures b.content_id == content_id && b.title == title && b.author == author
    ensures b.isbn.None? && b.publisher.None? && b.language.None?
    ensures b.date_last_read.None? && b.description.None?
    ensures b.file_path.None? && b.cover_path.None?
    ensures b.highlights == []
  {
    Book(content_id, title, author, None, None, None, None, None, None, None, [])
  }

  /** `Book::highlight_count`. */
  function HighlightCount(b: Book): nat {
    |b.highlights|
  }

  /** `Book::add_highlight`: appends `h` after the existing highlights and
      leaves every other field as it was. */
  function AddHighlight(b: Book, h: Highlight): (r: Book)
    ensures |r.highlights| == |b.highlights| + 1
    ensures r.highlights[..|b.highlights|] == b.highlights
    ensures r.highlights[|b.highlights|] == h
    ensures r.(highlights := b.highlights) == b
  {
    b.(highlights := b.highlights + [h])
  }

  /** A fresh book has no highlights and each `add_highlight` adds exactly
      one. */
  lemma HighlightCountTracksAdds(b: Book, h: Highlight)
    ensures HighlightCount(NewBook(b.content_id, b.title, b.author)) == 0
    ensures HighlightCount(AddHighlight(b, h)) == HighlightCount(b) + 1
  {
  }

  /** `Highlight::new`: identity, text and date given; not excluded; every
      optional field absent. */
  function NewHighlight(id: string, text: string, date_created: string): (h: Highlight)
    ensures h.id == id && h.text == text && h.date_created == date_created
    ensures !h.is_excluded
    ensures h.annotation.None? && h.personal_note.None? && h.chapter_title.None?
    ensures h.chapter_progress.None? && h.container_path.None?
    ensures h.color.None? && h.edited_text.None?
  {
    Highlight(id, text, None, None, None, None, None, date_created, None, false, None)
  }

  /** `Highlight::display_text`: the user's edit when there is one, otherwise
      the original passage. */
  function DisplayText(h: Highlight): (r: string)
    ensures h.edited_text.Some? ==> r == h.edited_text.value
    ensures h.edited_text.None? ==> r == h.text
  {
    h.edited_text.GetOr(h.text)
  }
}
