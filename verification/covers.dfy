/** Cover discovery and caching (`CoverExtractor`).

    An EPUB is a zip archive. Its `META-INF/container.xml` names the OPF
    package document through a `full-path` attribute; the OPF marks the cover
    image either with the EPUB 3 manifest property `cover-image` or with the
    EPUB 2 `<meta name="cover" content="id"/>` convention. The extractor finds
    both by plain substring search, falls back to well-known paths and then to
    the shallowest image whose name mentions "cover", and caches the result
    under a key derived from the archive's path and modification time. */
module Covers {
  import opened Wrappers
  import opened Strings
  import opened Paths

  newtype byte = b: int | 0 <= b < 256

  datatype CoverError = Io | Zip | NoCoverFound

  /** One archive member: its bytes, and its text when the bytes are valid
      UTF-8 (`read_to_string` fails with an I/O error otherwise). */
  datatype Entry = Entry(data: seq<byte>, text: Option<string>)

  /** An opened archive: the member names in central-directory order (what
      `by_index` walks) and the members by name (what `by_name` finds). */
  datatype Archive = Archive(names: seq<string>, entries: map<string, Entry>)

  /** Every listed name can be looked up, and every member is listed. */
  predicate WellFormed(a: Archive) {
    (forall i :: 0 <= i < |a.names| ==> a.names[i] in a.entries) &&
    (forall n :: n in a.entries ==> n in a.names)
  }

  // ---------------------------------------------------------------------
  // Quoted attribute values
  // ---------------------------------------------------------------------

  /** The first double quote at or after `from` (Rust `find('"')` on a
      suffix). */
  function NextQuote(s: string, from: nat): (r: Option<nat>)
    ensures r.Some? ==> from <= r.value < |s| && s[r.value] == '"'
    ensures r.Some? ==> forall k :: from <= k < r.value ==> s[k] != '"'
    ensures r.None? ==> forall k :: from <= k < |s| ==> s[k] != '"'
    decreases |s| - from
  {
    if from >= |s| then None
    else if s[from] == '"' then Some(from)
    else NextQuote(s, from + 1)
  }

  lemma NextQuoteUnique(s: string, from: nat, i: nat)
    requires from <= i < |s| && s[i] == '"'
    requires forall k :: from <= k < i ==> s[k] != '"'
    ensures NextQuote(s, from) == Some(i)
  {
  }

  const ContainerPath := "META-INF/container.xml"
  const FullPathMarker := "full-path=\""

  /** The text between the first `full-path="` and the next quote. */
  function FullPathValue(content: string): (r: Option<string>)
    ensures r.Some? ==> Find(content, FullPathMarker).Some?
    ensures r.Some? ==>
      var start := Find(content, FullPathMarker).value + |FullPathMarker|;
      start + |r.value| < |content| &&
      content[start..start + |r.value|] == r.value &&
      content[start + |r.value|] == '"' && '"' !in r.value
    ensures r.Some? <==> (Find(content, FullPathMarker).Some? &&
      NextQuote(content, Find(content, FullPathMarker).value + |FullPathMarker|).Some?)
  {
    match Find(content, FullPathMarker)
    case None => None
    case Some(start) =>
      var from := start + |FullPathMarker|;
      match NextQuote(content, from)
      case None => None
      case Some(end) => Some(content[from..end])
  }

  /** `get_opf_path`: a missing container file is not an error, an unreadable
      one is. */
  function GetOpfPath(a: Archive): (r: Result<Option<string>, CoverError>)
    ensures ContainerPath !in a.entries ==> r == Ok(None)
    ensures ContainerPath in a.entries && a.entries[ContainerPath].text.None? ==> r == Err(Io)
    ensures ContainerPath in a.entries && a.entries[ContainerPath].text.Some? ==>
      r == Ok(FullPathValue(a.entries[ContainerPath].text.value))
    ensures r.Err? ==> r.error == Io
  {
    if ContainerPath !in a.entries then Ok(None)
    else match a.entries[ContainerPath].text
      case None => Err(Io)
      case Some(content) => Ok(FullPathValue(content))
  }

  // ---------------------------------------------------------------------
  // The OPF package document
  // ---------------------------------------------------------------------

  const CoverImageMarker := "properties=\"cover-image\""
  const HrefMarker := "href=\""
  const CoverMetaMarker := "name=\"cover\""
  const ContentMarker := "content=\""

  /** Where the EPUB 3 search stopped: the first `cover-image` property, the
      last `href="` wholly before it, and the quote closing that href. */
  datatype Epub3Hit = Epub3Hit(marker: nat, href: nat, close: nat)

  /** The declarative reading of the EPUB 3 branch. */
  predicate IsEpub3Hit(c: string, x: Epub3Hit) {
    MatchAt(c, CoverImageMarker, x.marker) &&
    (forall j :: 0 <= j < x.marker ==> !MatchAt(c, CoverImageMarker, j)) &&
    x.href + |HrefMarker| <= x.marker && MatchAt(c, HrefMarker, x.href) &&
    (forall j :: x.href < j && j + |HrefMarker| <= x.marker ==> !MatchAt(c, HrefMarker, j)) &&
    x.href + |HrefMarker| <= x.close < x.marker && c[x.close] == '"' &&
    (forall k :: x.href + |HrefMarker| <= k < x.close ==> c[k] != '"')
  }

  function Epub3Search(c: string): (r: Option<Epub3Hit>)
    ensures r.Some? ==> IsEpub3Hit(c, r.value)
  {
    match Find(c, CoverImageMarker)
    case None => None
    case Some(pos) =>
      match RFindUpto(c, HrefMarker, pos - |HrefMarker|)
      case None => None
      case Some(hs) =>
        match NextQuote(c, hs + |HrefMarker|)
        case None => None
        case Some(e) => if e < pos then Some(Epub3Hit(pos, hs, e)) else None
  }

  /** The EPUB 3 search finds the one hit the declarative reading allows,
      and nothing when none exists. */
  lemma Epub3SearchComplete(c: string, x: Epub3Hit)
    requires IsEpub3Hit(c, x)
    ensures Epub3Search(c) == Some(x)
  {
    FindFromUnique(c, CoverImageMarker, 0, x.marker);
    assert Find(c, CoverImageMarker) == Some(x.marker);
    RFindUptoUnique(c, HrefMarker, x.marker - |HrefMarker|, x.href);
    NextQuoteUnique(c, x.href + |HrefMarker|, x.close);
  }

  /** Where the EPUB 2 search stopped: the first `name="cover"`, the first
      `content="` after it and the quote closing the id, the first
      `id="<id>"` in the whole document, and the first `href="` after that
      with its closing quote. */
  datatype Epub2Hit = Epub2Hit(meta: nat, content: nat, idClose: nat, item: nat, href: nat, close: nat)

  function ItemPattern(id: string): string {
    "id=\"" + id + "\""
  }

  /** The first `name="cover"`, the first `content="` after it, and the
      quote that closes the id. */
  predicate IsCoverIdHit(c: string, meta: nat, content: nat, idClose: nat) {
    MatchAt(c, CoverMetaMarker, meta) &&
    (forall j :: 0 <= j < meta ==> !MatchAt(c, CoverMetaMarker, j)) &&
    meta <= content && MatchAt(c, ContentMarker, content) &&
    (forall j :: meta <= j < content ==> !MatchAt(c, ContentMarker, j)) &&
    content + |ContentMarker| <= idClose < |c| && c[idClose] == '"' &&
    (forall k :: content + |ContentMarker| <= k < idClose ==> c[k] != '"')
  }

  /** The first `pattern` in the document, the first `href="` after it, and
      the quote that closes the href. */
  predicate IsItemHrefHit(c: string, pattern: string, item: nat, href: nat, close: nat) {
    MatchAt(c, pattern, item) &&
    (forall j :: 0 <= j < item ==> !MatchAt(c, pattern, j)) &&
    item <= href && MatchAt(c, HrefMarker, href) &&
    (forall j :: item <= j < href ==> !MatchAt(c, HrefMarker, j)) &&
    href + |HrefMarker| <= close < |c| && c[close] == '"' &&
    (forall k :: href + |HrefMarker| <= k < close ==> c[k] != '"')
  }

  /** The declarative reading of the EPUB 2 branch. */
  predicate IsEpub2Hit(c: string, x: Epub2Hit) {
    IsCoverIdHit(c, x.meta, x.content, x.idClose) &&
    IsItemHrefHit(c, ItemPattern(c[x.content + |ContentMarker|..x.idClose]), x.item, x.href, x.close)
  }

  datatype Span = Span(start: nat, mid: nat, end: nat)

  /** The first half of the EPUB 2 search: where the cover id sits. */
  function CoverIdSearch(c: string): (r: Option<Span>)
    ensures r.Some? ==> IsCoverIdHit(c, r.value.start, r.value.mid, r.value.end)
  {
    match Find(c, CoverMetaMarker)
    case None => None
    case Some(meta) =>
      match FindFrom(c, ContentMarker, meta)
      case None => None
      case Some(cs) =>
        match NextQuote(c, cs + |ContentMarker|)
        case None => None
        case Some(ce) => Some(Span(meta, cs, ce))
  }

  /** The second half: the manifest item with that id and its href. */
  function ItemHrefSearch(c: string, pattern: string): (r: Option<Span>)
    requires |pattern| > 0
    ensures r.Some? ==> IsItemHrefHit(c, pattern, r.value.start, r.value.mid, r.value.end)
  {
    match Find(c, pattern)
    case None => None
    case Some(item) =>
      match FindFrom(c, HrefMarker, item)
      case None => None
      case Some(hs) =>
        match NextQuote(c, hs + |HrefMarker|)
        case None => None
        case Some(he) => Some(Span(item, hs, he))
  }

  function Epub2Search(c: string): (r: Option<Epub2Hit>)
    ensures r.Some? ==> IsEpub2Hit(c, r.value)
  {
    match CoverIdSearch(c)
    case None => None
    case Some(id) =>
      match ItemHrefSearch(c, ItemPattern(c[id.mid + |ContentMarker|..id.end]))
      case None => None
      case Some(it) => Some(Epub2Hit(id.start, id.mid, id.end, it.start, it.mid, it.end))
  }

  lemma CoverIdSearchComplete(c: string, meta: nat, content: nat, idClose: nat)
    requires IsCoverIdHit(c, meta, content, idClose)
    ensures CoverIdSearch(c) == Some(Span(meta, content, idClose))
  {
    FindFromUnique(c, CoverMetaMarker, 0, meta);
    FindFromUnique(c, ContentMarker, meta, content);
    NextQuoteUnique(c, content + |ContentMarker|, idClose);
  }

  lemma ItemHrefSearchComplete(c: string, pattern: string, item: nat, href: nat, close: nat)
    requires |pattern| > 0 && IsItemHrefHit(c, pattern, item, href, close)
    ensures ItemHrefSearch(c, pattern) == Some(Span(item, href, close))
  {
    FindFromUnique(c, pattern, 0, item);
    assert Find(c, pattern) == Some(item);
    FindFromUnique(c, HrefMarker, item, href);
    NextQuoteUnique(c, href + |HrefMarker|, close);
  }

  lemma Epub2SearchComplete(c: string, x: Epub2Hit)
    requires IsEpub2Hit(c, x)
    ensures Epub2Search(c) == Some(x)
  {
    CoverIdSearchComplete(c, x.meta, x.content, x.idClose);
    ItemHrefSearchComplete(c, ItemPattern(c[x.content + |ContentMarker|..x.idClose]), x.item, x.href, x.close);
  }

  /** The href the OPF names for its cover, EPUB 3 first; `None` only when
      neither convention matches. */
  function OpfCoverHref(c: string): (r: Option<string>)
    ensures r.None? <==> Epub3Search(c).None? && Epub2Search(c).None?
  {
    match Epub3Search(c)
    case Some(x) => Some(c[x.href + |HrefMarker|..x.close])
    case None =>
      match Epub2Search(c)
      case Some(y) => Some(c[y.href + |HrefMarker|..y.close])
      case None => None
  }

  /** An EPUB 3 cover-image item decides the href, whatever the EPUB 2
      metadata says. */
  lemma Epub3HrefWins(c: string, x: Epub3Hit)
    requires IsEpub3Hit(c, x)
    ensures OpfCoverHref(c) == Some(c[x.href + |HrefMarker|..x.close])
  {
    Epub3SearchComplete(c, x);
  }

  /** Without one, the EPUB 2 cover meta decides it. */
  lemma Epub2HrefFallback(c: string, y: Epub2Hit)
    requires Epub3Search(c).None? && IsEpub2Hit(c, y)
    ensures OpfCoverHref(c) == Some(c[y.href + |HrefMarker|..y.close])
  {
    Epub2SearchComplete(c, y);
    OpfHrefFromEpub2(c, y);
  }

  lemma OpfHrefFromEpub2(c: string, y: Epub2Hit)
    requires Epub3Search(c).None? && Epub2Search(c) == Some(y)
    ensures y.href + |HrefMarker| <= y.close <= |c|
    ensures OpfCoverHref(c) == Some(c[y.href + |HrefMarker|..y.close])
  {
    var h := OpfCoverHref(c);
    assert h.Some?;
    assert h.value == c[y.href + |HrefMarker|..y.close];
  }

  /** `parse_opf_for_cover`: the cover href resolved against the OPF's own
      directory. */
  function ParseOpfForCover(a: Archive, opfPath: string): (r: Result<string, CoverError>)
    ensures opfPath !in a.entries ==> r == Err(Zip)
    ensures opfPath in a.entries && a.entries[opfPath].text.None? ==> r == Err(Io)
    ensures opfPath in a.entries && a.entries[opfPath].text.Some? ==>
      var c := a.entries[opfPath].text.value;
      (OpfCoverHref(c).None? ==> r == Err(NoCoverFound)) &&
      (OpfCoverHref(c).Some? ==> r == Ok(JoinPath(Parent(opfPath), OpfCoverHref(c).value)))
  {
    if opfPath !in a.entries then Err(Zip)
    else match a.entries[opfPath].text
      case None => Err(Io)
      case Some(c) =>
        match OpfCoverHref(c)
        case None => Err(NoCoverFound)
        case Some(href) => Ok(JoinPath(Parent(opfPath), href))
  }

  // ---------------------------------------------------------------------
  // Fallback search
  // ---------------------------------------------------------------------

  const CommonPaths: seq<string> := [
    "OEBPS/cover.jpg",
    "OEBPS/cover.jpeg",
    "OEBPS/cover.png",
    "OEBPS/Images/cover.jpg",
    "OEBPS/images/cover.jpg",
    "OPS/cover.jpg",
    "OPS/cover.jpeg",
    "OPS/images/cover.jpg",
    "cover.jpg",
    "cover.jpeg",
    "cover.png"
  ]

  /** The first of `CommonPaths[i..]` present in the archive. */
  function FirstCommonFrom(a: Archive, i: nat): (r: Option<nat>)
    requires i <= |CommonPaths|
    ensures r.Some? ==> i <= r.value < |CommonPaths| && CommonPaths[r.value] in a.entries
    ensures r.Some? ==> forall k :: i <= k < r.value ==> CommonPaths[k] !in a.entries
    ensures r.None? ==> forall k :: i <= k < |CommonPaths| ==> CommonPaths[k] !in a.entries
    decreases |CommonPaths| - i
  {
    if i == |CommonPaths| then None
    else if CommonPaths[i] in a.entries then Some(i)
    else FirstCommonFrom(a, i + 1)
  }

  /** The name test of the scan, on the lowercased name. ASCII lowercasing
      gives the same answer as Rust's Unicode `to_lowercase` here: the only
      non-ASCII characters whose lowercase contains ASCII letters are the
      Kelvin sign and dotted capital I, and neither `k` nor `i` occurs in
      ".jpg", ".jpeg", ".png" or "cover". */
  predicate IsCoverImage(name: string) {
    var lower := LowerAscii(name);
    (EndsWith(lower, ".jpg") || EndsWith(lower, ".jpeg") || EndsWith(lower, ".png")) &&
    Contains(lower, "cover")
  }

  /** Number of '/'-separated segments, `name.split('/').count()`. */
  function Depth(name: string): (d: nat)
    ensures d == |Split(name, '/')|
  {
    |Split(name, '/')|
  }

  /** The scan over the first `n` names: the index of the shallowest cover
      image, the earliest one among equally shallow ones. */
  function BestCover(names: seq<string>): (r: Option<nat>)
    ensures r.Some? ==> r.value < |names| && IsCoverImage(names[r.value])
    ensures r.Some? ==> forall k :: 0 <= k < |names| && IsCoverImage(names[k]) ==>
      Depth(names[r.value]) <= Depth(names[k])
    ensures r.Some? ==> forall k :: 0 <= k < r.value && IsCoverImage(names[k]) ==>
      Depth(names[r.value]) < Depth(names[k])
    ensures r.None? <==> forall k :: 0 <= k < |names| ==> !IsCoverImage(names[k])
  {
    if |names| == 0 then None
    else
      var pre := names[..|names| - 1];
      var last := names[|names| - 1];
      var best := BestCover(pre);
      assert forall k :: 0 <= k < |pre| ==> names[k] == pre[k];
      if !IsCoverImage(last) then best
      else match best
        case None => Some(|names| - 1)
        case Some(b) => if Depth(last) < Depth(pre[b]) then Some(|names| - 1) else best
  }

  /** `fallback_find_cover_path`: the fixed paths in list order, then the
      scan. */
  function FallbackCoverPath(a: Archive): (r: Option<string>)
    ensures FirstCommonFrom(a, 0).Some? ==> r == Some(CommonPaths[FirstCommonFrom(a, 0).value])
    ensures FirstCommonFrom(a, 0).None? && BestCover(a.names).Some? ==>
      r == Some(a.names[BestCover(a.names).value])
    ensures r.None? <==> FirstCommonFrom(a, 0).None? && BestCover(a.names).None?
  {
    match FirstCommonFrom(a, 0)
    case Some(k) => Some(CommonPaths[k])
    case None =>
      match BestCover(a.names)
      case Some(i) => Some(a.names[i])
      case None => None
  }

  /** Every path the fallback offers is a member of a well-formed archive. */
  lemma FallbackNamesEntry(a: Archive)
    requires WellFormed(a)
    ensures FallbackCoverPath(a).Some? ==> FallbackCoverPath(a).value in a.entries
  {
  }

  /** `find_cover_path`: an error reading the container is passed on; a path
      derived from the OPF always beats the fallback; any OPF failure,
      including an unreadable OPF, falls back. */
  function FindCoverPath(a: Archive): (r: Result<Option<string>, CoverError>)
    ensures GetOpfPath(a).Err? ==> r == Err(Io)
    ensures (GetOpfPath(a).Ok? && GetOpfPath(a).value.Some? &&
             ParseOpfForCover(a, GetOpfPath(a).value.value).Ok?) ==>
      r == Ok(Some(ParseOpfForCover(a, GetOpfPath(a).value.value).value))
    ensures (GetOpfPath(a).Ok? && (GetOpfPath(a).value.None? ||
             ParseOpfForCover(a, GetOpfPath(a).value.value).Err?)) ==>
      r == Ok(FallbackCoverPath(a))
  {
    match GetOpfPath(a)
    case Err(e) => Err(e)
    case Ok(opf) =>
      if opf.Some? && ParseOpfForCover(a, opf.value).Ok? then
        Ok(Some(ParseOpfForCover(a, opf.value).value))
      else Ok(FallbackCoverPath(a))
  }

  /** An EPUB 3 cover-image item in the OPF the container names decides the
      cover path, relative to the OPF's directory; the fallback never runs. */
  lemma Epub3CoverChosen(a: Archive, opf: string, x: Epub3Hit)
    requires GetOpfPath(a) == Ok(Some(opf))
    requires opf in a.entries && a.entries[opf].text.Some?
    requires IsEpub3Hit(a.entries[opf].text.value, x)
    ensures var c := a.entries[opf].text.value;
      x.close <= |c| &&
      FindCoverPath(a) == Ok(Some(JoinPath(Parent(opf), c[x.href + |HrefMarker|..x.close])))
  {
    Epub3HrefWins(a.entries[opf].text.value, x);
  }

  /** Without an EPUB 3 item, the EPUB 2 cover meta of that OPF decides it. */
  lemma Epub2CoverChosen(a: Archive, opf: string, y: Epub2Hit)
    requires GetOpfPath(a) == Ok(Some(opf))
    requires opf in a.entries && a.entries[opf].text.Some?
    requires forall x :: !IsEpub3Hit(a.entries[opf].text.value, x)
    requires IsEpub2Hit(a.entries[opf].text.value, y)
    ensures var c := a.entries[opf].text.value;
      y.close <= |c| &&
      FindCoverPath(a) == Ok(Some(JoinPath(Parent(opf), c[y.href + |HrefMarker|..y.close])))
  {
    var c := a.entries[opf].text.value;
    assert Epub3Search(c).None?;
    Epub2HrefFallback(c, y);
  }

  /** An OPF matching neither convention sends the search to the fallback,
      as does an archive without a usable container file. */
  lemma NoOpfCoverFallsBack(a: Archive)
    requires GetOpfPath(a).Ok?
    requires GetOpfPath(a).value.Some? ==>
      var opf := GetOpfPath(a).value.value;
      opf in a.entries && a.entries[opf].text.Some? &&
      (forall x :: !IsEpub3Hit(a.entries[opf].text.value, x)) &&
      (forall y :: !IsEpub2Hit(a.entries[opf].text.value, y))
    ensures FindCoverPath(a) == Ok(FallbackCoverPath(a))
  {
    if GetOpfPath(a).value.Some? {
      var c := a.entries[GetOpfPath(a).value.value].text.value;
      assert Epub3Search(c).None?;
      assert Epub2Search(c).None?;
    }
  }

  // ---------------------------------------------------------------------
  // Cache key
  // ---------------------------------------------------------------------

  /** A SHA-256 digest; the hash itself is a parameter. */
  type Digest = d: seq<byte> | |d| == 32 witness seq(32, _ => 0 as byte)

  function HexDigit(n: nat): (c: char)
    requires n < 16
    ensures '0' <= c <= '9' || 'a' <= c <= 'f'
  {
    if n < 10 then ('0' as int + n) as char else ('a' as int + n - 10) as char
  }

  function HexValue(c: char): nat {
    if '0' <= c <= '9' then c as int - '0' as int
    else if 'a' <= c <= 'f' then c as int - 'a' as int + 10
    else 0
  }

  /** The digest in lowercase hex (Rust's `x` format): two digits per byte. */
  function Hex(d: seq<byte>): (r: string)
    ensures |r| == 2 * |d|
  {
    if |d| == 0 then []
    else Hex(d[..|d| - 1]) + [HexDigit(d[|d| - 1] as nat / 16), HexDigit(d[|d| - 1] as nat % 16)]
  }

  /** Reading the hex text back, two digits per byte. */
  function Unhex(s: string): seq<byte>
    decreases |s|
  {
    if |s| < 2 then []
    else Unhex(s[..|s| - 2]) + [(HexValue(s[|s| - 2]) * 16 + HexValue(s[|s| - 1])) as byte]
  }

  lemma {:induction false} UnhexHex(d: seq<byte>)
    ensures Unhex(Hex(d)) == d
  {
    if |d| > 0 {
      var pre := d[..|d| - 1];
      var b := d[|d| - 1];
      UnhexHex(pre);
      var hi := HexDigit(b as nat / 16);
      var lo := HexDigit(b as nat % 16);
      assert Hex(d) == Hex(pre) + [hi, lo];
      UnhexSnoc(Hex(pre), hi, lo);
      ByteDigits(b);
      assert d == pre + [b];
    }
  }

  lemma UnhexSnoc(t: string, x: char, y: char)
    ensures Unhex(t + [x, y]) == Unhex(t) + [(HexValue(x) * 16 + HexValue(y)) as byte]
  {
    var s := t + [x, y];
    assert s[..|s| - 2] == t;
  }

  lemma DigitsOf(n: nat)
    requires n < 256
    ensures HexValue(HexDigit(n / 16)) * 16 + HexValue(HexDigit(n % 16)) == n
  {
    assert HexValue(HexDigit(n / 16)) == n / 16;
    assert HexValue(HexDigit(n % 16)) == n % 16;
  }

  lemma ByteDigits(b: byte)
    ensures (HexValue(HexDigit(b as nat / 16)) * 16 + HexValue(HexDigit(b as nat % 16))) as byte == b
  {
    DigitsOf(b as nat);
  }

  lemma {:induction false} HexAppend(a: seq<byte>, b: seq<byte>)
    ensures Hex(a + b) == Hex(a) + Hex(b)
    decreases |b|
  {
    if |b| > 0 {
      var b' := b[..|b| - 1];
      assert (a + b)[..|a + b| - 1] == a + b';
      HexAppend(a, b');
    } else {
      assert a + b == a;
    }
  }

  /** `modified.duration_since(UNIX_EPOCH).unwrap_or_default().as_secs()`,
      from a modification time in nanoseconds since the epoch: whole seconds,
      zero before the epoch. */
  function ModifiedSecs(mtimeNanos: int): nat {
    if mtimeNanos < 0 then 0 else mtimeNanos / 1_000_000_000
  }

  function CacheKeyInput(path: string, secs: nat): string {
    path + ":" + NatToString(secs)
  }

  /** `compute_cache_key`: the first 16 hex digits of the digest of
      "path:secs". */
  function CacheKey(hash: string -> Digest, path: string, mtimeNanos: int): (key: string)
    ensures |key| == 16
    ensures key == Hex(hash(CacheKeyInput(path, ModifiedSecs(mtimeNanos)))[..8])
    ensures forall i :: 0 <= i < |key| ==> '0' <= key[i] <= '9' || 'a' <= key[i] <= 'f'
  {
    var d := hash(CacheKeyInput(path, ModifiedSecs(mtimeNanos)));
    HexAppend(d[..8], d[8..]);
    assert d == d[..8] + d[8..];
    HexDigits(d);
    Hex(d)[..16]
  }

  lemma {:induction false} HexDigits(d: seq<byte>)
    ensures forall i :: 0 <= i < |Hex(d)| ==> '0' <= Hex(d)[i] <= '9' || 'a' <= Hex(d)[i] <= 'f'
  {
    if |d| > 0 {
      HexDigits(d[..|d| - 1]);
    }
  }

  /** Two modification times within the same whole second give the same
      key, and the key names the first eight digest bytes. */
  lemma CacheKeySameSecond(hash: string -> Digest, path: string, t1: int, t2: int)
    requires ModifiedSecs(t1) == ModifiedSecs(t2)
    ensures CacheKey(hash, path, t1) == CacheKey(hash, path, t2)
    ensures Unhex(CacheKey(hash, path, t1)) == hash(CacheKeyInput(path, ModifiedSecs(t1)))[..8]
  {
    UnhexHex(hash(CacheKeyInput(path, ModifiedSecs(t1)))[..8]);
  }

  // ---------------------------------------------------------------------
  // The cache directory
  // ---------------------------------------------------------------------

  datatype CacheEntry = RegularFile(bytes: seq<byte>) | Subdirectory

  /** The cache directory's entries by file name, `None` when the directory
      does not exist. */
  type CacheDir = Option<map<string, CacheEntry>>

  function CachedName(key: string): string { key + ".jpg" }
  function PlaceholderName(key: string): string { key + "_placeholder.svg" }

  lemma CacheNamesDiffer(key: string)
    ensures CachedName(key) != PlaceholderName(key)
  {
    assert CachedName(key)[|key|] == '.';
    assert PlaceholderName(key)[|key|] == '_';
  }

  /** The placeholder document, split around its caption. */
  const SvgOpen: string := "<svg"
  const SvgHead: string :=
    SvgOpen + " xmlns=\"http://www.w3.org/2000/svg\" width=\"200\" height=\"300\" viewBox=\"0 0 200 300\">\n"
    + "            <rect width=\"200\" height=\"300\" fill=\"#f0f0f0\"/>\n"
    + "            <rect x=\"20\" y=\"40\" width=\"160\" height=\"200\" fill=\"#e0e0e0\" stroke=\"#ccc\" stroke-width=\"2\"/>\n"
    + "            <text x=\"100\" y=\"150\" text-anchor=\"middle\" font-family=\"sans-serif\" font-size=\"14\" fill=\"#999\">\n"
    + "                "
  const SvgCaption: string := "Sem Capa"
  const SvgTail: string := "\n            </text>\n        </svg>"
  const PlaceholderSvg: string := SvgHead + SvgCaption + SvgTail

  /** UTF-8 bytes of a string whose characters are all ASCII. */
  function AsciiBytes(s: string): (r: seq<byte>)
    ensures |r| == |s|
    ensures forall i :: 0 <= i < |s| && s[i] as int < 128 ==> r[i] as int == s[i] as int
  {
    seq(|s|, i requires 0 <= i < |s| => (s[i] as int % 256) as byte)
  }

  function PlaceholderBytes(): seq<byte> {
    AsciiBytes(PlaceholderSvg)
  }

  /** What goes wrong while writing one cache file: nothing, `File::create`
      itself, or `write_all` after the first `kept` bytes reached the file.
      `write_all` can only fail with bytes still unwritten, so a real
      `WriteFails(kept)` has `kept < |bytes|`; a larger `kept` is an
      environment that cannot occur, and the model then keeps every byte but
      still reports the error. */
  datatype WriteFault = NoFault | CreateFails | WriteFails(kept: nat)

  /** `File::create` can open `name` for writing: the directory exists and
      the name is not taken by a directory. */
  predicate Writable(dir: CacheDir, name: string) {
    dir.Some? && !(name in dir.value && dir.value[name].Subdirectory?)
  }

  /** The part of `bytes` on disk after `write_all` failed `kept` bytes in. */
  function Truncated(bytes: seq<byte>, kept: nat): (r: seq<byte>)
    ensures |r| <= |bytes| && r == bytes[..|r|]
    ensures kept < |bytes| ==> |r| == kept
  {
    if kept < |bytes| then bytes[..kept] else bytes
  }

  /** `File::create` plus `write_all`. `create` fails on a missing directory,
      on a name taken by a directory, or by fault, and then nothing changes.
      Once created the file is empty; a failing `write_all` leaves it holding
      only the bytes written so far; otherwise it holds exactly `bytes`. */
  function WriteFile(dir: CacheDir, name: string, bytes: seq<byte>, fault: WriteFault): (r: (Result<(), CoverError>, CacheDir))
    ensures r.0.Ok? <==> Writable(dir, name) && fault == NoFault
    ensures r.0.Err? ==> r.0.error == Io
    ensures Writable(dir, name) && fault == NoFault ==> r.1 == Some(dir.value[name := RegularFile(bytes)])
    ensures !Writable(dir, name) || fault == CreateFails ==> r.1 == dir
    ensures Writable(dir, name) && fault.WriteFails? ==>
      r.1 == Some(dir.value[name := RegularFile(Truncated(bytes, fault.kept))])
  {
    if !Writable(dir, name) || fault == CreateFails then (Err(Io), dir)
    else if fault.WriteFails? then (Err(Io), Some(dir.value[name := RegularFile(Truncated(bytes, fault.kept))]))
    else (Ok(()), Some(dir.value[name := RegularFile(bytes)]))
  }

  /** How opening the archive went. */
  datatype ArchiveSource = Unopenable | NotZip | Opened(archive: Archive)

  /** The result of `extract_cover` and the cache directory afterwards. The
      returned path is given as a file name inside the cache directory. */
  datatype Extraction = Extraction(result: Result<Option<string>, CoverError>, cache: CacheDir)

  predicate IsHit(dir: CacheDir, key: string) {
    dir.Some? && CachedName(key) in dir.value
  }

  /** The lookup missed, so the archive is opened. */
  predicate Misses(hash: string -> Digest, path: string, mtime: Option<int>, dir: CacheDir) {
    mtime.Some? && !IsHit(dir, CacheKey(hash, path, mtime.value))
  }

  /** The archive opened and names a cover member it holds. */
  predicate FoundCover(src: ArchiveSource) {
    src.Opened? && FindCoverPath(src.archive).Ok? && FindCoverPath(src.archive).value.Some? &&
    FindCoverPath(src.archive).value.value in src.archive.entries
  }

  /** The bytes of that member. */
  function CoverBytes(src: ArchiveSource): seq<byte>
    requires FoundCover(src)
  {
    src.archive.entries[FindCoverPath(src.archive).value.value].data
  }

  /** The archive opened and no cover was found in it. */
  predicate NoCover(src: ArchiveSource) {
    src.Opened? && FindCoverPath(src.archive) == Ok(None)
  }

  /** `extract_cover`. `mtime` is the archive's modification time in
      nanoseconds, `None` when `fs::metadata` or `modified` fails; `fault`
      decides how the one cache write goes. */
  function ExtractCover(hash: string -> Digest, path: string, mtime: Option<int>,
                        src: ArchiveSource, dir: CacheDir, fault: WriteFault): (r: Extraction)
    // before the archive is opened
    ensures mtime.None? ==> r == Extraction(Err(Io), dir)
    ensures mtime.Some? && IsHit(dir, CacheKey(hash, path, mtime.value)) ==>
      r == Extraction(Ok(Some(CachedName(CacheKey(hash, path, mtime.value)))), dir)
    // errors before any write
    ensures Misses(hash, path, mtime, dir) && src.Unopenable? ==> r == Extraction(Err(Io), dir)
    ensures Misses(hash, path, mtime, dir) && src.NotZip? ==> r == Extraction(Err(Zip), dir)
    ensures Misses(hash, path, mtime, dir) && src.Opened? && FindCoverPath(src.archive).Err? ==>
      r == Extraction(Err(FindCoverPath(src.archive).error), dir)
    ensures (Misses(hash, path, mtime, dir) && src.Opened? &&
             FindCoverPath(src.archive).Ok? && FindCoverPath(src.archive).value.Some? &&
             FindCoverPath(src.archive).value.value !in src.archive.entries) ==>
      r == Extraction(Err(Zip), dir)
    // a cover was found: its bytes go to `{key}.jpg`
    ensures Misses(hash, path, mtime, dir) && FoundCover(src) ==>
      var name := CachedName(CacheKey(hash, path, mtime.value));
      (Writable(dir, name) && fault == NoFault ==>
         r == Extraction(Ok(Some(name)), Some(dir.value[name := RegularFile(CoverBytes(src))]))) &&
      (!Writable(dir, name) || fault == CreateFails ==> r == Extraction(Err(Io), dir)) &&
      (Writable(dir, name) && fault.WriteFails? ==>
         r == Extraction(Err(Io), Some(dir.value[name := RegularFile(Truncated(CoverBytes(src), fault.kept))])))
    // no cover: the placeholder SVG goes to `{key}_placeholder.svg`
    ensures Misses(hash, path, mtime, dir) && NoCover(src) ==>
      var name := PlaceholderName(CacheKey(hash, path, mtime.value));
      (Writable(dir, name) && fault == NoFault ==>
         r == Extraction(Ok(Some(name)), Some(dir.value[name := RegularFile(PlaceholderBytes())]))) &&
      (!Writable(dir, name) || fault == CreateFails ==> r == Extraction(Err(Io), dir)) &&
      (Writable(dir, name) && fault.WriteFails? ==>
         r == Extraction(Err(Io), Some(dir.value[name := RegularFile(Truncated(PlaceholderBytes(), fault.kept))])))
    // whatever happens, a returned file is in the cache and no other file changes
    ensures r.result.Ok? ==> r.result.value.Some? && r.cache.Some? && r.result.value.value in r.cache.value
    ensures r.cache.Some? ==> dir.Some?
    ensures mtime.Some? && r.cache.Some? ==>
      var key := CacheKey(hash, path, mtime.value);
      forall n :: n in dir.value && n != CachedName(key) && n != PlaceholderName(key) ==>
        n in r.cache.value && r.cache.value[n] == dir.value[n]
  {
    match mtime
    case None => Extraction(Err(Io), dir)
    case Some(t) =>
      var key := CacheKey(hash, path, t);
      if IsHit(dir, key) then Extraction(Ok(Some(CachedName(key))), dir)
      else match src
        case Unopenable => Extraction(Err(Io), dir)
        case NotZip => Extraction(Err(Zip), dir)
        case Opened(a) =>
          match FindCoverPath(a)
          case Err(e) => Extraction(Err(e), dir)
          case Ok(Some(p)) =>
            if p !in a.entries then Extraction(Err(Zip), dir)
            else
              var w := WriteFile(dir, CachedName(key), a.entries[p].data, fault);
              Extraction(if w.0.Ok? then Ok(Some(CachedName(key))) else Err(Io), w.1)
          case Ok(None) =>
            var w := WriteFile(dir, PlaceholderName(key), PlaceholderBytes(), fault);
            Extraction(if w.0.Ok? then Ok(Some(PlaceholderName(key))) else Err(Io), w.1)
  }

  /** A cache hit does not depend on the archive at all. */
  lemma HitIgnoresArchive(hash: string -> Digest, path: string, t: int,
                          src1: ArchiveSource, src2: ArchiveSource, dir: CacheDir, f1: WriteFault, f2: WriteFault)
    requires IsHit(dir, CacheKey(hash, path, t))
    ensures ExtractCover(hash, path, Some(t), src1, dir, f1) == ExtractCover(hash, path, Some(t), src2, dir, f2)
  {
  }

  /** Extracting the same archive again returns the same cached file and
      leaves the cache untouched, once a real cover was stored. */
  lemma SecondExtractionHits(hash: string -> Digest, path: string, t: int,
                             src: ArchiveSource, dir: CacheDir, f1: WriteFault, f2: WriteFault)
    requires ExtractCover(hash, path, Some(t), src, dir, f1).result == Ok(Some(CachedName(CacheKey(hash, path, t))))
    ensures var first := ExtractCover(hash, path, Some(t), src, dir, f1);
      ExtractCover(hash, path, Some(t), src, first.cache, f2) == first
  {
  }

  /** When a placeholder was written the `.jpg` lookup still misses, so the
      archive is opened again on the next call and yields the same
      placeholder. */
  lemma PlaceholderNeverHits(hash: string -> Digest, path: string, t: int,
                             a: Archive, dir: CacheDir, f1: WriteFault)
    requires ExtractCover(hash, path, Some(t), Opened(a), dir, f1).result ==
      Ok(Some(PlaceholderName(CacheKey(hash, path, t))))
    ensures var first := ExtractCover(hash, path, Some(t), Opened(a), dir, f1);
      !IsHit(first.cache, CacheKey(hash, path, t)) &&
      ExtractCover(hash, path, Some(t), Opened(a), first.cache, NoFault).result == first.result
  {
    var key := CacheKey(hash, path, t);
    CacheNamesDiffer(key);
  }

  /** A cover write that fails after `File::create` leaves a truncated
      `{key}.jpg` behind. The next call takes it for a cached cover and
      returns it without opening the archive again. */
  lemma TruncatedCoverHits(hash: string -> Digest, path: string, t: int,
                           src: ArchiveSource, dir: CacheDir, kept: nat, f2: WriteFault)
    requires Misses(hash, path, Some(t), dir) && FoundCover(src)
    requires Writable(dir, CachedName(CacheKey(hash, path, t)))
    ensures var first := ExtractCover(hash, path, Some(t), src, dir, WriteFails(kept));
      var name := CachedName(CacheKey(hash, path, t));
      first.result == Err(Io) && first.cache.Some? &&
      first.cache.value[name] == RegularFile(Truncated(CoverBytes(src), kept)) &&
      ExtractCover(hash, path, Some(t), src, first.cache, f2) == Extraction(Ok(Some(name)), first.cache)
  {
  }

  /** The placeholder is an SVG document saying "Sem Capa". */
  lemma PlaceholderIsSvg()
    ensures StartsWith(PlaceholderSvg, "<svg")
    ensures Contains(PlaceholderSvg, "Sem Capa")
  {
    var i := |SvgHead|;
    assert PlaceholderSvg == SvgOpen + (PlaceholderSvg[4..]);
    assert PlaceholderSvg[i..i + |SvgCaption|] == SvgCaption;
    assert MatchAt(PlaceholderSvg, "Sem Capa", i);
  }

  // ---------------------------------------------------------------------
  // Clearing the cache
  // ---------------------------------------------------------------------

  /** `clear_cache`: every regular file goes, subdirectories stay, and a
      missing directory is fine. */
  function ClearCache(dir: CacheDir): (r: (Result<(), CoverError>, CacheDir))
    ensures r.0.Ok?
    ensures dir.None? ==> r.1.None?
    ensures dir.Some? ==> (r.1.Some? &&
      (forall n :: n in r.1.value <==> n in dir.value && dir.value[n].Subdirectory?) &&
      (forall n :: n in r.1.value ==> r.1.value[n] == dir.value[n]))
  {
    match dir
    case None => (Ok(()), None)
    case Some(m) => (Ok(()), Some(map n | n in m && m[n].Subdirectory? :: m[n]))
  }

  lemma ClearCacheIdempotent(dir: CacheDir)
    ensures ClearCache(ClearCache(dir).1) == ClearCache(dir)
  {
    if dir.Some? {
      var once := ClearCache(dir).1.value;
      var twice := ClearCache(ClearCache(dir).1).1.value;
      assert forall n :: n in twice <==> n in once;
      assert twice == once;
    }
  }

  /** After clearing, the next extraction can only hit through a directory
      named like the cached cover. */
  lemma ClearedCacheMisses(dir: CacheDir, key: string)
    requires dir.Some? && (CachedName(key) in dir.value ==> dir.value[CachedName(key)].RegularFile?)
    ensures !IsHit(ClearCache(dir).1, key)
  {
  }
}
