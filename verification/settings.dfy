/** Persistent application settings (`SettingsManager`).

    The settings file is JSON written by serde. JSON printing and parsing are
    parameters here (`serialize`, `parse`); the file system is a map from
    path to file; a failure oracle decides which of the I/O steps of `save`
    fail. */
module Settings {
  import opened Wrappers
  import opened Strings
  import Models
  import Paths

  newtype u32 = x: int | 0 <= x < 0x1_0000_0000

  // ---------------------------------------------------------------------
  // Preferences and their serde tags
  // ---------------------------------------------------------------------

  datatype ThemePreference = System | Light | Dark
  datatype ViewMode = Grid | List
  datatype SortPreference = ByTitle | ByAuthor | ByDateLastRead | ByHighlightCount

  /** serde `rename_all = "snake_case"`. */
  function ThemeTag(t: ThemePreference): string {
    match t
    case System => "system"
    case Light => "light"
    case Dark => "dark"
  }

  /** Deserializing a tag: exactly the three tags are accepted, each one
      giving the variant it names. */
  function ParseTheme(s: string): (r: Option<ThemePreference>)
    ensures r.Some? ==> ThemeTag(r.value) == s
    ensures forall t :: ThemeTag(t) == s ==> r == Some(t)
  {
    if s == "system" then Some(System)
    else if s == "light" then Some(Light)
    else if s == "dark" then Some(Dark)
    else None
  }

  function ViewModeTag(v: ViewMode): string {
    match v
    case Grid => "grid"
    case List => "list"
  }

  function ParseViewMode(s: string): (r: Option<ViewMode>)
    ensures r.Some? ==> ViewModeTag(r.value) == s
    ensures forall v :: ViewModeTag(v) == s ==> r == Some(v)
  {
    if s == "grid" then Some(Grid)
    else if s == "list" then Some(List)
    else None
  }

  /** The variants are `Title`, `Author`, `DateLastRead`, `HighlightCount`
      in the source; the `By` prefix keeps them apart from the book fields. */
  function SortTag(p: SortPreference): string {
    match p
    case ByTitle => "title"
    case ByAuthor => "author"
    case ByDateLastRead => "date_last_read"
    case ByHighlightCount => "highlight_count"
  }

  function ParseSort(s: string): (r: Option<SortPreference>)
    ensures r.Some? ==> SortTag(r.value) == s
    ensures forall p :: SortTag(p) == s ==> r == Some(p)
  {
    if s == "title" then Some(ByTitle)
    else if s == "author" then Some(ByAuthor)
    else if s == "date_last_read" then Some(ByDateLastRead)
    else if s == "highlight_count" then Some(ByHighlightCount)
    else None
  }

  function DateFormatTag(f: Models.DateFormat): string {
    match f
    case DdMmYyyy => "dd_mm_yyyy"
    case DdMonthYyyy => "dd_month_yyyy"
    case Iso8601 => "iso8601"
  }

  function ParseDateFormat(s: string): (r: Option<Models.DateFormat>)
    ensures r.Some? ==> DateFormatTag(r.value) == s
    ensures forall f :: DateFormatTag(f) == s ==> r == Some(f)
  {
    if s == "dd_mm_yyyy" then Some(Models.DdMmYyyy)
    else if s == "dd_month_yyyy" then Some(Models.DdMonthYyyy)
    else if s == "iso8601" then Some(Models.Iso8601)
    else None
  }

  datatype UiPreferences = UiPreferences(
    theme: ThemePreference,
    window_width: u32,
    window_height: u32,
    is_maximized: bool,
    show_onboarding: bool,
    library_view_mode: ViewMode,
    library_sort: SortPreference)

  /** `usize` counters are unbounded here. */
  datatype LastImportRecord = LastImportRecord(
    timestamp: string,
    device_id: Option<string>,
    books_count: nat,
    highlights_count: nat)

  datatype AppSettings = AppSettings(
    export_config: Models.ExportConfig,
    ui_preferences: UiPreferences,
    last_import: Option<LastImportRecord>,
    version: string)

  // ---------------------------------------------------------------------
  // Defaults
  // ---------------------------------------------------------------------

  /** What the defaults read from the build and the environment: the crate
      version and `$HOME`. */
  datatype Env = Env(home: Option<string>, version: string)

  function DefaultUi(): (u: UiPreferences)
    ensures u.theme == System && u.window_width == 1200 && u.window_height == 800
    ensures !u.is_maximized && u.show_onboarding
    ensures u.library_view_mode == Grid && u.library_sort == ByTitle
  {
    UiPreferences(System, 1200, 800, false, true, Grid, ByTitle)
  }

  function DefaultMetadata(): (m: Models.MetadataConfig)
    ensures m.author && m.isbn && m.publisher && m.date_last_read && m.language
    ensures !m.description
  {
    Models.MetadataConfig(true, true, true, true, true, false)
  }

  /** The export folder is `Documents/Kobo Highlights` under `$HOME`, or
      under "." when `HOME` is unset. */
  function DefaultExportConfig(env: Env): (c: Models.ExportConfig)
    ensures c.export_path == env.home.GetOr(".") + "/Documents/Kobo Highlights"
    ensures c.metadata == DefaultMetadata()
    ensures c.date_format == Models.DdMonthYyyy
    ensures |c.export_path| > 0
  {
    Models.ExportConfig(env.home.GetOr(".") + "/Documents/Kobo Highlights", DefaultMetadata(), Models.DdMonthYyyy)
  }

  function DefaultSettings(env: Env): (s: AppSettings)
    ensures s.export_config == DefaultExportConfig(env)
    ensures s.ui_preferences == DefaultUi()
    ensures s.last_import.None?
    ensures s.version == env.version
  {
    AppSettings(DefaultExportConfig(env), DefaultUi(), None, env.version)
  }

  // ---------------------------------------------------------------------
  // Paths
  // ---------------------------------------------------------------------

  /** Index just after the last '/', where the file name starts. */
  function NameStart(p: string): (i: nat)
    ensures i <= |p|
    ensures '/' !in p[i..]
    ensures i > 0 ==> p[i - 1] == '/'
  {
    if |p| == 0 || p[|p| - 1] == '/' then |p|
    else
      var i := NameStart(p[..|p| - 1]);
      assert p[i..] == p[..|p| - 1][i..] + [p[|p| - 1]];
      i
  }

  /** A last path component that names a file (Rust's `file_name()` is
      `Some`). */
  predicate HasFileName(p: string) {
    var name := p[NameStart(p)..];
    name != "" && name != "." && name != ".."
  }

  /** Where the extension of a file name starts: its last '.', unless that
      is the leading dot of a hidden file; `|name|` when there is none. */
  function StemEnd(name: string): (k: nat)
    ensures k <= |name|
    ensures k < |name| ==> 0 < k && name[k] == '.' && '.' !in name[k + 1..]
    ensures k == |name| ==> |name| == 0 || '.' !in name[1..]
  {
    if |name| <= 1 then |name|
    else if name[|name| - 1] == '.' then |name| - 1
    else
      var k := StemEnd(name[..|name| - 1]);
      assert name[..|name| - 1][1..] == name[1..|name| - 1];
      if k == |name| - 1 then |name|
      else
        assert name[k + 1..] == name[..|name| - 1][k + 1..] + [name[|name| - 1]];
        k
  }

  /** `Path::with_extension` for a non-empty extension: the file stem, a
      dot, then `ext`. */
  function WithExtension(p: string, ext: string): (r: string)
    requires |ext| > 0
    ensures !HasFileName(p) ==> r == p
    ensures HasFileName(p) ==>
      var name := p[NameStart(p)..];
      r == p[..NameStart(p)] + name[..StemEnd(name)] + "." + ext
  {
    if !HasFileName(p) then p
    else
      var i := NameStart(p);
      var name := p[i..];
      p[..i] + name[..StemEnd(name)] + "." + ext
  }

  /** The sibling files of `save` and `load_with_fallback` are all
      different from each other and from the settings file itself. */
  lemma SiblingPathsDiffer(p: string, e1: string, e2: string)
    requires HasFileName(p) && |e1| > 0 && |e2| > 0
    requires '.' in e1 && '.' in e2 && e1 != e2
    ensures WithExtension(p, e1) != p && WithExtension(p, e2) != p
    ensures WithExtension(p, e1) != WithExtension(p, e2)
  {
    var i := NameStart(p);
    var name := p[i..];
    var stem := name[..StemEnd(name)];
    var base := p[..i] + stem + ".";
    assert WithExtension(p, e1) == base + e1;
    assert WithExtension(p, e2) == base + e2;
    assert (base + e1)[|base|..] == e1;
    assert (base + e2)[|base|..] == e2;
    NotOwnSibling(p, e1);
    NotOwnSibling(p, e2);
  }

  lemma NotOwnSibling(p: string, e: string)
    requires HasFileName(p) && |e| > 0 && '.' in e
    ensures WithExtension(p, e) != p
  {
  }

  const BackupExt := "json.backup"
  const TempExt := "json.tmp"
  const CorruptedExt := "json.corrupted"

  // ---------------------------------------------------------------------
  // The file system and loading
  // ---------------------------------------------------------------------

  /** A file whose text can be read, or one whose read fails (permissions,
      not UTF-8, a directory). */
  datatype FileData = Readable(text: string) | Unreadable
  type Fs = map<string, FileData>

  datatype SettingsError = HomeNotFound | IoError | ParseError | SerializeError

  datatype Manager = Manager(settings: AppSettings, config_path: string)

  /** `fs::copy`, which fails when the source is missing or the oracle says
      so. */
  function Copy(fs: Fs, src: string, dst: string, fails: bool): (r: Fs)
    ensures src in fs && !fails ==> r == fs[dst := fs[src]]
    ensures src !in fs || fails ==> r == fs
  {
    if src in fs && !fails then fs[dst := fs[src]] else fs
  }

  /** `load_with_fallback`: a read error is an error; unparsable text gives
      the defaults and a copy of the file under `.json.corrupted` (whose
      failure is ignored). */
  function LoadWithFallback(env: Env, parse: string -> Option<AppSettings>, fs: Fs,
                            path: string, copyFails: bool): (r: (Result<AppSettings, SettingsError>, Fs))
    requires path in fs
    ensures fs[path].Unreadable? ==> r == (Err(IoError), fs)
    ensures fs[path].Readable? && parse(fs[path].text).Some? ==> r == (Ok(parse(fs[path].text).value), fs)
    ensures fs[path].Readable? && parse(fs[path].text).None? ==>
      r.0 == Ok(DefaultSettings(env)) &&
      r.1 == Copy(fs, path, WithExtension(path, CorruptedExt), copyFails)
    ensures r.0.Err? ==> r.0.error == IoError
  {
    match fs[path]
    case Unreadable => (Err(IoError), fs)
    case Readable(text) =>
      match parse(text)
      case Some(s) => (Ok(s), fs)
      case None => (Ok(DefaultSettings(env)), Copy(fs, path, WithExtension(path, CorruptedExt), copyFails))
  }

  /** `SettingsManager::with_path`: no file means defaults. */
  function WithPath(env: Env, parse: string -> Option<AppSettings>, fs: Fs,
                    path: string, copyFails: bool): (r: (Result<Manager, SettingsError>, Fs))
    ensures path !in fs ==> r == (Ok(Manager(DefaultSettings(env), path)), fs)
    ensures r.0.Ok? ==> r.0.value.config_path == path
    ensures path in fs && fs[path].Unreadable? ==> r == (Err(IoError), fs)
    ensures path in fs && fs[path].Readable? ==>
      r.0.Ok? && r.0.value.settings == parse(fs[path].text).GetOr(DefaultSettings(env))
    ensures forall q :: q in fs && q != WithExtension(path, CorruptedExt) ==> q in r.1 && r.1[q] == fs[q]
  {
    if path !in fs then (Ok(Manager(DefaultSettings(env), path)), fs)
    else
      var loaded := LoadWithFallback(env, parse, fs, path, copyFails);
      match loaded.0
      case Err(e) => (Err(e), loaded.1)
      case Ok(s) => (Ok(Manager(s, path)), loaded.1)
  }

  const ConfigDir: string := "Library/" + "Application Support/" + "KoboHighlightsExporter"
  const SettingsFileName := "settings.json"

  /** `SettingsManager::new`'s path: `$HOME` is required; the directory
      `$HOME` joined with `ConfigDir` is created if needed, which may fail;
      the settings file is `settings.json` inside it. Both steps are
      `Path::join`, so an empty `$HOME` gives a relative path and a `$HOME`
      ending in '/' gets no second '/'. */
  function DefaultConfigPath(env: Env, createDirFails: bool): (r: Result<string, SettingsError>)
    ensures env.home.None? ==> r == Err(HomeNotFound)
    ensures env.home.Some? && createDirFails ==> r == Err(IoError)
    ensures env.home.Some? && !createDirFails ==> r.Ok?
    ensures r.Ok? ==> Paths.Parent(r.value) == Paths.JoinPath(env.home.value, ConfigDir)
    ensures r.Ok? ==> EndsWith(r.value, "/" + SettingsFileName)
    ensures r.Ok? && env.home.value == "" ==> r.value == ConfigDir + "/" + SettingsFileName
    ensures r.Ok? && env.home.value != "" && !EndsWith(env.home.value, "/") ==>
      r.value == env.home.value + "/" + ConfigDir + "/" + SettingsFileName
    ensures r.Ok? && EndsWith(env.home.value, "/") ==>
      r.value == env.home.value + ConfigDir + "/" + SettingsFileName
  {
    match env.home
    case None => Err(HomeNotFound)
    case Some(h) =>
      if createDirFails then Err(IoError)
      else
        var dir := Paths.JoinPath(h, ConfigDir);
        ConfigDirJoin(h);
        Ok(Paths.JoinPath(dir, SettingsFileName))
  }

  /** The configuration directory never ends in '/', so the file name is
      joined with one '/' and the directory is its parent. */
  lemma ConfigDirJoin(h: string)
    ensures var dir := Paths.JoinPath(h, ConfigDir);
      var p := Paths.JoinPath(dir, SettingsFileName);
      p == dir + "/" + SettingsFileName && Paths.Parent(p) == dir &&
      EndsWith(p, "/" + SettingsFileName)
  {
    ConfigNames();
    Paths.JoinUnder(h, ConfigDir, SettingsFileName);
  }

  lemma ConfigNames()
    ensures ConfigDir != [] && !StartsWith(ConfigDir, "/") && ConfigDir[|ConfigDir| - 1] != '/'
    ensures SettingsFileName != [] && '/' !in SettingsFileName
  {
    assert ConfigDir[..1][0] == ConfigDir[0] == 'L';
    assert ConfigDir[|ConfigDir| - 1] == 'r';
    assert forall k :: 0 <= k < |SettingsFileName| ==> SettingsFileName[k] != '/';
  }

  // ---------------------------------------------------------------------
  // Saving
  // ---------------------------------------------------------------------

  /** The I/O steps of `save` the oracle can fail. */
  datatype Step = BackupCopy | WriteTemp(attempt: nat) | RenameTemp(attempt: nat)
                | ReadBack(attempt: nat) | RestoreCopy

  /** The attempts loop's result: the file system, the delays slept (in
      milliseconds), how many attempts ran, and whether one verified. */
  datatype Run = Run(fs: Fs, delays: seq<nat>, attempts: nat, saved: bool)

  /** The delays before attempts 2, 3, ...: 100 ms times the failed
      attempt's number. */
  function Backoff(n: nat): (d: seq<nat>)
    ensures |d| == n
    ensures forall i :: 0 <= i < n ==> d[i] == 100 * (i + 1)
  {
    if n == 0 then [] else Backoff(n - 1) + [100 * n]
  }

  /** What `load_from_file` followed by the version check sees. */
  predicate Verified(parse: string -> Option<AppSettings>, fs: Fs, path: string, version: string) {
    path in fs && fs[path].Readable? && parse(fs[path].text).Some? &&
    parse(fs[path].text).value.version == version
  }

  /** Attempt `k` writes the temporary file, renames it and reads the
      settings file back, and the text read back carries the version held in
      memory. */
  predicate Works(k: nat, content: string, version: string,
                  parse: string -> Option<AppSettings>, fails: Step -> bool) {
    !fails(WriteTemp(k)) && !fails(RenameTemp(k)) && !fails(ReadBack(k)) &&
    parse(content).Some? && parse(content).value.version == version
  }

  /** One attempt: write the temp file, rename it over the settings file,
      read the settings file back. Returns the new file system and whether
      the attempt succeeded. */
  function TryOnce(k: nat, config: string, temp: string, content: string, version: string,
                   parse: string -> Option<AppSettings>, fails: Step -> bool, fs: Fs): (r: (Fs, bool))
    ensures fails(WriteTemp(k)) ==> r == (fs, false)
    ensures !fails(WriteTemp(k)) && fails(RenameTemp(k)) ==> r == (fs[temp := Readable(content)], false)
    ensures !fails(WriteTemp(k)) && !fails(RenameTemp(k)) ==>
      r.0 == (fs - {temp})[config := Readable(content)] &&
      (r.1 <==> !fails(ReadBack(k)) && Verified(parse, r.0, config, version))
    ensures r.1 <==> Works(k, content, version, parse, fails)
  {
    if fails(WriteTemp(k)) then (fs, false)
    else
      var written := fs[temp := Readable(content)];
      if fails(RenameTemp(k)) then (written, false)
      else
        var renamed := (written - {temp})[config := written[temp]];
        (renamed, !fails(ReadBack(k)) && Verified(parse, renamed, config, version))
  }

  /** Attempts `k` to 3 of the retry loop. A failed attempt below 3 sleeps
      `100 * k` ms before the next; the loop stops at the first success. */
  function Attempts(k: nat, config: string, temp: string, content: string, version: string,
                    parse: string -> Option<AppSettings>, fails: Step -> bool, fs: Fs,
                    delays: seq<nat>): (r: Run)
    requires 1 <= k <= 3
    requires delays == Backoff(k - 1)
    ensures k <= r.attempts <= 3
    ensures r.delays == Backoff(r.attempts - 1)
    ensures !r.saved ==> r.attempts == 3
    ensures r.saved ==> Verified(parse, r.fs, config, version)
    ensures r.saved ==> !fails(ReadBack(r.attempts))
    ensures r.saved <==> exists j :: k <= j <= 3 && Works(j, content, version, parse, fails)
    ensures r.saved ==> (Works(r.attempts, content, version, parse, fails) &&
      forall j :: k <= j < r.attempts ==> !Works(j, content, version, parse, fails))
    ensures forall q :: q in fs && q != config && q != temp ==> q in r.fs && r.fs[q] == fs[q]
    ensures forall q :: q in r.fs && q != config && q != temp ==> q in fs
    decreases 3 - k
  {
    var once := TryOnce(k, config, temp, content, version, parse, fails, fs);
    if once.1 then Run(once.0, delays, k, true)
    else if k < 3 then Attempts(k + 1, config, temp, content, version, parse, fails, once.0, delays + [100 * k])
    else Run(once.0, delays, k, false)
  }

  datatype SaveOutcome = SaveOutcome(result: Result<(), SettingsError>, fs: Fs, delays: seq<nat>, attempts: nat)

  /** The protocol after the content is known to re-parse: back up an
      existing settings file; up to three write-rename-verify attempts;
      after three failures restore the backup if there is one, and fail. */
  function Persist(content: string, parse: string -> Option<AppSettings>,
                   fails: Step -> bool, m: Manager, fs: Fs): (r: SaveOutcome)
    ensures r.result.Ok? ==> Verified(parse, r.fs, m.config_path, m.settings.version)
    ensures r.result.Ok? ==> m.config_path in r.fs && r.fs[m.config_path] == Readable(content)
    ensures r.result.Ok? ==> 1 <= r.attempts <= 3 && r.delays == Backoff(r.attempts - 1)
    ensures r.result.Err? ==> r.result == Err(IoError) && r.attempts == 3 && r.delays == [100, 200]
    ensures r.result.Ok? <==> exists j :: 1 <= j <= 3 && Works(j, content, m.settings.version, parse, fails)
    ensures r.result.Ok? ==> (Works(r.attempts, content, m.settings.version, parse, fails) &&
      forall j :: 1 <= j < r.attempts ==> !Works(j, content, m.settings.version, parse, fails))
  {
    var config := m.config_path;
    var backup := WithExtension(config, BackupExt);
    var temp := WithExtension(config, TempExt);
    var backedUp := if config in fs then Copy(fs, config, backup, fails(BackupCopy)) else fs;
    var run := Attempts(1, config, temp, content, m.settings.version, parse, fails, backedUp, []);
    if run.saved then
      AttemptsWrite(1, config, temp, content, m.settings.version, parse, fails, backedUp, []);
      SaveOutcome(Ok(()), run.fs, run.delays, run.attempts)
    else
      var restored := if backup in run.fs then Copy(run.fs, backup, config, fails(RestoreCopy)) else run.fs;
      assert Backoff(2) == [100, 200];
      SaveOutcome(Err(IoError), restored, run.delays, run.attempts)
  }

  /** A successful run left the content it wrote in the settings file. */
  lemma AttemptsWrite(k: nat, config: string, temp: string, content: string, version: string,
                      parse: string -> Option<AppSettings>, fails: Step -> bool, fs: Fs, delays: seq<nat>)
    requires 1 <= k <= 3 && delays == Backoff(k - 1)
    ensures var r := Attempts(k, config, temp, content, version, parse, fails, fs, delays);
      r.saved ==> config in r.fs && r.fs[config] == Readable(content)
    decreases 3 - k
  {
    if k < 3 {
      var once := TryOnce(k, config, temp, content, version, parse, fails, fs);
      AttemptsWrite(k + 1, config, temp, content, version, parse, fails, once.0, delays + [100 * k]);
    }
  }

  /** `save`: the settings must serialize and the text must parse again
      before any file is touched. */
  function Save(serialize: AppSettings -> Option<string>, parse: string -> Option<AppSettings>,
                fails: Step -> bool, m: Manager, fs: Fs): (r: SaveOutcome)
    ensures (serialize(m.settings).None? || parse(serialize(m.settings).value).None?) ==>
      r == SaveOutcome(Err(SerializeError), fs, [], 0)
    ensures r.result.Ok? ==> Verified(parse, r.fs, m.config_path, m.settings.version)
    ensures r.result.Ok? ==> (serialize(m.settings).Some? &&
      m.config_path in r.fs && r.fs[m.config_path] == Readable(serialize(m.settings).value))
    ensures r.result.Err? ==> r.result.error == SerializeError || r.result.error == IoError
    ensures r.result == Err(IoError) ==> r.attempts == 3 && r.delays == [100, 200]
    ensures r.result.Ok? ==> 1 <= r.attempts <= 3 && r.delays == Backoff(r.attempts - 1)
    ensures r.result.Ok? <==> (serialize(m.settings).Some? &&
      exists j :: 1 <= j <= 3 && Works(j, serialize(m.settings).value, m.settings.version, parse, fails))
  {
    match serialize(m.settings)
    case None => SaveOutcome(Err(SerializeError), fs, [], 0)
    case Some(content) =>
      if parse(content).None? then SaveOutcome(Err(SerializeError), fs, [], 0)
      else Persist(content, parse, fails, m, fs)
  }

  /** The backup rule: with a settings file present and a working copy, the
      backup holds the old file afterwards, whatever happens; and a failed
      save whose restore works leaves the settings file as it was. */
  lemma SaveBackupRestore(serialize: AppSettings -> Option<string>, parse: string -> Option<AppSettings>,
                          fails: Step -> bool, m: Manager, fs: Fs)
    requires HasFileName(m.config_path)
    requires m.config_path in fs && !fails(BackupCopy)
    requires serialize(m.settings).Some? && parse(serialize(m.settings).value).Some?
    ensures var r := Save(serialize, parse, fails, m, fs);
      var backup := WithExtension(m.config_path, BackupExt);
      backup in r.fs && r.fs[backup] == fs[m.config_path] &&
      (r.result.Err? && !fails(RestoreCopy) ==> r.fs[m.config_path] == fs[m.config_path])
  {
    SiblingPathsDiffer(m.config_path, BackupExt, TempExt);
    var content := serialize(m.settings).value;
    var config := m.config_path;
    var backup := WithExtension(config, BackupExt);
    var temp := WithExtension(config, TempExt);
    var backedUp := Copy(fs, config, backup, false);
    assert backup in backedUp && backedUp[backup] == fs[config];
    var run := Attempts(1, config, temp, content, m.settings.version, parse, fails, backedUp, []);
    assert backup in run.fs && run.fs[backup] == fs[config];
    assert Save(serialize, parse, fails, m, fs) == Persist(content, parse, fails, m, fs);
  }

  /** Files other than the settings file and its two siblings are never
      touched by `save`. */
  lemma SaveTouchesOnlyItsFiles(serialize: AppSettings -> Option<string>, parse: string -> Option<AppSettings>,
                                fails: Step -> bool, m: Manager, fs: Fs, q: string)
    requires q in fs && q != m.config_path
    requires q != WithExtension(m.config_path, BackupExt) && q != WithExtension(m.config_path, TempExt)
    ensures var r := Save(serialize, parse, fails, m, fs);
      q in r.fs && r.fs[q] == fs[q]
  {
    if serialize(m.settings).Some? && parse(serialize(m.settings).value).Some? {
      PersistFrame(serialize(m.settings).value, parse, fails, m, fs, q);
    }
  }

  lemma PersistFrame(content: string, parse: string -> Option<AppSettings>,
                     fails: Step -> bool, m: Manager, fs: Fs, q: string)
    requires q in fs && q != m.config_path
    requires q != WithExtension(m.config_path, BackupExt) && q != WithExtension(m.config_path, TempExt)
    ensures var r := Persist(content, parse, fails, m, fs);
      q in r.fs && r.fs[q] == fs[q]
  {
    var config := m.config_path;
    var backup := WithExtension(config, BackupExt);
    var temp := WithExtension(config, TempExt);
    var backedUp := if config in fs then Copy(fs, config, backup, fails(BackupCopy)) else fs;
    assert q in backedUp && backedUp[q] == fs[q];
    var run := Attempts(1, config, temp, content, m.settings.version, parse, fails, backedUp, []);
    assert q in run.fs && run.fs[q] == fs[q];
  }

  /** A save that succeeded is read back by the next start: the loaded
      settings carry the saved version, and when the codec round-trips they
      are exactly the saved settings. */
  lemma SaveThenLoad(env: Env, serialize: AppSettings -> Option<string>, parse: string -> Option<AppSettings>,
                     fails: Step -> bool, m: Manager, fs: Fs, copyFails: bool)
    requires Save(serialize, parse, fails, m, fs).result.Ok?
    ensures var loaded := WithPath(env, parse, Save(serialize, parse, fails, m, fs).fs, m.config_path, copyFails);
      loaded.0.Ok? && loaded.0.value.settings.version == m.settings.version &&
      (parse(serialize(m.settings).value) == Some(m.settings) ==> loaded.0.value.settings == m.settings)
  {
  }

  /** With a codec that round-trips and a first attempt that works, `save`
      succeeds at once without sleeping, and the next start loads exactly
      the saved settings. */
  lemma FirstAttemptSaves(env: Env, serialize: AppSettings -> Option<string>, parse: string -> Option<AppSettings>,
                          fails: Step -> bool, m: Manager, fs: Fs, copyFails: bool)
    requires serialize(m.settings).Some? && parse(serialize(m.settings).value) == Some(m.settings)
    requires !fails(WriteTemp(1)) && !fails(RenameTemp(1)) && !fails(ReadBack(1))
    ensures var r := Save(serialize, parse, fails, m, fs);
      r.result.Ok? && r.attempts == 1 && r.delays == [] &&
      WithPath(env, parse, r.fs, m.config_path, copyFails).0 == Ok(Manager(m.settings, m.config_path))
  {
    assert Works(1, serialize(m.settings).value, m.settings.version, parse, fails);
    SaveThenLoad(env, serialize, parse, fails, m, fs, copyFails);
  }

  // ---------------------------------------------------------------------
  // Setters
  // ---------------------------------------------------------------------

  /** `set_export_config`: the new configuration is kept in memory whatever
      `save` returns. */
  function SetExportConfig(serialize: AppSettings -> Option<string>, parse: string -> Option<AppSettings>,
                           fails: Step -> bool, m: Manager, c: Models.ExportConfig, fs: Fs): (r: (Manager, SaveOutcome))
    ensures r.0.settings.export_config == c
    ensures r.0.settings.ui_preferences == m.settings.ui_preferences
    ensures r.0.settings.last_import == m.settings.last_import
    ensures r.0.settings.version == m.settings.version
    ensures r.0.config_path == m.config_path
    ensures r.1 == Save(serialize, parse, fails, r.0, fs)
  {
    var m' := m.(settings := m.settings.(export_config := c));
    (m', Save(serialize, parse, fails, m', fs))
  }

  function SetUiPreferences(serialize: AppSettings -> Option<string>, parse: string -> Option<AppSettings>,
                            fails: Step -> bool, m: Manager, u: UiPreferences, fs: Fs): (r: (Manager, SaveOutcome))
    ensures r.0.settings.ui_preferences == u
    ensures r.0.settings.export_config == m.settings.export_config
    ensures r.0.settings.last_import == m.settings.last_import
    ensures r.0.settings.version == m.settings.version
    ensures r.0.config_path == m.config_path
    ensures r.1 == Save(serialize, parse, fails, r.0, fs)
  {
    var m' := m.(settings := m.settings.(ui_preferences := u));
    (m', Save(serialize, parse, fails, m', fs))
  }

  function SetLastImport(serialize: AppSettings -> Option<string>, parse: string -> Option<AppSettings>,
                         fails: Step -> bool, m: Manager, rec: LastImportRecord, fs: Fs): (r: (Manager, SaveOutcome))
    ensures r.0.settings.last_import == Some(rec)
    ensures r.0.settings.export_config == m.settings.export_config
    ensures r.0.settings.ui_preferences == m.settings.ui_preferences
    ensures r.0.settings.version == m.settings.version
    ensures r.0.config_path == m.config_path
    ensures r.1 == Save(serialize, parse, fails, r.0, fs)
  {
    var m' := m.(settings := m.settings.(last_import := Some(rec)));
    (m', Save(serialize, parse, fails, m', fs))
  }

  /** `reset_to_defaults`: everything back to the defaults, the path kept. */
  function ResetToDefaults(env: Env, serialize: AppSettings -> Option<string>, parse: string -> Option<AppSettings>,
                           fails: Step -> bool, m: Manager, fs: Fs): (r: (Manager, SaveOutcome))
    ensures r.0.settings.ui_preferences.theme == System
    ensures r.0.settings.export_config.metadata.author
    ensures r.0.settings.last_import.None?
    ensures r.0 == Manager(DefaultSettings(env), m.config_path)
    ensures r.1 == Save(serialize, parse, fails, r.0, fs)
  {
    var m' := Manager(DefaultSettings(env), m.config_path);
    (m', Save(serialize, parse, fails, m', fs))
  }
}
