/** The sheet-list cache of DatabaseService.cs: the list last returned and
    the index write time it was loaded at, consulted by GetAllSheetsAsync
    before the index file and, failing that, a full rescan. */
module IndexCache {
  import opened Options
  import opened Platform
  import opened Models
  import opened FileNames
  import opened SheetOrder
  import opened SheetStore

  /** DateTime.MinValue: earlier than every file write time. */
  const MinValue: int := -1

  /** _cachedSheets (None for null) and _lastIndexUpdate. */
  datatype Cache = Cache(sheets: Option<seq<SheetInfo>>, lastIndexUpdate: int)

  /** The service as constructed. */
  const Initial: Cache := Cache(None, MinValue)

  /** The branch of GetAllSheetsAsync that produced a listing. */
  datatype Via = CacheHit | IndexLoad | FullRescan

  /** What GetAllSheetsAsync returns, with the cache and store it leaves. */
  datatype Listing = Listing(sheets: seq<SheetInfo>, cache: Cache, store: Store, via: Via)

  /** ClearCache: no list, and a recorded time no index can carry. */
  function ClearCache(c: Cache): (r: Cache)
    ensures r.sheets.None?
    ensures forall st: Store :: st.index.Some? ==> st.index.value.writeTime != r.lastIndexUpdate
  {
    Cache(None, MinValue)
  }

  /** IsIndexUpToDate: the index file exists and its write time is the
      recorded one. */
  function IsIndexUpToDate(st: Store, c: Cache): (r: bool)
    ensures r ==> st.index.Some?
    ensures c.lastIndexUpdate == MinValue ==> !r
  {
    st.index.Some? && st.index.value.writeTime == c.lastIndexUpdate
  }

  /** The condition ValidateIndexAsync checks: every record's folder holds a
      words.db. Only existence is checked, not the word counts. */
  predicate IndexValid(h: Host, st: Store, records: seq<SheetInfo>) {
    forall i :: 0 <= i < |records| ==> DbFileExists(h, st, records[i].folderPath)
  }

  /** ValidateIndexAsync: walks the records and gives up at the first whose
      words.db is missing. */
  method ValidateIndex(h: Host, st: Store, records: seq<SheetInfo>) returns (ok: bool)
    ensures ok <==> IndexValid(h, st, records)
  {
    for i := 0 to |records|
      invariant forall k :: 0 <= k < i ==> DbFileExists(h, st, records[k].folderPath)
    {
      if !DbFileExists(h, st, records[i].folderPath) {
        return false;
      }
    }
    return true;
  }

  /** LoadSheetsFromIndexAsync: the index's records when the file exists,
      deserializes to a list, and every entry validates; nothing otherwise. */
  function LoadSheetsFromIndex(h: Host, st: Store): (r: Option<seq<SheetInfo>>)
    ensures r.Some? <==> st.index.Some? && st.index.value.content.Json? && IndexValid(h, st, st.index.value.content.records)
    ensures r.Some? ==> r.value == st.index.value.content.records
  {
    match st.index
    case None => None
    case Some(IndexFile(Garbled, _)) => None
    case Some(IndexFile(Json(records), _)) => if IndexValid(h, st, records) then Some(records) else None
  }

  /** GetAllSheetsAsync: the cached list while the index keeps its recorded
      write time; else the validated index, recording its write time; else a
      rescan, which caches its list but leaves the recorded time alone. */
  function GetAllSheets(h: Host, st: Store, c: Cache): (r: Listing)
    ensures r.via == CacheHit <==> c.sheets.Some? && IsIndexUpToDate(st, c)
    ensures r.via == IndexLoad <==> r.via != CacheHit && LoadSheetsFromIndex(h, st).Some?
    ensures r.via == CacheHit ==> r.sheets == c.sheets.value && r.cache == c && r.store == st
    ensures r.via == IndexLoad ==>
      && r.sheets == st.index.value.content.records
      && IndexValid(h, st, r.sheets)
      && r.cache.lastIndexUpdate == st.index.value.writeTime
      && r.store == st
    ensures r.via == FullRescan ==>
      && r.cache.lastIndexUpdate == c.lastIndexUpdate
      && (r.sheets, r.store) == ScanAndCreateIndex(h, st)
    ensures r.cache.sheets == Some(r.sheets)
  {
    if c.sheets.Some? && IsIndexUpToDate(st, c) then Listing(c.sheets.value, c, st, CacheHit)
    else match LoadSheetsFromIndex(h, st)
      case Some(records) => Listing(records, Cache(Some(records), st.index.value.writeTime), st, IndexLoad)
      case None =>
        var p := ScanAndCreateIndex(h, st);
        Listing(p.0, Cache(Some(p.0), c.lastIndexUpdate), p.1, FullRescan)
  }

  /** SaveSheetDataAsync: writes the words, then UpdateSheetsIndexAsync
      rescans and rewrites the index, then the cached list is dropped; the
      recorded time stays. None when the database write throws. */
  function SaveSheetData(h: Host, st: Store, c: Cache, name: string, words: seq<Word>): (r: Option<(Store, Cache)>)
    ensures r.None? <==> WriteSheet(h, st, name, words).None?
    ensures r.Some? ==> r.value.1 == Cache(None, c.lastIndexUpdate)
    ensures r.Some? ==>
      GetWordsBySheetName(h, r.value.0, name) == words && SheetExists(h, r.value.0, name)
  {
    match WriteSheet(h, st, name, words)
    case None => None
    case Some(st1) =>
      var st2 := ScanAndCreateIndex(h, st1).1;
      Some((st2, Cache(None, c.lastIndexUpdate)))
  }

  /** What a save does to the store: the sheet's folder holds the words,
      every other folder is as it was, the sheet's name and any name that
      sanitizes to "" exist afterwards and nothing else newly exists, and
      the store stays well formed. */
  lemma SaveSheetDataEffects(h: Host, st: Store, c: Cache, name: string, words: seq<Word>)
    requires SaveSheetData(h, st, c, name, words).Some?
    ensures var st' := SaveSheetData(h, st, c, name, words).value.0;
      var f := SanitizeFileName(name, h.invalidFileNameChars);
      && DbAt(st', f) == Some(Rows(words))
      && (forall g :: g != f ==> DbAt(st', g) == DbAt(st, g))
      && (forall n :: SheetExists(h, st', n) <==>
            SheetExists(h, st, n) || SanitizeFileName(n, h.invalidFileNameChars) in {f, ""})
      && (WellFormed(st) ==> WellFormed(st'))
  {
  }

  /** HasAnySheetsAsync: whether the listing is non-empty. */
  function HasAnySheets(h: Host, st: Store, c: Cache): (r: (bool, Listing))
    ensures r.1 == GetAllSheets(h, st, c)
    ensures r.0 <==> r.1.sheets != []
  {
    var l := GetAllSheets(h, st, c);
    (|l.sheets| > 0, l)
  }

  /** The names of `names` that are not in `gone`, in order. */
  function Without(names: seq<string>, gone: set<string>): (r: seq<string>)
    ensures forall n :: n in r <==> n in names && n !in gone
    ensures NoDuplicates(names) ==> NoDuplicates(r)
  {
    if names == [] then []
    else
      var rest := Without(names[1..], gone);
      if names[0] in gone then rest
      else
        assert NoDuplicates(names) ==> names[0] !in names[1..];
        [names[0]] + rest
  }

  /** The deletions the environment refuses during DeleteAllSheets, each
      logged and swallowed by the source, and the one failure it rethrows.
      - listingFails: Directory.GetDirectories throws.
      - dirsKept: subdirectories whose Directory.Delete fails.
      - dbsKept: subdirectories whose words.db survives every File.Delete.
      - indexKept: the index file's File.Delete fails. */
  datatype DeleteFailures = DeleteFailures(
    listingFails: bool, dirsKept: set<string>, dbsKept: set<string>, indexKept: bool)

  /** The refusals of a run in which every deletion succeeds. */
  const NoFailures: DeleteFailures := DeleteFailures(false, {}, {}, false)

  /** DeleteAllSheets. Without WordTables it only clears the cache. Otherwise
      it lists the subdirectories (a failure there is rethrown before
      ClearCache: None); deletes each one's words.db and then the directory,
      a refused step leaving what it could not remove; deletes the index;
      and clears the cache. A words.db directly in WordTables is not a
      subdirectory and stays. */
  function DeleteAllSheets(st: Store, c: Cache, fail: DeleteFailures): (r: Option<(Store, Cache)>)
    ensures r.None? <==> st.tablesExist && fail.listingFails
    ensures r.Some? ==> r.value.1 == ClearCache(c)
    ensures !st.tablesExist ==> r == Some((st, ClearCache(c)))
    ensures r.Some? && st.tablesExist ==>
      && (forall n :: n in r.value.0.folders <==> n in st.folders && n in fail.dirsKept)
      && (forall n :: n in r.value.0.folders ==>
            r.value.0.folders[n] == if n in fail.dbsKept then st.folders[n] else None)
      && (fail.indexKept ==> r.value.0.index == st.index)
      && (!fail.indexKept ==> r.value.0.index.None?)
    ensures r.Some? ==> r.value.0.rootDb == st.rootDb && r.value.0.tablesExist == st.tablesExist
    ensures r.Some? && WellFormed(st) ==> WellFormed(r.value.0)
  {
    if !st.tablesExist then Some((st, ClearCache(c)))
    else if fail.listingFails then None
    else
      var gone := st.folders.Keys - fail.dirsKept;
      var folders := map n | n in st.folders && n in fail.dirsKept ::
        if n in fail.dbsKept then st.folders[n] else None;
      Some((st.(folders := folders,
                listing := Without(st.listing, gone),
                index := if fail.indexKept then st.index else None),
            ClearCache(c)))
  }

  // ---------------------------------------------------------------------
  // How the cache, the index and the rescan fit together

  /** After ClearCache the next listing never comes from the cache. */
  lemma ClearCacheForcesMiss(h: Host, st: Store, c: Cache)
    ensures GetAllSheets(h, st, ClearCache(c)).via != CacheHit
  {
  }

  /** A record's words.db that exists still exists after a save: saving
      only creates or overwrites. */
  lemma SaveKeepsDbFiles(h: Host, st: Store, name: string, words: seq<Word>, path: string)
    requires WriteSheet(h, st, name, words).Some?
    requires DbFileExists(h, st, path)
    ensures DbFileExists(h, WriteSheet(h, st, name, words).value, path)
  {
    var st1 := WriteSheet(h, st, name, words).value;
    if path != st.root {
      var n := path[|st.root| + 1..];
      assert DbAt(st, n).Some?;
    } else {
      assert DbAt(st, "").Some?;
    }
  }

  /** The index a rescan writes is one the next load accepts, with the
      same records. */
  lemma RescanThenLoad(h: Host, st: Store)
    requires WellFormed(st) && st.tablesExist && st.indexWritable
    ensures var p := ScanAndCreateIndex(h, st);
      LoadSheetsFromIndex(h, p.1) == Some(p.0)
  {
    var p := ScanAndCreateIndex(h, st);
    RescanValidates(h, st);
    assert forall path :: DbFileExists(h, st, path) == DbFileExists(h, p.1, path);
  }

  /** Asking twice in a row gives the same list, whichever branch answered
      the first time. */
  lemma ListingStable(h: Host, st: Store, c: Cache)
    requires WellFormed(st)
    ensures var r1 := GetAllSheets(h, st, c);
      GetAllSheets(h, r1.store, r1.cache).sheets == r1.sheets
  {
    var r1 := GetAllSheets(h, st, c);
    if r1.via == FullRescan && st.tablesExist && st.indexWritable {
      RescanThenLoad(h, st);
    }
  }

  /** Saving a sheet and then listing: when the index can be written and
      the name does not sanitize to "", the listing comes from the freshly
      written index and holds the sheet's record exactly once, with its
      display name, word count and folder. */
  lemma SaveThenList(h: Host, st: Store, c: Cache, name: string, words: seq<Word>)
    requires WellFormed(st) && st.indexWritable
    requires SanitizeFileName(name, h.invalidFileNameChars) != ""
    requires SaveSheetData(h, st, c, name, words).Some?
    ensures var f := SanitizeFileName(name, h.invalidFileNameChars);
      var s := SaveSheetData(h, st, c, name, words).value;
      var r := GetAllSheets(h, s.0, s.1);
      && r.via == IndexLoad
      && multiset(r.sheets)[SheetInfo(DisplayName(f), |words|, Combine(h, st.root, f))] == 1
  {
    var f := SanitizeFileName(name, h.invalidFileNameChars);
    var st1 := WriteSheet(h, st, name, words).value;
    var p := ScanAndCreateIndex(h, st1);
    assert DbAt(st1, f) == Some(Rows(words));
    assert Readable(st1, f);
    RescanRecords(h, st1);
    RescanThenLoad(h, st1);
  }

  /** When the index write fails after a save, the old index stays, still
      validates, and the next listing returns its records: a sheet saved
      into a new folder does not appear. */
  lemma SaveWithUnwritableIndexIsStale(h: Host, st: Store, c: Cache, name: string, words: seq<Word>)
    requires !st.indexWritable
    requires st.index.Some? && st.index.value.content.Json?
    requires IndexValid(h, st, st.index.value.content.records)
    requires SaveSheetData(h, st, c, name, words).Some?
    ensures var s := SaveSheetData(h, st, c, name, words).value;
      GetAllSheets(h, s.0, s.1).sheets == st.index.value.content.records
  {
    var records := st.index.value.content.records;
    var st1 := WriteSheet(h, st, name, words).value;
    forall i | 0 <= i < |records| ensures DbFileExists(h, st1, records[i].folderPath) {
      SaveKeepsDbFiles(h, st, name, words, records[i].folderPath);
    }
  }

  /** A service with no cached list over a WordTables that holds no index
      and no readable sheet folder has no sheets. */
  lemma NoSheetsWhenEmpty(h: Host, st: Store, c: Cache)
    requires WellFormed(st) && c.sheets.None? && st.index.None?
    requires forall n :: n in st.folders ==> !Readable(st, n)
    ensures !HasAnySheets(h, st, c).0
  {
    NoneReadable(st, st.listing);
  }

  /** After a save that can write its index, HasAnySheetsAsync is true. */
  lemma HasSheetsAfterSave(h: Host, st: Store, c: Cache, name: string, words: seq<Word>)
    requires WellFormed(st) && st.indexWritable
    requires SanitizeFileName(name, h.invalidFileNameChars) != ""
    requires SaveSheetData(h, st, c, name, words).Some?
    ensures var s := SaveSheetData(h, st, c, name, words).value;
      HasAnySheets(h, s.0, s.1).0
  {
    SaveThenList(h, st, c, name, words);
  }

  /** Deleting everything, when nothing is refused, leaves no sheets. */
  lemma DeleteAllLeavesNone(h: Host, st: Store, c: Cache)
    requires WellFormed(st)
    ensures DeleteAllSheets(st, c, NoFailures).Some?
    ensures var d := DeleteAllSheets(st, c, NoFailures).value;
      !HasAnySheets(h, d.0, d.1).0
  {
    var d := DeleteAllSheets(st, c, NoFailures).value;
    NoSheetsWhenEmpty(h, d.0, d.1);
  }

  /** A folder whose directory survives but whose words.db was deleted
      still exists as a sheet, and reads as no words. */
  lemma DeleteLeavesEmptyFolder(h: Host, st: Store, c: Cache, fail: DeleteFailures, name: string)
    requires st.tablesExist && !fail.listingFails
    requires var f := SanitizeFileName(name, h.invalidFileNameChars);
      f != "" && f in st.folders && f in fail.dirsKept && f !in fail.dbsKept
    ensures var d := DeleteAllSheets(st, c, fail).value;
      SheetExists(h, d.0, name) && GetWordsBySheetName(h, d.0, name) == []
  {
  }

  /** When listing the subdirectories throws, nothing is deleted and the
      cache is not cleared: the exception leaves the service as it was. */
  lemma DeleteRethrowKeepsCache(h: Host, st: Store, c: Cache, fail: DeleteFailures)
    requires st.tablesExist && fail.listingFails && c.sheets.Some?
    requires IsIndexUpToDate(st, c)
    ensures DeleteAllSheets(st, c, fail).None?
    ensures GetAllSheets(h, st, c).via == CacheHit
  {
  }
}
