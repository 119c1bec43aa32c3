/** The sheet store of DatabaseService.cs: under the WordTables directory,
    one folder per sheet named by the sanitized sheet name, each holding a
    words.db of word rows, and the index file sheets_index.json listing the
    sheets. This module covers what the service writes and reads there; the
    cache in front of it is the IndexCache module. */
module SheetStore {
  import opened Options
  import opened Platform
  import opened Models
  import opened FileNames
  import opened SheetOrder

  /** A words.db file: its rows in insertion order, or a file that throws
      when it is opened or queried. */
  datatype Database = Rows(words: seq<Word>) | Unreadable

  /** What sheets_index.json deserializes to: a list of records, or nothing
      usable (text that is not such a list, or the JSON literal null). */
  datatype IndexContent = Json(records: seq<SheetInfo>) | Garbled

  datatype IndexFile = IndexFile(content: IndexContent, writeTime: nat)

  /** The part of the file system the service touches.
      - root: the path of the WordTables directory; tablesExist: whether it
        exists.
      - rootDb: a words.db directly inside WordTables, which is where a
        sheet whose name sanitizes to "" is written.
      - folders: every subdirectory of WordTables with its words.db, if any.
      - listing: the order Directory.GetDirectories returns the folders in.
        .NET does not promise an order (NTFS happens to give name order), so
        it is a field of the store rather than a rule. It matters: records
        the comparer calls equal keep their listing order in the stable sort.
      - index: sheets_index.json, if present, with its last write time.
      - clock: the write time the next index write records.
      - indexWritable: whether writing the index succeeds. */
  datatype Store = Store(
    root: string,
    tablesExist: bool,
    rootDb: Option<Database>,
    folders: map<string, Option<Database>>,
    listing: seq<string>,
    index: Option<IndexFile>,
    clock: nat,
    indexWritable: bool)

  predicate NoDuplicates<T(==)>(s: seq<T>) {
    forall i, j :: 0 <= i < j < |s| ==> s[i] != s[j]
  }

  /** What every reachable store satisfies: folder names are non-empty, the
      listing holds each folder once, the index was written before the
      clock's current time, and without WordTables there is nothing in it. */
  predicate WellFormed(st: Store) {
    && (forall n :: n in st.folders ==> n != "")
    && NoDuplicates(st.listing)
    && (forall n :: n in st.listing ==> n in st.folders)
    && (forall n :: n in st.folders ==> n in st.listing)
    && (st.index.Some? ==> st.index.value.writeTime < st.clock)
    && (!st.tablesExist ==> st.folders == map[] && st.rootDb.None? && st.index.None?)
  }

  /** The words.db that Path.Combine(WordTables, folder, "words.db") names:
      an empty folder name leaves the path at WordTables itself. */
  function DbAt(st: Store, folder: string): Option<Database> {
    if folder == "" then st.rootDb
    else if folder in st.folders then st.folders[folder]
    else None
  }

  /** File.Exists(Path.Combine(path, "words.db")) for a folder path taken
      from a record: only paths inside WordTables are known to the model. */
  predicate DbFileExists(h: Host, st: Store, path: string) {
    if path == st.root then st.rootDb.Some?
    else
      && |path| > |st.root| + 1
      && path[..|st.root|] == st.root
      && path[|st.root|] == h.separator
      && var n := path[|st.root| + 1..];
         n in st.folders && st.folders[n].Some?
  }

  /** The folder path of a subdirectory has a words.db exactly when the
      subdirectory holds one. */
  lemma DbFileExistsAt(h: Host, st: Store, n: string)
    requires n != ""
    ensures DbFileExists(h, st, Combine(h, st.root, n)) <==> n in st.folders && st.folders[n].Some?
  {
    var p := Combine(h, st.root, n);
    assert p[|st.root| + 1..] == n;
  }

  /** Creates the folder when missing (Directory.CreateDirectory) and gives
      its words.db the contents `db`. A new folder is listed last; that is
      one of the orders the file system may use, not the only one. */
  function Put(st: Store, folder: string, db: Database): (r: Store)
    ensures r.tablesExist
    ensures DbAt(r, folder) == Some(db)
    ensures forall g :: g != folder ==> DbAt(r, g) == DbAt(st, g)
    ensures r.root == st.root && r.index == st.index && r.clock == st.clock
    ensures r.indexWritable == st.indexWritable
    ensures WellFormed(st) ==> WellFormed(r)
  {
    if folder == "" then st.(tablesExist := true, rootDb := Some(db))
    else
      st.(tablesExist := true,
          folders := st.folders[folder := Some(db)],
          listing := if folder in st.folders then st.listing else st.listing + [folder])
  }

  /** The database half of SaveSheetDataAsync: the folder named by the
      sanitized sheet name gets a words.db holding exactly `words`, the rows
      it held before removed. None when the words.db there cannot be opened:
      the exception escapes to the caller and nothing has changed. */
  function WriteSheet(h: Host, st: Store, name: string, words: seq<Word>): (r: Option<Store>)
    ensures var f := SanitizeFileName(name, h.invalidFileNameChars);
      && (r.None? <==> DbAt(st, f) == Some(Unreadable))
      && (r.Some? ==> DbAt(r.value, f) == Some(Rows(words)))
      && (r.Some? ==> forall g :: g != f ==> DbAt(r.value, g) == DbAt(st, g))
    ensures r.Some? ==> r.value.tablesExist && r.value.index == st.index && r.value.clock == st.clock
    ensures r.Some? ==> r.value.root == st.root && r.value.indexWritable == st.indexWritable
    ensures r.Some? && WellFormed(st) ==> WellFormed(r.value)
  {
    var f := SanitizeFileName(name, h.invalidFileNameChars);
    if DbAt(st, f) == Some(Unreadable) then None
    else Some(Put(st, f, Rows(words)))
  }

  /** SheetExists: whether the sanitized sheet folder exists. A name that
      sanitizes to "" names WordTables itself. */
  function SheetExists(h: Host, st: Store, name: string): (r: bool)
    ensures var f := SanitizeFileName(name, h.invalidFileNameChars);
      && (f == "" ==> (r <==> st.tablesExist))
      && (f != "" ==> (r <==> f in st.folders))
  {
    var f := SanitizeFileName(name, h.invalidFileNameChars);
    if f == "" then st.tablesExist else f in st.folders
  }

  /** GetWordsBySheetName: the rows of the sanitized sheet folder's words.db,
      or the empty list when that file is missing or throws. */
  function GetWordsBySheetName(h: Host, st: Store, name: string): (r: seq<Word>)
    ensures var db := DbAt(st, SanitizeFileName(name, h.invalidFileNameChars));
      && (db.Some? && db.value.Rows? ==> r == db.value.words)
      && (db.None? || db.value.Unreadable? ==> r == [])
  {
    match DbAt(st, SanitizeFileName(name, h.invalidFileNameChars))
    case Some(Rows(ws)) => ws
    case _ => []
  }

  // ---------------------------------------------------------------------
  // The rescan

  /** A subdirectory whose words.db exists and can be counted. */
  predicate Readable(st: Store, n: string) {
    n in st.folders && st.folders[n].Some? && st.folders[n].value.Rows?
  }

  /** The names of `names`, in order, whose folder the rescan keeps. */
  function ReadableFolders(st: Store, names: seq<string>): (r: seq<string>)
    ensures |r| <= |names|
    ensures forall n :: n in r <==> n in names && Readable(st, n)
    ensures NoDuplicates(names) ==> NoDuplicates(r)
  {
    if names == [] then []
    else
      var rest := ReadableFolders(st, names[1..]);
      if Readable(st, names[0]) then
        assert NoDuplicates(names) ==> names[0] !in names[1..];
        [names[0]] + rest
      else rest
  }

  /** No readable name, no folder kept. */
  lemma {:induction false} NoneReadable(st: Store, names: seq<string>)
    requires forall k :: 0 <= k < |names| ==> !Readable(st, names[k])
    ensures ReadableFolders(st, names) == []
  {
    if names != [] {
      NoneReadable(st, names[1..]);
    }
  }

  /** The record the rescan builds for one folder: the display name, the
      row count, the folder path. */
  function Record(h: Host, st: Store, n: string): (r: SheetInfo)
    requires Readable(st, n)
    ensures '_' !in r.name && |r.name| == |n|
    ensures r.wordCount == |st.folders[n].value.words|
  {
    SheetInfo(DisplayName(n), |st.folders[n].value.words|, Combine(h, st.root, n))
  }

  /** The records of the loop in ScanAndCreateIndexAsync, in directory order:
      one per subdirectory whose words.db opens, the others skipped. */
  function Scan(h: Host, st: Store): (r: seq<SheetInfo>)
    ensures var ns := ReadableFolders(st, st.listing);
      |r| == |ns| && forall i :: 0 <= i < |r| ==> Readable(st, ns[i]) && r[i] == Record(h, st, ns[i])
  {
    var ns := ReadableFolders(st, st.listing);
    seq(|ns|, i requires 0 <= i < |ns| => Record(h, st, ns[i]))
  }

  /** SaveSheetsIndexAsync: writes the records and stamps the file with the
      current time; a failed write is swallowed and leaves the store as it
      was. */
  function WriteIndex(st: Store, records: seq<SheetInfo>): (r: Store)
    ensures st.indexWritable ==> r.index == Some(IndexFile(Json(records), st.clock))
    ensures !st.indexWritable ==> r == st
    ensures r.folders == st.folders && r.listing == st.listing && r.rootDb == st.rootDb
    ensures r.root == st.root && r.tablesExist == st.tablesExist && r.indexWritable == st.indexWritable
    ensures WellFormed(st) && st.tablesExist ==> WellFormed(r)
  {
    if st.indexWritable then st.(index := Some(IndexFile(Json(records), st.clock)), clock := st.clock + 1)
    else st
  }

  /** ScanAndCreateIndexAsync: nothing when WordTables is missing; otherwise
      the scanned records sorted by SheetNameComparer, also written to the
      index. */
  function ScanAndCreateIndex(h: Host, st: Store): (r: (seq<SheetInfo>, Store))
    ensures !st.tablesExist ==> r == ([], st)
    ensures st.tablesExist ==> multiset(r.0) == multiset(Scan(h, st)) && AdjacentOrdered(h, r.0)
    ensures st.tablesExist ==> r.1 == WriteIndex(st, r.0)
  {
    if !st.tablesExist then ([], st)
    else
      var sorted := SortByName(h, Scan(h, st));
      SortByNameOrdered(h, Scan(h, st));
      (sorted, WriteIndex(st, sorted))
  }

  // ---------------------------------------------------------------------
  // What the rescan promises

  /** Every rescanned record belongs to one subdirectory whose words.db
      opens: its name is the folder name with '_' turned into spaces, its
      count the number of rows, its path the folder's; every such
      subdirectory has exactly one record. */
  lemma RescanRecords(h: Host, st: Store)
    requires WellFormed(st) && st.tablesExist
    ensures var recs := ScanAndCreateIndex(h, st).0;
      && (forall i :: 0 <= i < |recs| ==>
            exists n :: Readable(st, n) && recs[i] == Record(h, st, n))
      && (forall n :: Readable(st, n) ==> multiset(recs)[Record(h, st, n)] == 1)
  {
    RescanRecordsFromFolders(h, st);
    RescanRecordsOnce(h, st);
  }

  /** Each rescanned record is the record of a readable folder. */
  lemma RescanRecordsFromFolders(h: Host, st: Store)
    requires st.tablesExist
    ensures var recs := ScanAndCreateIndex(h, st).0;
      forall i :: 0 <= i < |recs| ==> exists n :: Readable(st, n) && recs[i] == Record(h, st, n)
  {
    var recs := ScanAndCreateIndex(h, st).0;
    var ns := ReadableFolders(st, st.listing);
    var sc := Scan(h, st);
    forall i | 0 <= i < |recs|
      ensures exists n :: Readable(st, n) && recs[i] == Record(h, st, n)
    {
      var j := IndexInPermutation(recs, sc, i);
      assert Readable(st, ns[j]) && recs[i] == Record(h, st, ns[j]);
    }
  }

  /** Each readable folder has one rescanned record. */
  lemma RescanRecordsOnce(h: Host, st: Store)
    requires WellFormed(st) && st.tablesExist
    ensures var recs := ScanAndCreateIndex(h, st).0;
      forall n :: Readable(st, n) ==> multiset(recs)[Record(h, st, n)] == 1
  {
    var ns := ReadableFolders(st, st.listing);
    forall n | Readable(st, n) ensures multiset(ScanAndCreateIndex(h, st).0)[Record(h, st, n)] == 1 {
      assert n in ns;
      var j :| 0 <= j < |ns| && ns[j] == n;
      ScanCountsOnce(h, st, ns, j);
    }
  }

  /** Where an element of a permutation sits in the other sequence. */
  lemma IndexInPermutation<T>(a: seq<T>, b: seq<T>, i: nat) returns (j: nat)
    requires multiset(a) == multiset(b) && i < |a|
    ensures j < |b| && b[j] == a[i]
  {
    assert a[i] in multiset(b);
    j :| 0 <= j < |b| && b[j] == a[i];
  }

  /** A folder that appears once among the readable names gives a record
      that appears once among the scanned ones: records of distinct folders
      differ in their path. */
  lemma ScanCountsOnce(h: Host, st: Store, ns: seq<string>, j: nat)
    requires WellFormed(st) && ns == ReadableFolders(st, st.listing)
    requires j < |ns|
    ensures multiset(Scan(h, st))[Record(h, st, ns[j])] == 1
  {
    var sc := Scan(h, st);
    assert NoDuplicates(ns);
    forall i | 0 <= i < |sc| && i != j ensures sc[i] != sc[j] {
      assert sc[i].folderPath[|st.root| + 1..] == ns[i];
    }
    OccursOnce(sc, j);
  }

  /** An element no other position repeats occurs once in the multiset. */
  lemma OccursOnce<T>(s: seq<T>, j: nat)
    requires j < |s|
    requires forall i :: 0 <= i < |s| && i != j ==> s[i] != s[j]
    ensures multiset(s)[s[j]] == 1
  {
    var x := s[j];
    assert s == s[..j] + [x] + s[j + 1..];
    assert x !in s[..j];
    assert x !in s[j + 1..];
  }

  /** Every record the rescan writes passes ValidateIndexAsync. */
  lemma RescanValidates(h: Host, st: Store)
    requires WellFormed(st) && st.tablesExist
    ensures var recs := ScanAndCreateIndex(h, st).0;
      forall i :: 0 <= i < |recs| ==> DbFileExists(h, st, recs[i].folderPath)
  {
    var recs := ScanAndCreateIndex(h, st).0;
    RescanRecords(h, st);
    forall i | 0 <= i < |recs| ensures DbFileExists(h, st, recs[i].folderPath) {
      var n :| Readable(st, n) && recs[i] == Record(h, st, n);
      DbFileExistsAt(h, st, n);
    }
  }

  // ---------------------------------------------------------------------
  // Save, exists, read

  /** After a successful save, every name that sanitizes to the same folder
      reads back exactly the saved words, and the sheet exists. */
  lemma SaveThenRead(h: Host, st: Store, name: string, words: seq<Word>, other: string)
    requires WriteSheet(h, st, name, words).Some?
    requires SanitizeFileName(other, h.invalidFileNameChars) == SanitizeFileName(name, h.invalidFileNameChars)
    ensures var st' := WriteSheet(h, st, name, words).value;
      && GetWordsBySheetName(h, st', other) == words
      && SheetExists(h, st', other)
  {
  }

  /** A save leaves every other folder's words as they were. */
  lemma SaveLeavesOthers(h: Host, st: Store, name: string, words: seq<Word>, other: string)
    requires WriteSheet(h, st, name, words).Some?
    requires SanitizeFileName(other, h.invalidFileNameChars) != SanitizeFileName(name, h.invalidFileNameChars)
    ensures GetWordsBySheetName(h, WriteSheet(h, st, name, words).value, other) == GetWordsBySheetName(h, st, other)
  {
  }

  /** Two names that differ only in which invalid character they hold land
      in the same folder: the second save replaces the first one's words. */
  lemma SaveOverwritesCollision(h: Host, st: Store, a: string, x: char, y: char, b: string,
                                first: seq<Word>, second: seq<Word>)
    requires x in h.invalidFileNameChars && y in h.invalidFileNameChars
    requires WriteSheet(h, st, a + [x] + b, first).Some?
    ensures var st1 := WriteSheet(h, st, a + [x] + b, first).value;
      && WriteSheet(h, st1, a + [y] + b, second).Some?
      && GetWordsBySheetName(h, WriteSheet(h, st1, a + [y] + b, second).value, a + [x] + b) == second
  {
    SanitizeCollision(a, x, y, b, h.invalidFileNameChars);
  }

  /** A rescanned record looked up again by its display name reaches its
      own folder when the folder name has no '_'; when it has one, the
      display name sanitizes to a different folder. */
  lemma ScannedSheetLookup(h: Host, st: Store, n: string)
    requires Readable(st, n) && n != ""
    requires NoneIn(n, h.invalidFileNameChars) && |n| <= MaxFolderNameLength
    requires ' ' !in h.invalidFileNameChars
    ensures '_' !in n ==> GetWordsBySheetName(h, st, Record(h, st, n).name) == st.folders[n].value.words
    ensures '_' in n ==> SanitizeFileName(Record(h, st, n).name, h.invalidFileNameChars) != n
  {
    DisplayNameLookup(n, h.invalidFileNameChars);
  }
}
