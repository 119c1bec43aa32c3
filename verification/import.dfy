/** The import flow of MainViewModel.cs: the file-type check on the picked
    file, and ProcessExcelFileAsync, which saves every non-empty worksheet
    and then shows the first one. */
module Import {
  import opened Options
  import opened Platform
  import opened Models
  import opened FileNames
  import opened SheetStore
  import opened IndexCache
  import opened Excel
  import opened Dictation

  // ---------------------------------------------------------------------
  // The file-type check

  /** The two accepted extensions, lower case. */
  const WorkbookExtension: string := ".xlsx"
  const MacroWorkbookExtension: string := ".xlsm"

  /** Path.GetExtension(name)?.ToLowerInvariant() is ".xlsx" or ".xlsm". */
  function IsExcelFileName(h: Host, name: string): (r: bool)
    ensures r ==> |name| >= 5 && name[|name| - 5] == '.'
  {
    var ext := Lower(h, GetExtension(h, name));
    ext == WorkbookExtension || ext == MacroWorkbookExtension
  }

  /** An accepted name ends with '.' and four characters free of dots and
      separators, which lower-case to "xlsx" or "xlsm". */
  lemma AcceptedNameShape(h: Host, name: string)
    requires IsExcelFileName(h, name)
    ensures |name| >= 5 && name[|name| - 5] == '.'
    ensures forall k :: |name| - 4 <= k < |name| ==> name[k] != '.' && name[k] !in h.directorySeparators
    ensures Lower(h, name[|name| - 5..]) in {WorkbookExtension, MacroWorkbookExtension}
  {
    var ext := GetExtension(h, name);
    assert |Lower(h, ext)| == 5;
    assert ext == name[|name| - 5..];
    assert forall k :: |name| - 4 <= k < |name| ==> name[k] == ext[k - (|name| - 5)];
  }

  /** Conversely, any name so shaped is accepted, whatever comes before the
      last dot. */
  lemma ShapedNameAccepted(h: Host, stem: string, tail: string)
    requires tail != []
    requires forall k :: 0 <= k < |tail| ==> tail[k] != '.' && tail[k] !in h.directorySeparators
    requires Lower(h, ['.'] + tail) in {WorkbookExtension, MacroWorkbookExtension}
    ensures IsExcelFileName(h, stem + ['.'] + tail)
  {
    GetExtensionOfSuffix(h, stem, tail);
  }

  /** The check ignores case. */
  lemma UpperCaseAccepted()
    ensures IsExcelFileName(SampleHost, "Book1.XLSM")
  {
    TailAccepted("XLSM", MacroWorkbookExtension);
    ShapedNameAccepted(SampleHost, "Book1", "XLSM");
    assert "Book1" + ['.'] + "XLSM" == "Book1.XLSM";
  }

  /** Only the last dot counts: an earlier one is part of the stem. */
  lemma DottedStemAccepted()
    ensures IsExcelFileName(SampleHost, "n5.words.xlsx")
  {
    TailAccepted("xlsx", WorkbookExtension);
    ShapedNameAccepted(SampleHost, "n5.words", "xlsx");
    assert "n5.words" + ['.'] + "xlsx" == "n5.words.xlsx";
  }

  /** The tails "XLSM" and "xlsx" hold no dot or separator on the sample
      host and lower-case to an accepted extension. */
  lemma TailAccepted(tail: string, ext: string)
    requires (tail, ext) in {("XLSM", MacroWorkbookExtension), ("xlsx", WorkbookExtension)}
    ensures forall k :: 0 <= k < |tail| ==> tail[k] != '.' && tail[k] !in SampleHost.directorySeparators
    ensures Lower(SampleHost, ['.'] + tail) in {WorkbookExtension, MacroWorkbookExtension}
  {
    var low := Lower(SampleHost, ['.'] + tail);
    assert low[0] == '.' && low[1] == ext[1] && low[2] == ext[2] && low[3] == ext[3] && low[4] == ext[4];
    assert low == ext;
  }

  /** A workbook name with a further extension is refused. */
  lemma BackupRefused()
    ensures !IsExcelFileName(SampleHost, "words.xlsx.bak")
  {
    GetExtensionOfSuffix(SampleHost, "words.xlsx", "bak");
    assert "words.xlsx" + ['.'] + "bak" == "words.xlsx.bak";
    assert |Lower(SampleHost, ".bak")| == 4;
  }

  /** A name without a dot has no extension and is refused. */
  lemma BareNameRefused()
    ensures !IsExcelFileName(SampleHost, "xlsx")
  {
    assert GetExtension(SampleHost, "xlsx") == "";
  }

  // ---------------------------------------------------------------------
  // The tally

  /** The number of worksheets with at least one word. */
  function NonEmptyCount(sheets: seq<SheetData>): (r: nat)
    ensures r <= |sheets|
    ensures r == 0 <==> forall k :: 0 <= k < |sheets| ==> sheets[k].words == []
  {
    if sheets == [] then 0
    else NonEmptyCount(sheets[..|sheets| - 1]) + (if sheets[|sheets| - 1].words != [] then 1 else 0)
  }

  /** The number of words over all worksheets. */
  function WordTotal(sheets: seq<SheetData>): nat {
    if sheets == [] then 0
    else WordTotal(sheets[..|sheets| - 1]) + |sheets[|sheets| - 1].words|
  }

  /** Every worksheet with words is saved, even one with the sanitized name of
      another; empty worksheets are skipped. */
  predicate Saved(sheets: seq<SheetData>, k: int) {
    0 <= k < |sheets| && sheets[k].words != []
  }

  /** Sheet k's save is the last to its folder among the first `upTo`. */
  predicate LastSaveTo(h: Host, sheets: seq<SheetData>, k: int, upTo: int)
    requires 0 <= upTo <= |sheets|
  {
    && Saved(sheets, k) && k < upTo
    && forall j :: k < j < upTo && Saved(sheets, j) ==>
         SanitizeFileName(sheets[j].sheetName, h.invalidFileNameChars)
         != SanitizeFileName(sheets[k].sheetName, h.invalidFileNameChars)
  }

  /** Every saved worksheet lands in a new folder: none exists yet, none
      names WordTables itself, and no two share a folder. */
  ghost predicate AllNew(h: Host, st: Store, sheets: seq<SheetData>) {
    && (forall k :: Saved(sheets, k) ==>
          !SheetExists(h, st, sheets[k].sheetName)
          && SanitizeFileName(sheets[k].sheetName, h.invalidFileNameChars) != "")
    && (forall k, j :: Saved(sheets, k) && Saved(sheets, j) && k < j ==>
          SanitizeFileName(sheets[k].sheetName, h.invalidFileNameChars)
          != SanitizeFileName(sheets[j].sheetName, h.invalidFileNameChars))
  }

  /** Every saved worksheet's folder exists already. */
  ghost predicate AllExisting(h: Host, st: Store, sheets: seq<SheetData>) {
    forall k :: Saved(sheets, k) ==> SheetExists(h, st, sheets[k].sheetName)
  }

  /** What an import ends with. `Failed` carries the position of the
      worksheet whose save threw; the sheets before it stay saved. */
  datatype Outcome =
    | NoSheets
    | Imported(overridden: nat, created: nat, totalWords: nat)
    | Failed(at: nat)

  /** The screen after an import: the first worksheet's words, from its
      first word. The completion flag, the part-of-speech visibility and the
      translation colour are left as they were. */
  function AfterImport(s: Session, words: seq<Word>): (r: Session)
    requires Valid(s)
    ensures Valid(r)
    ensures r.words == words && r.totalCount == |words| && r.currentIndex == 0
    ensures r.pageDisplay == PageText(0, |words|) && r.hasImportedData
    ensures words != [] ==>
      r.chineseTranslation == words[0].chinese && r.wordType == WordTypeText(words[0].partOfSpeech)
    ensures words == [] ==> r.chineseTranslation == s.chineseTranslation && r.wordType == s.wordType
    ensures r.isDictationCompleted == s.isDictationCompleted && r.isWordTypeVisible == s.isWordTypeVisible
    ensures r.isPlaying == s.isPlaying && r.mark == s.mark && r.japaneseInput == s.japaneseInput
  {
    var shown :=
      if words != [] then s.(chineseTranslation := words[0].chinese, wordType := WordTypeText(words[0].partOfSpeech))
      else s;
    shown.(words := words, hasImportedData := true, totalCount := |words|, currentIndex := 0,
           studyIndex := -1, pageDisplay := PageText(0, |words|))
  }

  /** Where the saving loop stands: the store and cache after the saves so
      far, the two counters, and the position of the save that threw, if
      one did. */
  datatype Progress = Progress(store: Store, cache: Cache, overridden: nat, created: nat, failedAt: Option<nat>)

  /** The saving loop of ProcessExcelFileAsync over a list of worksheets, as
      a fold from the left: an empty worksheet is skipped; a non-empty one is
      counted as overridden when SheetExists held just before its save and as
      created otherwise; the first save that throws stops the loop. */
  function SaveAll(h: Host, st: Store, c: Cache, sheets: seq<SheetData>): Progress
    decreases |sheets|
  {
    if sheets == [] then Progress(st, c, 0, 0, None)
    else
      var i := |sheets| - 1;
      SaveStep(h, SaveAll(h, st, c, sheets[..i]), i, sheets[i])
  }

  /** One turn of the saving loop: the worksheet at index `i` against the
      progress so far. */
  function SaveStep(h: Host, p: Progress, i: nat, sheet: SheetData): Progress {
    if p.failedAt.Some? || sheet.words == [] then p
    else
      var existed := SheetExists(h, p.store, sheet.sheetName);
      match SaveSheetData(h, p.store, p.cache, sheet.sheetName, sheet.words)
      case None => p.(failedAt := Some(i))
      case Some(saved) =>
        Progress(saved.0, saved.1,
                 p.overridden + (if existed then 1 else 0),
                 p.created + (if existed then 0 else 1), None)
  }

  /** The fold over one more worksheet is one more turn of the loop. */
  lemma SaveAllSnoc(h: Host, st: Store, c: Cache, sheets: seq<SheetData>, i: nat)
    requires i < |sheets|
    ensures SaveAll(h, st, c, sheets[..i + 1]) == SaveStep(h, SaveAll(h, st, c, sheets[..i]), i, sheets[i])
  {
    assert sheets[..i + 1][..i] == sheets[..i];
  }

  /** ProcessExcelFileAsync once the workbook is read: saves each
      non-empty worksheet under its name, counting those whose folder
      existed before the save, then shows the first worksheet. A save that
      throws ends the import with the screen as it was. */
  method ProcessExcelFile(h: Host, st: Store, c: Cache, s: Session, sheets: seq<SheetData>)
    returns (outcome: Outcome, st': Store, c': Cache, s': Session)
    requires Valid(s)
    ensures Valid(s')
    ensures outcome.NoSheets? <==> sheets == []
    ensures outcome.NoSheets? ==> st' == st && c' == c && s' == s
    ensures outcome.Failed? ==>
      s' == s && SaveAll(h, st, c, sheets).failedAt == Some(outcome.at)
      && st' == SaveAll(h, st, c, sheets).store && c' == SaveAll(h, st, c, sheets).cache
    ensures outcome.Failed? ==>
      && Saved(sheets, outcome.at)
      && DbAt(st, SanitizeFileName(sheets[outcome.at].sheetName, h.invalidFileNameChars)) == Some(Unreadable)
    ensures outcome.Imported? ==>
      && SaveAll(h, st, c, sheets) == Progress(st', c', outcome.overridden, outcome.created, None)
      && outcome.totalWords == WordTotal(sheets)
      && s' == AfterImport(s, sheets[0].words)
    ensures outcome.Imported? ==>
      && outcome.overridden + outcome.created == NonEmptyCount(sheets)
      && (forall k :: Saved(sheets, k) ==> SheetExists(h, st', sheets[k].sheetName))
      && (forall k :: LastSaveTo(h, sheets, k, |sheets|) ==>
            GetWordsBySheetName(h, st', sheets[k].sheetName) == sheets[k].words)
  {
    if sheets == [] {
      return NoSheets, st, c, s;
    }
    var p, totalWords := SaveSheets(h, st, c, sheets);
    SaveAllFailure(h, st, c, sheets);
    SaveAllTally(h, st, c, sheets);
    SaveAllCreates(h, st, c, sheets);
    SaveAllReadBack(h, st, c, sheets);
    if p.failedAt.Some? {
      return Failed(p.failedAt.value), p.store, p.cache, s;
    }
    s' := AfterImport(s, sheets[0].words);
    outcome, st', c' := Imported(p.overridden, p.created, totalWords), p.store, p.cache;
  }

  /** The foreach loop of ProcessExcelFileAsync: the saves, the two
      counters and the word total. */
  method SaveSheets(h: Host, st: Store, c: Cache, sheets: seq<SheetData>) returns (p: Progress, totalWords: nat)
    ensures p == SaveAll(h, st, c, sheets)
    ensures p.failedAt.None? ==> totalWords == WordTotal(sheets)
  {
    var cur, cache := st, c;
    var overridden, created := 0, 0;
    totalWords := 0;
    for i := 0 to |sheets|
      invariant SaveAll(h, st, c, sheets[..i]) == Progress(cur, cache, overridden, created, None)
      invariant totalWords == WordTotal(sheets[..i])
    {
      var sheet := sheets[i];
      SaveAllSnoc(h, st, c, sheets, i);
      assert WordTotal(sheets[..i + 1]) == WordTotal(sheets[..i]) + |sheet.words| by {
        assert sheets[..i + 1][..i] == sheets[..i];
      }
      if sheet.words != [] {
        var existed := SheetExists(h, cur, sheet.sheetName);
        totalWords := totalWords + |sheet.words|;
        var saved := SaveSheetData(h, cur, cache, sheet.sheetName, sheet.words);
        if saved.None? {
          SaveAllStopsAtFailure(h, st, c, sheets, i + 1);
          return Progress(cur, cache, overridden, created, Some(i)), totalWords;
        }
        if existed { overridden := overridden + 1; } else { created := created + 1; }
        cur, cache := saved.value.0, saved.value.1;
      }
    }
    assert sheets[..|sheets|] == sheets;
    p := Progress(cur, cache, overridden, created, None);
  }

  /** Once a save has thrown, the later worksheets change nothing. */
  lemma {:induction false} SaveAllStopsAtFailure(h: Host, st: Store, c: Cache, sheets: seq<SheetData>, i: nat)
    requires i <= |sheets|
    requires SaveAll(h, st, c, sheets[..i]).failedAt.Some?
    ensures SaveAll(h, st, c, sheets) == SaveAll(h, st, c, sheets[..i])
    decreases |sheets| - i
  {
    if i < |sheets| {
      assert sheets[..i + 1][..i] == sheets[..i];
      SaveAllStopsAtFailure(h, st, c, sheets, i + 1);
    } else {
      assert sheets[..i] == sheets;
    }
  }

  // ---------------------------------------------------------------------
  // What an import promises

  /** The effects of the save that the last worksheet triggers, if any. */
  lemma LastSaveEffects(h: Host, st: Store, c: Cache, sheets: seq<SheetData>)
    requires sheets != []
    ensures var i := |sheets| - 1;
      var p := SaveAll(h, st, c, sheets[..i]);
      p.failedAt.None? && sheets[i].words != [] ==>
        match SaveSheetData(h, p.store, p.cache, sheets[i].sheetName, sheets[i].words)
        case None => true
        case Some(saved) =>
          var f := SanitizeFileName(sheets[i].sheetName, h.invalidFileNameChars);
          && DbAt(saved.0, f) == Some(Rows(sheets[i].words))
          && (forall g :: g != f ==> DbAt(saved.0, g) == DbAt(p.store, g))
          && (forall n :: SheetExists(h, saved.0, n) <==>
                SheetExists(h, p.store, n) || SanitizeFileName(n, h.invalidFileNameChars) in {f, ""})
          && (WellFormed(p.store) ==> WellFormed(saved.0))
  {
    var i := |sheets| - 1;
    var p := SaveAll(h, st, c, sheets[..i]);
    if p.failedAt.None? && sheets[i].words != []
       && SaveSheetData(h, p.store, p.cache, sheets[i].sheetName, sheets[i].words).Some? {
      SaveSheetDataEffects(h, p.store, p.cache, sheets[i].sheetName, sheets[i].words);
    }
  }

  /** Without a failure, every non-empty worksheet is counted once, as
      overridden or as created. */
  lemma {:induction false} SaveAllTally(h: Host, st: Store, c: Cache, sheets: seq<SheetData>)
    ensures var p := SaveAll(h, st, c, sheets);
      p.failedAt.None? ==> p.overridden + p.created == NonEmptyCount(sheets)
    decreases |sheets|
  {
    if sheets != [] {
      SaveAllTally(h, st, c, sheets[..|sheets| - 1]);
    }
  }

  /** The saves never make a words.db unreadable nor repair one. */
  lemma {:induction false} SaveAllKeepsUnreadable(h: Host, st: Store, c: Cache, sheets: seq<SheetData>)
    ensures var p := SaveAll(h, st, c, sheets);
      forall f :: DbAt(p.store, f) == Some(Unreadable) <==> DbAt(st, f) == Some(Unreadable)
    decreases |sheets|
  {
    if sheets != [] {
      LastSaveEffects(h, st, c, sheets);
      SaveAllKeepsUnreadable(h, st, c, sheets[..|sheets| - 1]);
    }
  }

  /** A save throws exactly for a non-empty worksheet whose words.db was
      unreadable from the start. */
  lemma {:induction false} SaveAllFailure(h: Host, st: Store, c: Cache, sheets: seq<SheetData>)
    ensures var p := SaveAll(h, st, c, sheets);
      p.failedAt.Some? ==>
        && Saved(sheets, p.failedAt.value)
        && DbAt(st, SanitizeFileName(sheets[p.failedAt.value].sheetName, h.invalidFileNameChars)) == Some(Unreadable)
    ensures (forall k :: Saved(sheets, k) ==>
               DbAt(st, SanitizeFileName(sheets[k].sheetName, h.invalidFileNameChars)) != Some(Unreadable))
            ==> SaveAll(h, st, c, sheets).failedAt.None?
    decreases |sheets|
  {
    if sheets != [] {
      LastSaveEffects(h, st, c, sheets);
      var init := sheets[..|sheets| - 1];
      SaveAllFailure(h, st, c, init);
      SaveAllKeepsUnreadable(h, st, c, init);
      assert forall k :: 0 <= k < |init| ==> init[k] == sheets[k];
    }
  }

  /** Folders only ever appear. */
  lemma {:induction false} SaveAllKeepsSheets(h: Host, st: Store, c: Cache, sheets: seq<SheetData>)
    ensures var p := SaveAll(h, st, c, sheets);
      forall n :: SheetExists(h, st, n) ==> SheetExists(h, p.store, n)
    decreases |sheets|
  {
    if sheets != [] {
      LastSaveEffects(h, st, c, sheets);
      SaveAllKeepsSheets(h, st, c, sheets[..|sheets| - 1]);
    }
  }

  /** Without a failure, every non-empty worksheet's name exists afterwards. */
  lemma {:induction false} SaveAllCreates(h: Host, st: Store, c: Cache, sheets: seq<SheetData>)
    ensures var p := SaveAll(h, st, c, sheets);
      p.failedAt.None? ==> forall k :: Saved(sheets, k) ==> SheetExists(h, p.store, sheets[k].sheetName)
    decreases |sheets|
  {
    if sheets != [] {
      var i := |sheets| - 1;
      var init := sheets[..i];
      var p, q := SaveAll(h, st, c, init), SaveAll(h, st, c, sheets);
      SaveAllCreates(h, st, c, init);
      LastSaveEffects(h, st, c, sheets);
      if q.failedAt.None? {
        forall k | Saved(sheets, k) ensures SheetExists(h, q.store, sheets[k].sheetName) {
          if k < i {
            assert init[k] == sheets[k] && Saved(init, k);
            assert SheetExists(h, p.store, sheets[k].sheetName);
          }
        }
      }
    }
  }

  /** Without a failure, a worksheet whose save was the last to its folder
      reads back exactly its words: a later worksheet with the same
      sanitized name overwrites an earlier one. */
  lemma {:induction false} SaveAllReadBack(h: Host, st: Store, c: Cache, sheets: seq<SheetData>)
    ensures var p := SaveAll(h, st, c, sheets);
      p.failedAt.None? ==> forall k :: LastSaveTo(h, sheets, k, |sheets|) ==>
        GetWordsBySheetName(h, p.store, sheets[k].sheetName) == sheets[k].words
    decreases |sheets|
  {
    if sheets != [] {
      var i := |sheets| - 1;
      var init := sheets[..i];
      var p, q := SaveAll(h, st, c, init), SaveAll(h, st, c, sheets);
      SaveAllReadBack(h, st, c, init);
      assert forall j :: 0 <= j < i ==> init[j] == sheets[j];
      if q.failedAt.None? {
        forall k | LastSaveTo(h, sheets, k, |sheets|)
          ensures GetWordsBySheetName(h, q.store, sheets[k].sheetName) == sheets[k].words
        {
          if k < i {
            assert LastSaveTo(h, init, k, |init|);
          }
          ReadBackStep(h, st, c, sheets, k);
        }
      }
    }
  }

  /** One step of the read-back: the last worksheet's save reads back, and
      an earlier one still does unless the last shares its folder. */
  lemma ReadBackStep(h: Host, st: Store, c: Cache, sheets: seq<SheetData>, k: nat)
    requires sheets != [] && SaveAll(h, st, c, sheets).failedAt.None?
    requires LastSaveTo(h, sheets, k, |sheets|)
    requires k < |sheets| - 1 ==>
      GetWordsBySheetName(h, SaveAll(h, st, c, sheets[..|sheets| - 1]).store, sheets[k].sheetName) == sheets[k].words
    ensures GetWordsBySheetName(h, SaveAll(h, st, c, sheets).store, sheets[k].sheetName) == sheets[k].words
  {
    LastSaveDb(h, st, c, sheets, SanitizeFileName(sheets[k].sheetName, h.invalidFileNameChars));
  }

  /** The folders after the last worksheet: its own folder holds its words
      when it was saved, every other folder is as the earlier saves left it. */
  lemma LastSaveDb(h: Host, st: Store, c: Cache, sheets: seq<SheetData>, g: string)
    requires sheets != []
    ensures var i := |sheets| - 1;
      var q := SaveAll(h, st, c, sheets);
      q.failedAt.None? ==>
        DbAt(q.store, g)
        == if sheets[i].words != [] && g == SanitizeFileName(sheets[i].sheetName, h.invalidFileNameChars)
           then Some(Rows(sheets[i].words))
           else DbAt(SaveAll(h, st, c, sheets[..i]).store, g)
  {
    LastSaveEffects(h, st, c, sheets);
  }

  /** A workbook whose worksheets are all empty changes nothing. */
  lemma {:induction false} SaveAllNothingToSave(h: Host, st: Store, c: Cache, sheets: seq<SheetData>)
    requires NonEmptyCount(sheets) == 0
    ensures SaveAll(h, st, c, sheets) == Progress(st, c, 0, 0, None)
    decreases |sheets|
  {
    if sheets != [] {
      SaveAllNothingToSave(h, st, c, sheets[..|sheets| - 1]);
    }
  }

  /** The cached list is dropped by any save, and the recorded index time
      is never touched. */
  lemma {:induction false} SaveAllDropsCache(h: Host, st: Store, c: Cache, sheets: seq<SheetData>)
    ensures var p := SaveAll(h, st, c, sheets);
      && p.cache.lastIndexUpdate == c.lastIndexUpdate
      && (p.failedAt.None? && NonEmptyCount(sheets) > 0 ==> p.cache.sheets.None?)
    decreases |sheets|
  {
    if sheets != [] {
      SaveAllDropsCache(h, st, c, sheets[..|sheets| - 1]);
    }
  }

  /** The saves keep the store well formed. */
  lemma {:induction false} SaveAllWellFormed(h: Host, st: Store, c: Cache, sheets: seq<SheetData>)
    requires WellFormed(st)
    ensures WellFormed(SaveAll(h, st, c, sheets).store)
    decreases |sheets|
  {
    if sheets != [] {
      LastSaveEffects(h, st, c, sheets);
      SaveAllWellFormed(h, st, c, sheets[..|sheets| - 1]);
    }
  }

  /** Re-importing sheets that all exist creates none. */
  lemma {:induction false} SaveAllExisting(h: Host, st: Store, c: Cache, sheets: seq<SheetData>)
    requires AllExisting(h, st, sheets)
    ensures SaveAll(h, st, c, sheets).created == 0
    decreases |sheets|
  {
    if sheets != [] {
      var i := |sheets| - 1;
      var init := sheets[..i];
      assert forall k :: 0 <= k < |init| ==> init[k] == sheets[k];
      SaveAllExisting(h, st, c, init);
      SaveAllKeepsSheets(h, st, c, init);
      if Saved(sheets, i) {
        assert SheetExists(h, st, sheets[i].sheetName);
      }
    }
  }

  /** Importing into new, distinct folders overrides none; the folders
      still to be written do not exist yet at any point. */
  lemma {:induction false} SaveAllNewPrefix(h: Host, st: Store, c: Cache, sheets: seq<SheetData>, i: nat)
    requires AllNew(h, st, sheets) && i <= |sheets|
    ensures var p := SaveAll(h, st, c, sheets[..i]);
      && p.overridden == 0
      && forall k :: i <= k && Saved(sheets, k) ==> !SheetExists(h, p.store, sheets[k].sheetName)
    decreases i
  {
    if i > 0 {
      var init := sheets[..i][..i - 1];
      assert init == sheets[..i - 1];
      SaveAllNewPrefix(h, st, c, sheets, i - 1);
      LastSaveEffects(h, st, c, sheets[..i]);
      assert sheets[..i][i - 1] == sheets[i - 1];
    }
  }

  /** Importing into new, distinct folders overrides none. */
  lemma SaveAllNew(h: Host, st: Store, c: Cache, sheets: seq<SheetData>)
    requires AllNew(h, st, sheets)
    ensures SaveAll(h, st, c, sheets).overridden == 0
  {
    SaveAllNewPrefix(h, st, c, sheets, |sheets|);
    assert sheets[..|sheets|] == sheets;
  }

  /** Distinct new folders read back each worksheet's own words. */
  lemma ImportedSheetsReadBack(h: Host, st: Store, sheets: seq<SheetData>, k: nat)
    requires AllNew(h, st, sheets) && Saved(sheets, k)
    ensures LastSaveTo(h, sheets, k, |sheets|)
  {
  }


  /** Importing while a finished dictation is on screen leaves it marked
      finished: the next confirmation while paused restarts the new list
      rather than checking the answer. */
  lemma ImportKeepsCompletion(h: Host, s: Session, words: seq<Word>, input: Option<string>)
    requires Valid(s) && s.isDictationCompleted && !s.isPlaying
    ensures AfterImport(s, words).isDictationCompleted
    ensures ConfirmAnswer(h, AfterImport(s, words), input) == RestartDictation(AfterImport(s, words))
  {
  }
}
