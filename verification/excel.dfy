/** ExcelService.cs: every worksheet of a workbook becomes a named list of
    words, read from the rows below the header. */
module Excel {
  import opened Options
  import opened Platform
  import opened Models

  /** The text of columns 1, 2 and 3 of one row (IXLCell.GetString). */
  datatype Row = Row(col1: string, col2: string, col3: string)

  /** A worksheet: its name, the text of its first rows (row k + 1 at
      index k; every row beyond them is empty), and the number of the last
      row with any content, None for a sheet with none. The last used row
      may be set by a column beyond the third. */
  datatype Worksheet = Worksheet(name: string, rows: seq<Row>, lastRowUsed: Option<nat>)

  /** ExcelService.SheetData. */
  datatype SheetData = SheetData(sheetName: string, words: seq<Word>)

  /** The first data row; row 1 is the header. */
  const FirstDataRow: int := 2

  /** worksheet.Cell(row, 1..3) for a row number counted from 1. */
  function CellsAt(ws: Worksheet, row: int): Row {
    if 1 <= row <= |ws.rows| then ws.rows[row - 1] else Row("", "", "")
  }

  /** LastRowUsed()?.RowNumber() ?? 1. */
  function LastRow(ws: Worksheet): int {
    ws.lastRowUsed.GetOr(1)
  }

  /** The word a row gives, its cells trimmed. */
  function RowWord(h: Host, ws: Worksheet, row: int): Word {
    var c := CellsAt(ws, row);
    Word(Trim(h, c.col1), Trim(h, c.col2), Trim(h, c.col3))
  }

  /** A row skipped as empty: both Japanese and Chinese trim to "". The
      part of speech plays no part. */
  predicate IsBlank(w: Word) {
    w.japanese == "" && w.chinese == ""
  }

  /** The trimmed cells of the data rows 2 to the last used row, in row
      order: entry i is row i + 2. */
  function Candidates(h: Host, ws: Worksheet): (r: seq<Word>)
    ensures |r| == if LastRow(ws) < FirstDataRow then 0 else LastRow(ws) - 1
    ensures forall i :: 0 <= i < |r| ==> r[i] == RowWord(h, ws, i + FirstDataRow)
  {
    var n := if LastRow(ws) < FirstDataRow then 0 else LastRow(ws) - 1;
    seq(n, i requires 0 <= i < n => RowWord(h, ws, i + FirstDataRow))
  }

  /** The positions below `n` of the candidates that are kept, in
      increasing order. */
  function KeptRows(cands: seq<Word>, n: nat): (r: seq<nat>)
    requires n <= |cands|
    ensures forall i :: 0 <= i < |r| ==> r[i] < n && !IsBlank(cands[r[i]])
    ensures |r| <= n
  {
    if n == 0 then []
    else KeptRows(cands, n - 1) + (if IsBlank(cands[n - 1]) then [] else [n - 1])
  }

  /** The kept positions come in increasing order. */
  lemma {:induction false} KeptRowsOrdered(cands: seq<Word>, n: nat)
    requires n <= |cands|
    ensures forall i, j :: 0 <= i < j < |KeptRows(cands, n)| ==> KeptRows(cands, n)[i] < KeptRows(cands, n)[j]
  {
    if n > 0 {
      KeptRowsOrdered(cands, n - 1);
      var p := KeptRows(cands, n - 1);
      var r := KeptRows(cands, n);
      forall i, j | 0 <= i < j < |r| ensures r[i] < r[j] {
        assert r[i] == p[i] && p[i] < n - 1;
        if j >= |p| {
          assert r[j] == n - 1;
        } else {
          assert r[j] == p[j] && p[i] < p[j];
        }
      }
    }
  }

  /** Every candidate below `n` that is not blank is kept. */
  lemma {:induction false} KeptRowsComplete(cands: seq<Word>, n: nat)
    requires n <= |cands|
    ensures forall k :: 0 <= k < n && !IsBlank(cands[k]) ==> k in KeptRows(cands, n)
  {
    if n > 0 {
      KeptRowsComplete(cands, n - 1);
      var p := KeptRows(cands, n - 1);
      var r := KeptRows(cands, n);
      assert forall k :: k in p ==> k in r;
      assert !IsBlank(cands[n - 1]) ==> r[|r| - 1] == n - 1;
    }
  }

  /** The candidates at the given positions, in their order. */
  function WordsAt(cands: seq<Word>, ks: seq<nat>): (r: seq<Word>)
    requires forall i :: 0 <= i < |ks| ==> ks[i] < |cands|
    ensures |r| == |ks|
    ensures forall i :: 0 <= i < |ks| ==> r[i] == cands[ks[i]]
  {
    seq(|ks|, i requires 0 <= i < |ks| => cands[ks[i]])
  }

  /** One more candidate adds its word when it is kept. */
  lemma WordsAtStep(cands: seq<Word>, n: nat)
    requires n < |cands|
    ensures WordsAt(cands, KeptRows(cands, n + 1))
         == WordsAt(cands, KeptRows(cands, n)) + (if IsBlank(cands[n]) then [] else [cands[n]])
  {
  }

  /** The words of a worksheet: one per kept data row, in row order. */
  function SheetWords(h: Host, ws: Worksheet): (r: seq<Word>)
    ensures |r| <= |Candidates(h, ws)|
  {
    var c := Candidates(h, ws);
    WordsAt(c, KeptRows(c, |c|))
  }

  /** ExtractWordsFromSheet: reads rows 2 to the last used row, trims the
      three cells and skips the rows whose Japanese and Chinese are both
      empty. */
  method ExtractWordsFromSheet(h: Host, ws: Worksheet) returns (words: seq<Word>)
    ensures words == SheetWords(h, ws)
  {
    var last := LastRow(ws);
    ghost var c := Candidates(h, ws);
    assert |c| == if last < FirstDataRow then 0 else last - FirstDataRow + 1;
    words := [];
    var row := FirstDataRow;
    while row <= last
      invariant FirstDataRow <= row
      invariant row - FirstDataRow <= |c|
      invariant row <= last ==> row - FirstDataRow < |c|
      invariant words == WordsAt(c, KeptRows(c, row - FirstDataRow))
      decreases last - row
    {
      ghost var k := row - FirstDataRow;
      var w := RowWord(h, ws, row);
      assert w == c[k];
      WordsAtStep(c, k);
      if !(w.japanese == "" && w.chinese == "") {
        words := words + [w];
      }
      row := row + 1;
      assert words == WordsAt(c, KeptRows(c, k + 1));
    }
    assert row - FirstDataRow == |c|;
  }

  /** ReadExcelFileAsync once the workbook is open: one SheetData per
      worksheet, in workbook order. */
  method ReadExcelFile(h: Host, workbook: seq<Worksheet>) returns (sheets: seq<SheetData>)
    ensures |sheets| == |workbook|
    ensures forall i :: 0 <= i < |workbook| ==>
      sheets[i] == SheetData(workbook[i].name, SheetWords(h, workbook[i]))
  {
    sheets := [];
    for i := 0 to |workbook|
      invariant |sheets| == i
      invariant forall k :: 0 <= k < i ==> sheets[k] == SheetData(workbook[k].name, SheetWords(h, workbook[k]))
    {
      var words := ExtractWordsFromSheet(h, workbook[i]);
      sheets := sheets + [SheetData(workbook[i].name, words)];
    }
  }

  // ---------------------------------------------------------------------
  // What the row filter promises

  /** The header row and every row past the last used one are never read,
      every word is a row's trimmed cells, a row is dropped exactly when
      its Japanese and Chinese both trim to "", and the words keep row
      order. */
  lemma SheetWordsShape(h: Host, ws: Worksheet)
    ensures var c := Candidates(h, ws);
      var kept := KeptRows(c, |c|);
      var words := SheetWords(h, ws);
      && |words| == |kept|
      && (forall i :: 0 <= i < |kept| ==>
            FirstDataRow <= kept[i] + FirstDataRow <= LastRow(ws)
            && words[i] == RowWord(h, ws, kept[i] + FirstDataRow))
      && (forall i, j :: 0 <= i < j < |kept| ==> kept[i] < kept[j])
      && (forall row :: FirstDataRow <= row <= LastRow(ws) ==>
            (row - FirstDataRow in kept <==> !IsBlank(RowWord(h, ws, row))))
      && |words| <= if LastRow(ws) < FirstDataRow then 0 else LastRow(ws) - 1
  {
    var c := Candidates(h, ws);
    KeptRowsOrdered(c, |c|);
    SheetWordsRows(h, ws);
    SheetRowsKept(h, ws);
  }

  /** Each word is the trimmed cells of a data row up to the last used one. */
  lemma SheetWordsRows(h: Host, ws: Worksheet)
    ensures var c := Candidates(h, ws);
      var kept := KeptRows(c, |c|);
      var words := SheetWords(h, ws);
      && |words| == |kept| <= |c|
      && forall i :: 0 <= i < |kept| ==>
           FirstDataRow <= kept[i] + FirstDataRow <= LastRow(ws)
           && words[i] == RowWord(h, ws, kept[i] + FirstDataRow)
  {
  }

  /** A data row is kept exactly when it is not blank. */
  lemma SheetRowsKept(h: Host, ws: Worksheet)
    ensures var c := Candidates(h, ws);
      forall row :: FirstDataRow <= row <= LastRow(ws) ==>
        (row - FirstDataRow in KeptRows(c, |c|) <==> !IsBlank(RowWord(h, ws, row)))
  {
    var c := Candidates(h, ws);
    KeptRowsComplete(c, |c|);
    forall row | FirstDataRow <= row <= LastRow(ws)
      ensures row - FirstDataRow in KeptRows(c, |c|) <==> !IsBlank(RowWord(h, ws, row))
    {
      assert c[row - FirstDataRow] == RowWord(h, ws, row);
    }
  }

  /** A produced word is never blank on both sides, and its three fields
      are already trimmed. */
  lemma SheetWordsTrimmed(h: Host, ws: Worksheet, i: nat)
    requires i < |SheetWords(h, ws)|
    ensures var w := SheetWords(h, ws)[i];
      && (w.japanese != "" || w.chinese != "")
      && Trim(h, w.japanese) == w.japanese
      && Trim(h, w.chinese) == w.chinese
      && Trim(h, w.partOfSpeech) == w.partOfSpeech
  {
    var c := Candidates(h, ws);
    var kept := KeptRows(c, |c|);
    var w := SheetWords(h, ws)[i];
    assert w == c[kept[i]] && !IsBlank(w);
    RowWordTrimmed(h, ws, kept[i] + FirstDataRow);
  }

  /** The word of any row has trimmed fields. */
  lemma RowWordTrimmed(h: Host, ws: Worksheet, row: int)
    ensures var w := RowWord(h, ws, row);
      && Trim(h, w.japanese) == w.japanese
      && Trim(h, w.chinese) == w.chinese
      && Trim(h, w.partOfSpeech) == w.partOfSpeech
  {
    var cells := CellsAt(ws, row);
    TrimIdempotent(h, cells.col1);
    TrimIdempotent(h, cells.col2);
    TrimIdempotent(h, cells.col3);
  }

  /** A worksheet with no used row yields no words. */
  lemma EmptySheetNoWords(h: Host, ws: Worksheet)
    requires ws.lastRowUsed.None?
    ensures SheetWords(h, ws) == []
  {
  }
}
