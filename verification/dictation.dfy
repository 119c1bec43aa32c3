/** The dictation screen of MainViewModel.cs: the current word of the loaded
    list, the page counter, the answer check and the play/pause mode. */
module Dictation {
  import opened Options
  import opened Platform
  import opened Models
  import opened SheetOrder
  import opened SheetStore

  /** The colour of the Chinese translation (ChineseTranslationBrush):
      the default grey, or green/red after an answer checked while playing. */
  datatype Mark = Neutral | Green | Red

  /** The view model's dictation state.
      - words: _importedWords, the list being dictated.
      - totalCount, currentIndex, studyIndex, pageDisplay: the counters
        and the "i/n" text bound to the page label.
      - chineseTranslation, wordType, isWordTypeVisible: what is shown.
      - japaneseInput: the bound text box.
      - isDictationCompleted, isPlaying, hasImportedData: the modes. */
  datatype Session = Session(
    words: seq<Word>,
    totalCount: int,
    currentIndex: int,
    studyIndex: int,
    pageDisplay: string,
    chineseTranslation: string,
    japaneseInput: string,
    wordType: string,
    isWordTypeVisible: bool,
    isDictationCompleted: bool,
    isPlaying: bool,
    hasImportedData: bool,
    mark: Mark)

  /** The text shown when every word has been answered. */
  const CompletedText: string := "你已完成此次听写"

  /** The part of speech shown for a word that has none. */
  const UnknownWordType: string := "未知"

  // ---------------------------------------------------------------------
  // The page counter text

  function DigitChar(d: nat): (c: char)
    requires d < 10
    ensures IsAsciiDigit(c) && c as int - '0' as int == d
  {
    (d + '0' as int) as char
  }

  /** The decimal text of a natural number, as string interpolation writes
      it: no leading zeros, and it reads back as the number. */
  function NatText(n: nat): (r: string)
    ensures r != []
    ensures forall k :: 0 <= k < |r| ==> IsAsciiDigit(r[k])
    ensures DecimalValue(r) == n
    ensures |r| > 1 ==> r[0] != '0'
    decreases n
  {
    if n < 10 then [DigitChar(n)]
    else
      var p := NatText(n / 10);
      var r := p + [DigitChar(n % 10)];
      assert r[..|r| - 1] == p;
      r
  }

  /** The decimal text of an int, with '-' before a negative one. */
  function IntText(i: int): string {
    if i < 0 then "-" + NatText(-i) else NatText(i)
  }

  /** The page label "{index}/{count}". */
  function PageText(index: int, count: int): (r: string)
    ensures index < 0 ==> r != [] && r[0] == '-'
    ensures 0 <= index && 0 <= count ==>
      '/' in r && forall k :: 0 <= k < |r| && r[k] != '/' ==> IsAsciiDigit(r[k])
  {
    IntText(index) + "/" + IntText(count)
  }

  /** The first '/' of a label comes right after the index's digits. */
  lemma SlashAfterDigits(x: string, u: string)
    requires forall k :: 0 <= k < |x| ==> IsAsciiDigit(x[k])
    ensures FirstIn(x + "/" + u, {'/'}) == Some(|x|)
  {
    var w := x + "/" + u;
    assert w[..|x|] == x;
    assert w[|x|] == '/';
    var r := FirstIn(w, {'/'});
    assert r.value <= |x| by {
      assert w[..r.value + 1][r.value] == '/';
    }
    assert forall k :: 0 <= k < |x| ==> w[k] == x[k];
  }

  /** Two page labels of natural numbers are equal only for the same pair:
      the label determines both counters. */
  lemma PageTextInjective(a: nat, b: nat, c: nat, d: nat)
    requires PageText(a, b) == PageText(c, d)
    ensures a == c && b == d
  {
    var x, y := NatText(a), NatText(c);
    var u, v := NatText(b), NatText(d);
    var p := x + "/" + u;
    assert p == PageText(a, b) == PageText(c, d) == y + "/" + v;
    SlashAfterDigits(x, u);
    SlashAfterDigits(y, v);
    assert x == p[..|x|] && y == p[..|y|];
    assert u == p[|x| + 1..] && v == p[|y| + 1..];
  }

  // ---------------------------------------------------------------------
  // The session invariant

  /** What every reachable session satisfies: the index lies within the
      count, the count within the list, the study index is still -1 (it is
      set nowhere else), and the label shows the two counters. */
  function Valid(s: Session): (r: bool)
    ensures r ==> 0 <= s.currentIndex <= |s.words|
  {
    && 0 <= s.currentIndex <= s.totalCount <= |s.words|
    && s.studyIndex == -1
    && s.pageDisplay == PageText(s.currentIndex, s.totalCount)
  }

  /** The view model as constructed, before anything is loaded. */
  const Initial: Session := Session([], 0, 0, -1, "0/0", "", "", "", true, false, false, false, Neutral)

  lemma InitialValid()
    ensures Valid(Initial)
  {
    assert PageText(0, 0) == "0/0";
  }

  /** The part of speech as displayed. */
  function WordTypeText(partOfSpeech: string): (r: string)
    ensures r != []
    ensures partOfSpeech != "" ==> r == partOfSpeech
  {
    if partOfSpeech == "" then UnknownWordType else partOfSpeech
  }

  // ---------------------------------------------------------------------
  // The operations

  /** UpdateCurrentWordDisplay: with a non-empty list, an index at or past
      the count shows the completion text; otherwise the current word.
      With an empty list nothing changes. */
  function UpdateCurrentWordDisplay(s: Session): (r: Session)
    requires Valid(s)
    ensures Valid(r)
    ensures r.words == s.words && r.currentIndex == s.currentIndex && r.totalCount == s.totalCount
    ensures r.japaneseInput == s.japaneseInput && r.isPlaying == s.isPlaying
    ensures s.words == [] ==> r == s
    ensures s.words != [] ==> (r.isDictationCompleted <==> s.currentIndex >= s.totalCount)
    ensures s.words != [] && r.isDictationCompleted ==>
      r.chineseTranslation == CompletedText && r.wordType == "" && !r.isWordTypeVisible
    ensures s.words != [] && !r.isDictationCompleted ==>
      && r.chineseTranslation == s.words[s.currentIndex].chinese
      && r.wordType == WordTypeText(s.words[s.currentIndex].partOfSpeech)
      && r.isWordTypeVisible
    ensures s.words != [] ==> r.mark == Neutral
  {
    if |s.words| > 0 && s.currentIndex >= 0 then
      if s.currentIndex >= s.totalCount then
        s.(chineseTranslation := CompletedText, wordType := "", isWordTypeVisible := false,
           isDictationCompleted := true, mark := Neutral)
      else
        var w := s.words[s.currentIndex];
        s.(chineseTranslation := w.chinese, wordType := WordTypeText(w.partOfSpeech),
           isWordTypeVisible := true, isDictationCompleted := false, mark := Neutral)
    else s
  }

  /** UpdatePageDisplay: the label shows the current index and the count
      (the progress bar is left out). */
  function UpdatePageDisplay(s: Session): (r: Session)
    ensures r.(pageDisplay := s.pageDisplay) == s
    ensures 0 <= s.currentIndex <= s.totalCount <= |s.words| && s.studyIndex == -1 ==> Valid(r)
  {
    s.(pageDisplay := PageText(s.currentIndex, s.totalCount))
  }

  /** NavigateToNextWord: nothing at or past the count; otherwise one
      forward, with the input cleared and the display refreshed. */
  function NavigateToNextWord(s: Session): (r: Session)
    requires Valid(s)
    ensures Valid(r)
    ensures s.currentIndex >= s.totalCount ==> r == s
    ensures s.currentIndex < s.totalCount ==>
      r.currentIndex == s.currentIndex + 1 && r.japaneseInput == ""
      && r.pageDisplay == PageText(s.currentIndex + 1, s.totalCount)
    ensures r.words == s.words && r.totalCount == s.totalCount && r.isPlaying == s.isPlaying
  {
    if s.currentIndex >= s.totalCount then s
    else UpdatePageDisplay(UpdateCurrentWordDisplay(s.(currentIndex := s.currentIndex + 1, japaneseInput := "",
                                                      pageDisplay := PageText(s.currentIndex + 1, s.totalCount))))
  }

  /** NavigateToPreviousWord: nothing at index 0; otherwise one back, with
      the input cleared and the display refreshed. */
  function NavigateToPreviousWord(s: Session): (r: Session)
    requires Valid(s)
    ensures Valid(r)
    ensures s.currentIndex <= 0 ==> r == s
    ensures s.currentIndex > 0 ==>
      r.currentIndex == s.currentIndex - 1 && r.japaneseInput == ""
      && r.pageDisplay == PageText(s.currentIndex - 1, s.totalCount)
    ensures r.words == s.words && r.totalCount == s.totalCount && r.isPlaying == s.isPlaying
  {
    if s.currentIndex <= 0 then s
    else UpdatePageDisplay(UpdateCurrentWordDisplay(s.(currentIndex := s.currentIndex - 1, japaneseInput := "",
                                                      pageDisplay := PageText(s.currentIndex - 1, s.totalCount))))
  }

  /** TogglePlay: flips the mode; either way the translation colour goes
      back to the default. */
  function TogglePlay(s: Session): (r: Session)
    ensures r.isPlaying == !s.isPlaying && r.mark == Neutral
    ensures r.(isPlaying := s.isPlaying, mark := s.mark) == s
  {
    s.(isPlaying := !s.isPlaying, mark := Neutral)
  }

  /** The answer check: both sides trimmed, compared ignoring case. */
  function IsCorrect(h: Host, input: string, japanese: string): (r: bool)
    ensures Trim(h, input) == Trim(h, japanese) ==> r
    ensures r ==> |Trim(h, input)| == |Trim(h, japanese)|
  {
    EqualsIgnoreCase(h, Trim(h, input), Trim(h, japanese))
  }

  /** RestartDictation: back to the first word with the input cleared,
      then the display refreshed. */
  function RestartDictation(s: Session): (r: Session)
    requires Valid(s)
    ensures Valid(r)
    ensures r.currentIndex == 0 && r.japaneseInput == "" && r.pageDisplay == PageText(0, s.totalCount)
    ensures r.words == s.words && r.totalCount == s.totalCount && r.isPlaying == s.isPlaying
    ensures r.isDictationCompleted <==> s.words != [] && s.totalCount == 0
  {
    UpdateCurrentWordDisplay(s.(currentIndex := 0, studyIndex := -1, pageDisplay := PageText(0, s.totalCount),
                                japaneseInput := "", isDictationCompleted := false))
  }

  /** ConfirmAnswer. `inputFromView` is the text box's own text, None when
      the view passes null, in which case the bound input is used. */
  function ConfirmAnswer(h: Host, s: Session, inputFromView: Option<string>): (r: Session)
    requires Valid(s)
    ensures Valid(r)
    ensures r.isPlaying == s.isPlaying && r.words == s.words && r.totalCount == s.totalCount
  {
    if s.isDictationCompleted && !s.isPlaying then RestartDictation(s)
    else if |s.words| == 0 || s.currentIndex >= |s.words| then s
    else
      var input := inputFromView.GetOr(s.japaneseInput);
      var correct := IsCorrect(h, input, s.words[s.currentIndex].japanese);
      if s.isPlaying then s.(mark := if correct then Green else Red, japaneseInput := "")
      else if correct then NavigateToNextWord(s)
      else s.(japaneseInput := "")
  }

  /** LoadSheetWordsAsync for the sheet named `name`: a non-empty list
      starts a new dictation on its first word; an empty one clears the
      screen but keeps the old list and the completion flag. */
  function LoadSheetWords(h: Host, st: Store, s: Session, name: string): (r: Session)
    requires Valid(s)
    ensures Valid(r)
    ensures r.currentIndex == 0 && r.isPlaying == s.isPlaying
  {
    var words := GetWordsBySheetName(h, st, name);
    if |words| > 0 then
      s.(hasImportedData := true, totalCount := |words|, currentIndex := 0, studyIndex := -1,
         pageDisplay := PageText(0, |words|), isDictationCompleted := false, words := words,
         chineseTranslation := words[0].chinese, wordType := WordTypeText(words[0].partOfSpeech))
    else
      s.(hasImportedData := false, chineseTranslation := "", wordType := "", totalCount := 0,
         currentIndex := 0, studyIndex := -1, pageDisplay := "0/0")
  }

  // ---------------------------------------------------------------------
  // What the screen promises

  /** The index stays within [0, count] along any sequence of forward and
      backward moves, each of which moves it by at most one. */
  lemma NavigationStep(s: Session)
    requires Valid(s)
    ensures var n := NavigateToNextWord(s);
      0 <= n.currentIndex - s.currentIndex <= 1 && n.currentIndex <= s.totalCount
    ensures var p := NavigateToPreviousWord(s);
      0 <= s.currentIndex - p.currentIndex <= 1 && p.currentIndex >= 0
  {
  }

  /** Forward then back returns to the same index and label. */
  lemma NextThenPrevious(s: Session)
    requires Valid(s) && s.currentIndex < s.totalCount
    ensures var t := NavigateToPreviousWord(NavigateToNextWord(s));
      t.currentIndex == s.currentIndex && t.pageDisplay == s.pageDisplay
  {
  }

  /** Stepping forward from the first word, one correct answer per word,
      reaches completion exactly at the count. */
  lemma CompletionAtEnd(s: Session)
    requires Valid(s) && s.words != [] && s.currentIndex == s.totalCount - 1
    ensures NavigateToNextWord(s).isDictationCompleted
    ensures NavigateToNextWord(s).chineseTranslation == CompletedText
    ensures NavigateToNextWord(s).pageDisplay == PageText(s.totalCount, s.totalCount)
  {
  }

  /** Two toggles restore the mode. */
  lemma ToggleTwice(s: Session)
    ensures TogglePlay(TogglePlay(s)).isPlaying == s.isPlaying
    ensures TogglePlay(TogglePlay(s)) == s.(mark := Neutral)
  {
  }

  /** The expected word is always accepted, and the check is symmetric
      and transitive: it compares the trimmed, case-folded texts. */
  lemma IsCorrectEquivalence(h: Host, a: string, b: string, c: string)
    ensures IsCorrect(h, a, a)
    ensures IsCorrect(h, a, b) ==> IsCorrect(h, b, a)
    ensures IsCorrect(h, a, b) && IsCorrect(h, b, c) ==> IsCorrect(h, a, c)
  {
  }

  /** White space around an answer does not matter. */
  lemma IsCorrectIgnoresPadding(h: Host, before: string, input: string, after: string, japanese: string)
    requires AllIn(before, h.whiteSpace) && AllIn(after, h.whiteSpace)
    ensures IsCorrect(h, before + input + after, japanese) <==> IsCorrect(h, input, japanese)
  {
    TrimIgnoresPadding(h, before, input, after);
  }

  /** Paused, on a word: a correct answer moves on exactly as the next
      button does; a wrong one only clears the input. */
  lemma ConfirmWhilePaused(h: Host, s: Session, inputFromView: Option<string>)
    requires Valid(s) && !s.isPlaying && !s.isDictationCompleted
    requires s.currentIndex < |s.words|
    ensures var input := inputFromView.GetOr(s.japaneseInput);
      var r := ConfirmAnswer(h, s, inputFromView);
      && (IsCorrect(h, input, s.words[s.currentIndex].japanese) ==> r == NavigateToNextWord(s))
      && (!IsCorrect(h, input, s.words[s.currentIndex].japanese) ==> r == s.(japaneseInput := ""))
  {
  }

  /** Playing: the index never moves and the input is always cleared; the
      translation turns green for a correct answer and red otherwise. */
  lemma ConfirmWhilePlaying(h: Host, s: Session, inputFromView: Option<string>)
    requires Valid(s) && s.isPlaying
    ensures var r := ConfirmAnswer(h, s, inputFromView);
      && r.currentIndex == s.currentIndex
      && (s.currentIndex < |s.words| ==> r.japaneseInput == "")
      && (s.currentIndex < |s.words| ==>
            (r.mark == Green <==> IsCorrect(h, inputFromView.GetOr(s.japaneseInput), s.words[s.currentIndex].japanese)))
  {
  }

  /** Completed and paused, confirming restarts at the first word with the
      flag cleared (unless the count is 0, which completes again at once);
      completed and playing, with the index at the end of the list,
      nothing changes. */
  lemma ConfirmWhenCompleted(h: Host, s: Session, inputFromView: Option<string>)
    requires Valid(s) && s.isDictationCompleted
    ensures !s.isPlaying ==>
      var r := ConfirmAnswer(h, s, inputFromView);
      r.currentIndex == 0 && r.japaneseInput == "" && (s.totalCount > 0 ==> !r.isDictationCompleted)
    ensures s.isPlaying && s.currentIndex >= |s.words| ==> ConfirmAnswer(h, s, inputFromView) == s
  {
  }

  /** Loading a sheet with words starts a fresh dictation of exactly the
      words stored for it. */
  lemma LoadFreshSheet(h: Host, st: Store, s: Session, name: string)
    requires Valid(s) && GetWordsBySheetName(h, st, name) != []
    ensures var r := LoadSheetWords(h, st, s, name);
      && r.words == GetWordsBySheetName(h, st, name)
      && r.totalCount == |r.words| && r.currentIndex == 0
      && r.pageDisplay == PageText(0, |r.words|)
      && !r.isDictationCompleted && r.hasImportedData
      && r.chineseTranslation == r.words[0].chinese
  {
  }

  /** Loading a sheet without words empties the counters but leaves the old
      list and the completion flag as they were. */
  lemma LoadEmptySheet(h: Host, st: Store, s: Session, name: string)
    requires Valid(s) && GetWordsBySheetName(h, st, name) == []
    ensures var r := LoadSheetWords(h, st, s, name);
      && r.totalCount == 0 && r.pageDisplay == "0/0" && !r.hasImportedData
      && r.words == s.words && r.isDictationCompleted == s.isDictationCompleted
  {
    assert PageText(0, 0) == "0/0";
  }
}
