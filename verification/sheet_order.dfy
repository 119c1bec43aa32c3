/** SheetNameComparer from DatabaseService.cs: sheet names compare by the
    number in their first digit run when both have one, and otherwise
    case-insensitively; and the sort of the rescan that uses it. */
module SheetOrder {
  import opened Options
  import opened Platform
  import opened Models

  /** int.MaxValue; int.TryParse fails on larger values. */
  const Int32Max: int := 0x7FFF_FFFF

  /** Index of the first character of `s` that is in `d`. */
  function FirstIn(s: string, d: set<char>): (r: Option<nat>)
    ensures r.None? <==> NoneIn(s, d)
    ensures r.Some? ==> r.value < |s| && s[r.value] in d && NoneIn(s[..r.value], d)
    decreases |s|
  {
    if |s| == 0 then None
    else if s[0] in d then Some(0)
    else match FirstIn(s[1..], d)
      case None => None
      case Some(i) =>
        assert s[..i + 1] == [s[0]] + s[1..][..i];
        Some(i + 1)
  }

  /** The longest prefix of `s` made of characters in `d`. */
  function RunPrefix(s: string, d: set<char>): (r: string)
    ensures |r| <= |s| && r == s[..|r|]
    ensures AllIn(r, d)
    ensures |r| == |s| || s[|r|] !in d
    decreases |s|
  {
    if |s| > 0 && s[0] in d then [s[0]] + RunPrefix(s[1..], d) else ""
  }

  /** Regex.Match(text, @"\d+").Value on success: the leftmost run of \d
      characters, taken as long as it goes. */
  function FirstDigitRun(s: string, d: set<char>): (r: Option<string>)
    ensures r.None? <==> NoneIn(s, d)
    ensures r.Some? ==> r.value != [] && AllIn(r.value, d)
  {
    match FirstIn(s, d)
    case None => None
    case Some(i) => Some(RunPrefix(s[i..], d))
  }

  predicate IsAsciiDigit(c: char) {
    '0' <= c <= '9'
  }

  /** The value of a string of ASCII digits, read left to right. */
  function DecimalValue(s: string): nat
    requires forall k :: 0 <= k < |s| ==> IsAsciiDigit(s[k])
  {
    if |s| == 0 then 0
    else
      assert IsAsciiDigit(s[|s| - 1]);
      DecimalValue(s[..|s| - 1]) * 10 + (s[|s| - 1] as int - '0' as int)
  }

  /** int.TryParse on a run of \d characters: it succeeds only when every
      character is an ASCII digit (other Nd digits do not parse) and the
      value fits in an int. */
  function TryParseInt32(s: string): (r: Option<int>)
    ensures r.Some? ==> 0 <= r.value <= Int32Max
    ensures r.Some? <==> s != [] && (forall k :: 0 <= k < |s| ==> IsAsciiDigit(s[k])) && DecimalValue(s) <= Int32Max
    ensures r.Some? ==> r.value == DecimalValue(s)
  {
    if s != [] && forall k :: 0 <= k < |s| ==> IsAsciiDigit(s[k]) then
      var v := DecimalValue(s);
      if v <= Int32Max then Some(v) else None
    else None
  }

  /** SheetNameComparer.ExtractNumber. */
  function ExtractNumber(h: Host, text: string): (r: Option<int>)
    ensures NoneIn(text, h.decimalDigits) ==> r.None?
    ensures r.Some? ==> 0 <= r.value <= Int32Max
  {
    match FirstDigitRun(text, h.decimalDigits)
    case None => None
    case Some(run) => TryParseInt32(run)
  }

  /** int.CompareTo. */
  function CompareInt(a: int, b: int): int {
    if a < b then -1 else if a > b then 1 else 0
  }

  /** SheetNameComparer.Compare for two non-null names. */
  function CompareNames(h: Host, x: string, y: string): (r: int)
    ensures -1 <= r <= 1
  {
    var nx := ExtractNumber(h, x);
    var ny := ExtractNumber(h, y);
    if nx.Some? && ny.Some? then CompareInt(nx.value, ny.value)
    else CompareIgnoreCase(h, x, y)
  }

  /** SheetNameComparer.Compare, where None stands for a null name: null
      sorts before everything else. */
  function Compare(h: Host, x: Option<string>, y: Option<string>): (r: int)
    ensures -1 <= r <= 1
    ensures x.None? && y.None? ==> r == 0
    ensures x.None? && y.Some? ==> r == -1
    ensures x.Some? && y.None? ==> r == 1
  {
    if x.None? && y.None? then 0
    else if x.None? then -1
    else if y.None? then 1
    else CompareNames(h, x.value, y.value)
  }

  // ---------------------------------------------------------------------
  // What the comparer is and is not

  /** Every name equals itself. */
  lemma CompareReflexive(h: Host, x: Option<string>)
    ensures Compare(h, x, x) == 0
  {
  }

  /** Swapping the names negates the comparison. */
  lemma CompareAntisymmetric(h: Host, x: Option<string>, y: Option<string>)
    ensures Compare(h, x, y) == -Compare(h, y, x)
  {
    if x.Some? && y.Some? {
      CompareOrdinalAntisymmetric(Fold(h, x.value), Fold(h, y.value));
    }
  }

  /** Two names whose first digit runs parse compare by those numbers
      alone, so different names with equal numbers compare equal. */
  lemma CompareByNumbers(h: Host, x: string, y: string)
    requires ExtractNumber(h, x).Some? && ExtractNumber(h, y).Some?
    ensures var nx, ny := ExtractNumber(h, x).value, ExtractNumber(h, y).value;
      && (CompareNames(h, x, y) < 0 <==> nx < ny)
      && (CompareNames(h, x, y) == 0 <==> nx == ny)
  {
  }

  /** When either name has no digit run, or its run does not parse (too
      large for an int, or not ASCII digits), the comparison is
      case-insensitive ordinal. */
  lemma CompareFallsBack(h: Host, x: string, y: string)
    requires ExtractNumber(h, x).None? || ExtractNumber(h, y).None?
    ensures CompareNames(h, x, y) == CompareOrdinal(Fold(h, x), Fold(h, y))
    ensures CompareNames(h, x, y) == 0 <==> EqualsIgnoreCase(h, x, y)
  {
  }

  /** A leading zero does not change the value of a digit string. */
  lemma {:induction false} LeadingZeroIgnored(s: string)
    requires forall k :: 0 <= k < |s| ==> IsAsciiDigit(s[k])
    ensures DecimalValue(['0'] + s) == DecimalValue(s)
    decreases |s|
  {
    if |s| > 0 {
      var t := ['0'] + s;
      assert t[..|t| - 1] == ['0'] + s[..|s| - 1];
      LeadingZeroIgnored(s[..|s| - 1]);
    }
  }

  /** The name "c1" sorts before "a2" by number, "a2" before "b" and "b"
      before "c1" by letters: the comparer is not transitive. */
  lemma CompareNotTransitive(h: Host)
    requires AsciiConventions(h)
    ensures CompareNames(h, "c1", "a2") < 0
    ensures CompareNames(h, "a2", "b") < 0
    ensures CompareNames(h, "b", "c1") < 0
  {
    var d := h.decimalDigits;
    assert 'a' !in d && 'b' !in d && 'c' !in d && '1' in d && '2' in d;
    assert FirstIn("c1", d) == Some(1);
    assert RunPrefix("c1"[1..], d) == "1";
    assert DecimalValue("1") == 1;
    assert ExtractNumber(h, "c1") == Some(1);
    assert FirstIn("a2", d) == Some(1);
    assert RunPrefix("a2"[1..], d) == "2";
    assert DecimalValue("2") == 2;
    assert ExtractNumber(h, "a2") == Some(2);
    assert NoneIn("b", d);
    assert ExtractNumber(h, "b") == None;
    assert h.upper('a') == 'A' && h.upper('b') == 'B' && h.upper('c') == 'C';
    assert Fold(h, "a2")[0] == 'A' && Fold(h, "b")[0] == 'B' && Fold(h, "c1")[0] == 'C';
  }

  // ---------------------------------------------------------------------
  // The rescan's sort

  /** Adjacent records are in comparer order. */
  predicate AdjacentOrdered(h: Host, s: seq<SheetInfo>) {
    forall i :: 0 < i < |s| ==> CompareNames(h, s[i - 1].name, s[i].name) <= 0
  }

  /** Inserts `x` after every leading record that does not compare above it. */
  function Insert(h: Host, x: SheetInfo, s: seq<SheetInfo>): (r: seq<SheetInfo>)
    ensures |r| == |s| + 1
    ensures r[0] == x || (|s| > 0 && r[0] == s[0])
  {
    if |s| == 0 then [x]
    else if CompareNames(h, s[0].name, x.name) <= 0 then [s[0]] + Insert(h, x, s[1..])
    else [x] + s
  }

  /** The stable sort of the scanned records by name (Enumerable.OrderBy
      with SheetNameComparer), as an insertion sort in input order. */
  function SortByName(h: Host, s: seq<SheetInfo>): (r: seq<SheetInfo>)
    ensures |r| == |s|
  {
    if |s| == 0 then []
    else Insert(h, s[|s| - 1], SortByName(h, s[..|s| - 1]))
  }

  /** Inserting adds the one record and loses none. */
  lemma {:induction false} InsertPermutes(h: Host, x: SheetInfo, s: seq<SheetInfo>)
    ensures multiset(Insert(h, x, s)) == multiset(s) + multiset{x}
    decreases |s|
  {
    if |s| > 0 && CompareNames(h, s[0].name, x.name) <= 0 {
      var rest := Insert(h, x, s[1..]);
      InsertPermutes(h, x, s[1..]);
      assert Insert(h, x, s) == [s[0]] + rest;
      assert multiset([s[0]] + rest) == multiset([s[0]]) + multiset(rest);
      assert s == [s[0]] + s[1..];
      assert multiset(s) == multiset([s[0]]) + multiset(s[1..]);
    }
  }

  lemma {:induction false} InsertOrdered(h: Host, x: SheetInfo, s: seq<SheetInfo>)
    requires AdjacentOrdered(h, s)
    ensures AdjacentOrdered(h, Insert(h, x, s))
    decreases |s|
  {
    if |s| > 0 && CompareNames(h, s[0].name, x.name) <= 0 {
      InsertOrdered(h, x, s[1..]);
    } else if |s| > 0 {
      CompareAntisymmetric(h, Some(s[0].name), Some(x.name));
    }
  }

  /** The sort returns the same records, each adjacent pair in comparer
      order; no more can be promised, as the comparer is not transitive. */
  lemma SortByNameOrdered(h: Host, s: seq<SheetInfo>)
    ensures multiset(SortByName(h, s)) == multiset(s)
    ensures AdjacentOrdered(h, SortByName(h, s))
  {
    SortByNamePermutes(h, s);
    SortByNameAdjacent(h, s);
  }

  lemma {:induction false} SortByNamePermutes(h: Host, s: seq<SheetInfo>)
    ensures multiset(SortByName(h, s)) == multiset(s)
    decreases |s|
  {
    if |s| > 0 {
      var init, last := s[..|s| - 1], s[|s| - 1];
      SortByNamePermutes(h, init);
      InsertPermutes(h, last, SortByName(h, init));
      PermutationStep(SortByName(h, s), SortByName(h, init), s);
    }
  }

  /** Adding the last element to both sides of a permutation. */
  lemma PermutationStep<T>(r: seq<T>, sorted: seq<T>, s: seq<T>)
    requires s != []
    requires multiset(sorted) == multiset(s[..|s| - 1])
    requires multiset(r) == multiset(sorted) + multiset{s[|s| - 1]}
    ensures multiset(r) == multiset(s)
  {
    assert s == s[..|s| - 1] + [s[|s| - 1]];
  }

  lemma {:induction false} SortByNameAdjacent(h: Host, s: seq<SheetInfo>)
    ensures AdjacentOrdered(h, SortByName(h, s))
    decreases |s|
  {
    if |s| > 0 {
      SortByNameAdjacent(h, s[..|s| - 1]);
      InsertOrdered(h, s[|s| - 1], SortByName(h, s[..|s| - 1]));
    }
  }

  lemma {:induction false} FirstInAfter(prefix: string, tail: string, d: set<char>)
    requires NoneIn(prefix, d) && tail != [] && tail[0] in d
    ensures FirstIn(prefix + tail, d) == Some(|prefix|)
    decreases |prefix|
  {
    if |prefix| == 0 {
      assert prefix + tail == tail;
    } else {
      assert (prefix + tail)[1..] == prefix[1..] + tail;
      FirstInAfter(prefix[1..], tail, d);
    }
  }

  lemma {:induction false} RunPrefixWhole(run: string, d: set<char>)
    requires AllIn(run, d)
    ensures RunPrefix(run, d) == run
    decreases |run|
  {
    if |run| > 0 {
      RunPrefixWhole(run[1..], d);
    }
  }

  /** The longest run of `d` characters at the front stops at the first
      character outside `d`. */
  lemma {:induction false} RunPrefixStops(run: string, rest: string, d: set<char>)
    requires AllIn(run, d) && (rest == [] || rest[0] !in d)
    ensures RunPrefix(run + rest, d) == run
    decreases |run|
  {
    if |run| == 0 {
      assert run + rest == rest;
    } else {
      assert (run + rest)[1..] == run[1..] + rest;
      RunPrefixStops(run[1..], rest, d);
    }
  }

  /** The first \d run of `prefix + run + rest` is `run` when the prefix has
      no \d character and the run is followed by a non-\d character or by
      nothing: the match is the leftmost run, taken as long as it goes. */
  lemma FirstDigitRunOf(prefix: string, run: string, rest: string, d: set<char>)
    requires NoneIn(prefix, d) && run != [] && AllIn(run, d)
    requires rest == [] || rest[0] !in d
    ensures FirstDigitRun(prefix + run + rest, d) == Some(run)
  {
    var s := prefix + run + rest;
    assert s == prefix + (run + rest);
    FirstInAfter(prefix, run + rest, d);
    assert s[|prefix|..] == run + rest;
    RunPrefixStops(run, rest, d);
  }

  /** Conversely, every match splits its name that way: digit-free text,
      the run, then nothing or a non-\d character. */
  lemma FirstDigitRunSplit(s: string, d: set<char>) returns (prefix: string, rest: string)
    requires FirstDigitRun(s, d).Some?
    ensures s == prefix + FirstDigitRun(s, d).value + rest
    ensures NoneIn(prefix, d) && (rest == [] || rest[0] !in d)
  {
    var i := FirstIn(s, d).value;
    var t := s[i..];
    var run := RunPrefix(t, d);
    prefix, rest := s[..i], t[|run|..];
    assert rest != [] ==> rest[0] == t[|run|];
    SplitThree(s, i, i + |run|);
    assert s[i..i + |run|] == t[..|run|];
    assert s[i + |run|..] == rest;
  }

  /** Any two cut points split a sequence into three consecutive parts. */
  lemma SplitThree<T>(s: seq<T>, i: nat, j: nat)
    requires i <= j <= |s|
    ensures s == s[..i] + s[i..j] + s[j..]
  {
  }

  /** The number of a name is int.TryParse of its first \d run, wherever the
      run sits and whatever follows it. */
  lemma ExtractNumberOf(h: Host, prefix: string, digits: string, rest: string)
    requires NoneIn(prefix, h.decimalDigits)
    requires digits != [] && AllIn(digits, h.decimalDigits)
    requires rest == [] || rest[0] !in h.decimalDigits
    ensures ExtractNumber(h, prefix + digits + rest) == TryParseInt32(digits)
  {
    FirstDigitRunOf(prefix, digits, rest, h.decimalDigits);
  }

  /** A name of ASCII non-digits followed by ASCII digits ending it has the
      value of those digits as its number, if that value fits in an int. */
  lemma NumberOfSuffix(h: Host, prefix: string, digits: string)
    requires AsciiDigitClass(h)
    requires forall k :: 0 <= k < |prefix| ==> prefix[k] as int < 128 && !IsAsciiDigit(prefix[k])
    requires digits != [] && forall k :: 0 <= k < |digits| ==> IsAsciiDigit(digits[k])
    requires DecimalValue(digits) <= Int32Max
    ensures ExtractNumber(h, prefix + digits) == Some(DecimalValue(digits))
  {
    AsciiNonDigits(h, prefix);
    AsciiDigits(h, digits);
    ExtractNumberOf(h, prefix, digits, "");
    assert prefix + digits + "" == prefix + digits;
  }

  /** The name in the source's own comment: "工作表2" carries 2, on a host
      whose \d class is the ASCII digits. */
  lemma ExampleChineseName()
    ensures ExtractNumber(SampleHost, "工作表2") == Some(2)
  {
    var prefix := "工作表";
    assert NoneIn(prefix, SampleHost.decimalDigits) by {
      assert prefix[0] == '工' && prefix[1] == '作' && prefix[2] == '表';
    }
    assert AllIn("2", SampleHost.decimalDigits);
    assert "2"[..0] == "";
    ExtractNumberOf(SampleHost, prefix, "2", "");
    assert prefix + "2" + "" == "工作表2";
  }

  /** A run followed by letters: "sheet10abc" carries 10. */
  lemma ExampleRunInside(h: Host)
    requires AsciiDigitClass(h)
    ensures ExtractNumber(h, "sheet10abc") == Some(10)
  {
    SheetIsPlain();
    AsciiNonDigits(h, "sheet");
    AsciiDigits(h, "10");
    assert 'a' !in h.decimalDigits;
    assert "10"[..1] == "1" && "1"[..0] == "";
    assert DecimalValue("10") == 10;
    ExtractNumberOf(h, "sheet", "10", "abc");
    assert "sheet" + "10" + "abc" == "sheet10abc";
  }

  /** A name of ASCII non-digits has no number. */
  lemma NoNumber(h: Host, s: string)
    requires AsciiDigitClass(h)
    requires forall k :: 0 <= k < |s| ==> s[k] as int < 128 && !IsAsciiDigit(s[k])
    ensures ExtractNumber(h, s) == None
  {
    AsciiNonDigits(h, s);
  }

  /** Case-insensitive comparison decided by differing first letters. */
  lemma FirstLetterDecides(h: Host, x: string, y: string)
    requires x != [] && y != [] && h.upper(x[0]) > h.upper(y[0])
    ensures CompareIgnoreCase(h, x, y) == 1
  {
    assert Fold(h, x)[0] == h.upper(x[0]) && Fold(h, y)[0] == h.upper(y[0]);
  }

  /** "sheet" holds no digit and nothing beyond ASCII. */
  lemma SheetIsPlain()
    ensures forall k :: 0 <= k < |"sheet"| ==> "sheet"[k] as int < 128 && !IsAsciiDigit("sheet"[k])
  {
    var w := "sheet";
    assert w[0] == 's' && w[1] == 'h' && w[2] == 'e' && w[3] == 'e' && w[4] == 't';
  }

  /** "sheet10" has the number 10. */
  lemma SheetTenNumber(h: Host)
    requires AsciiDigitClass(h)
    ensures ExtractNumber(h, "sheet10") == Some(10)
  {
    assert "10"[..1] == "1" && "1"[..0] == "";
    assert DecimalValue("10") == 10;
    SheetIsPlain();
    NumberOfSuffix(h, "sheet", "10");
    assert "sheet" + "10" == "sheet10";
  }

  /** "sheet2" has the number 2. */
  lemma SheetTwoNumber(h: Host)
    requires AsciiDigitClass(h)
    ensures ExtractNumber(h, "sheet2") == Some(2)
  {
    assert "2"[..0] == "";
    assert DecimalValue("2") == 2;
    SheetIsPlain();
    NumberOfSuffix(h, "sheet", "2");
    assert "sheet" + "2" == "sheet2";
  }

  /** Two names of digits after "sheet" compare by their values. */
  lemma ExampleNumbered(h: Host)
    requires AsciiDigitClass(h)
    ensures CompareNames(h, "sheet10", "sheet2") == 1
  {
    SheetTenNumber(h);
    SheetTwoNumber(h);
  }

  /** A name beginning with 's' compares above "apple", which has no number. */
  lemma ExampleAgainstApple(h: Host, x: string)
    requires AsciiDigitClass(h) && AsciiUpperCase(h)
    requires x != [] && x[0] == 's'
    ensures CompareNames(h, x, "apple") == 1
  {
    NoNumber(h, "apple");
    UpperOfAsciiLetter(h, 's');
    UpperOfAsciiLetter(h, 'a');
    FirstLetterDecides(h, x, "apple");
  }

  /** The names "sheet10", "sheet2", "apple" sort as "apple", "sheet2",
      "sheet10": "apple" has no number, so it meets the others letter by
      letter and comes first. */
  lemma SortExample(h: Host, path: string)
    requires AsciiConventions(h)
    ensures var s := [SheetInfo("sheet10", 0, path), SheetInfo("sheet2", 0, path), SheetInfo("apple", 0, path)];
      SortByName(h, s) == [s[2], s[1], s[0]]
  {
    var a, b, c := SheetInfo("sheet10", 0, path), SheetInfo("sheet2", 0, path), SheetInfo("apple", 0, path);
    ExampleNumbered(h);
    SortPairSwaps(h, a, b);
    ExampleAgainstApple(h, "sheet2");
    assert Insert(h, c, [b, a]) == [c, b, a];
    assert [a, b, c][..2] == [a, b];
  }

  /** Two records the comparer puts in reverse order are swapped. */
  lemma SortPairSwaps(h: Host, a: SheetInfo, b: SheetInfo)
    requires CompareNames(h, a.name, b.name) == 1
    ensures SortByName(h, [a, b]) == [b, a]
  {
    assert [a, b][..1] == [a];
    assert SortByName(h, [a]) == [a];
  }

}
