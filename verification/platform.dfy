/** Facts the source reads from the .NET runtime and the host file system
    instead of fixing them itself, and the string primitives built on them
    (string.Trim, OrdinalIgnoreCase, Path.GetExtension, Path.Combine). */
module Platform {

  /** The runtime facts, fixed for one run of the application. A `char` is
      a Unicode scalar value: it is one UTF-16 code unit of the .NET string
      only inside the Basic Multilingual Plane, and a character beyond it,
      which .NET stores as a surrogate pair, counts here as one. The model
      assumes `invalidFileNameChars` is non-empty, as it is on every .NET
      host: given no separators at all, .NET's string.Split would split at
      white space instead. */
  datatype Host = Host(
    invalidFileNameChars: set<char>,  // Path.GetInvalidFileNameChars()
    whiteSpace: set<char>,            // char.IsWhiteSpace, what string.Trim strips
    decimalDigits: set<char>,         // the regular-expression class \d (category Nd)
    upper: char -> char,              // the simple upper-case map of OrdinalIgnoreCase
    lower: char -> char,              // ToLowerInvariant on one character
    separator: char,                  // Path.DirectorySeparatorChar
    directorySeparators: set<char>)   // the characters Path.GetExtension stops at

  /** The ASCII corner of the runtime's tables, which every .NET host shares:
      '0' to '9' are the only ASCII \d characters and parse as digits, and
      the case maps move ASCII letters only. */
  predicate AsciiConventions(h: Host) {
    AsciiDigitClass(h) && AsciiUpperCase(h) && AsciiLowerCase(h)
  }

  predicate AsciiDigitClass(h: Host) {
    forall c: char :: c as int < 128 ==> (c in h.decimalDigits <==> '0' <= c <= '9')
  }

  predicate AsciiUpperCase(h: Host) {
    forall c: char :: c as int < 128 ==>
      h.upper(c) as int == if 'a' <= c <= 'z' then c as int - 32 else c as int
  }

  predicate AsciiLowerCase(h: Host) {
    forall c: char :: c as int < 128 ==>
      h.lower(c) as int == if 'A' <= c <= 'Z' then c as int + 32 else c as int
  }

  /** An ASCII string without '0' to '9' has no \d character. */
  lemma AsciiNonDigits(h: Host, s: string)
    requires AsciiDigitClass(h)
    requires forall k :: 0 <= k < |s| ==> s[k] as int < 128 && !('0' <= s[k] <= '9')
    ensures NoneIn(s, h.decimalDigits)
  {
  }

  /** A string of '0' to '9' is all \d characters. */
  lemma AsciiDigits(h: Host, s: string)
    requires AsciiDigitClass(h)
    requires forall k :: 0 <= k < |s| ==> '0' <= s[k] <= '9'
    ensures AllIn(s, h.decimalDigits)
  {
  }

  /** What the upper-case map does to one ASCII letter. */
  lemma UpperOfAsciiLetter(h: Host, c: char)
    requires AsciiUpperCase(h) && 'a' <= c <= 'z'
    ensures h.upper(c) as int == c as int - 32
  {
  }

  /** A host with those ASCII tables and nothing beyond them: Windows'
      invalid file-name characters, ASCII white space, '\\' as separator. */
  const SampleHost: Host := Host(
    (set c: char | c as int < 32 || c in "\"<>|:*?\\/"),
    {' ', '\t', '\n', '\r', '\U{000B}', '\U{000C}'},
    (set c: char | '0' <= c <= '9'),
    c => if 'a' <= c <= 'z' then (c as int - 32) as char else c,
    c => if 'A' <= c <= 'Z' then (c as int + 32) as char else c,
    '\\',
    {'\\', '/'})

  lemma SampleHostConventions()
    ensures AsciiConventions(SampleHost)
    ensures '_' !in SampleHost.invalidFileNameChars && ' ' !in SampleHost.invalidFileNameChars
  {
  }

  /** No character of `s` is in `cs`. */
  predicate NoneIn(s: string, cs: set<char>) {
    forall k :: 0 <= k < |s| ==> s[k] !in cs
  }

  /** Every character of `s` is in `cs`. */
  predicate AllIn(s: string, cs: set<char>) {
    forall k :: 0 <= k < |s| ==> s[k] in cs
  }

  /** The length of the leading run of white space. */
  function LeadingWhiteSpace(ws: set<char>, s: string): (k: nat)
    ensures k <= |s|
    decreases |s|
  {
    if |s| > 0 && s[0] in ws then 1 + LeadingWhiteSpace(ws, s[1..]) else 0
  }

  /** The length of the trailing run of white space. */
  function TrailingWhiteSpace(ws: set<char>, s: string): (k: nat)
    ensures k <= |s|
    decreases |s|
  {
    if |s| > 0 && s[|s| - 1] in ws then 1 + TrailingWhiteSpace(ws, s[..|s| - 1]) else 0
  }

  /** string.TrimStart(): drops the leading run of white space. */
  function TrimStart(ws: set<char>, s: string): string {
    s[LeadingWhiteSpace(ws, s)..]
  }

  /** string.TrimEnd(): drops the trailing run of white space. */
  function TrimEnd(ws: set<char>, s: string): string {
    s[..|s| - TrailingWhiteSpace(ws, s)]
  }

  /** string.Trim(): both ends. */
  function Trim(h: Host, s: string): (r: string)
    ensures |r| <= |s|
    ensures NoneIn(s, h.whiteSpace) ==> r == s
  {
    TrimEnd(h.whiteSpace, TrimStart(h.whiteSpace, s))
  }

  /** The leading run is all white space and is followed by a character
      that is not. */
  lemma {:induction false} LeadingRun(ws: set<char>, s: string)
    ensures var k := LeadingWhiteSpace(ws, s);
      AllIn(s[..k], ws) && (k == |s| || s[k] !in ws)
    decreases |s|
  {
    if |s| > 0 && s[0] in ws {
      LeadingRun(ws, s[1..]);
      var k := LeadingWhiteSpace(ws, s);
      assert s[..k] == [s[0]] + s[1..][..k - 1];
    }
  }

  /** The trailing run is all white space and is preceded by a character
      that is not. */
  lemma {:induction false} TrailingRun(ws: set<char>, s: string)
    ensures var k := TrailingWhiteSpace(ws, s);
      AllIn(s[|s| - k..], ws) && (k == |s| || s[|s| - k - 1] !in ws)
    decreases |s|
  {
    if |s| > 0 && s[|s| - 1] in ws {
      var t := s[..|s| - 1];
      TrailingRun(ws, t);
      var k := TrailingWhiteSpace(ws, s);
      assert s[|s| - k..] == t[|t| - (k - 1)..] + [s[|s| - 1]];
    }
  }

  /** Trim keeps a middle slice of its input, removes only white space on
      either side of it, and leaves no white space at either end; it is
      empty exactly when the input is all white space. */
  lemma TrimShape(h: Host, s: string)
    ensures var r, k := Trim(h, s), LeadingWhiteSpace(h.whiteSpace, s);
      && k + |r| <= |s|
      && r == s[k..k + |r|]
      && AllIn(s[..k], h.whiteSpace) && AllIn(s[k + |r|..], h.whiteSpace)
      && (r == [] || (r[0] !in h.whiteSpace && r[|r| - 1] !in h.whiteSpace))
      && (r == [] <==> AllIn(s, h.whiteSpace))
  {
    TrimSlice(h, s);
    TrimEnds(h, s);
    TrimEmptyIff(h, s);
  }

  /** Trim is the middle slice between the two runs, and what it cuts is
      white space. */
  lemma TrimSlice(h: Host, s: string)
    ensures var r, k := Trim(h, s), LeadingWhiteSpace(h.whiteSpace, s);
      && k + |r| <= |s|
      && r == s[k..k + |r|]
      && AllIn(s[..k], h.whiteSpace) && AllIn(s[k + |r|..], h.whiteSpace)
  {
    var ws := h.whiteSpace;
    var k := LeadingWhiteSpace(ws, s);
    var t := TrimStart(ws, s);
    var r := Trim(h, s);
    LeadingRun(ws, s);
    TrailingRun(ws, t);
    assert t == s[k..];
    SliceOfSuffix(s, k, |r|);
  }

  /** Slicing a suffix is slicing the whole. */
  lemma SliceOfSuffix(s: string, k: nat, m: nat)
    requires k + m <= |s|
    ensures s[k..][..m] == s[k..k + m] && s[k..][m..] == s[k + m..]
  {
  }

  /** A trimmed string neither starts nor ends with white space. */
  lemma TrimEnds(h: Host, s: string)
    ensures var r := Trim(h, s);
      r == [] || (r[0] !in h.whiteSpace && r[|r| - 1] !in h.whiteSpace)
  {
    var ws := h.whiteSpace;
    var k := LeadingWhiteSpace(ws, s);
    var t := TrimStart(ws, s);
    var r := Trim(h, s);
    LeadingRun(ws, s);
    TrailingRun(ws, t);
    if r != [] {
      assert r[0] == t[0] == s[k];
      assert r[|r| - 1] == t[|r| - 1];
    }
  }

  /** Trim leaves nothing exactly when the input is all white space. */
  lemma TrimEmptyIff(h: Host, s: string)
    ensures Trim(h, s) == [] <==> AllIn(s, h.whiteSpace)
  {
    var ws := h.whiteSpace;
    var k := LeadingWhiteSpace(ws, s);
    var t := TrimStart(ws, s);
    LeadingRun(ws, s);
    TrailingRun(ws, t);
    if AllIn(s, ws) {
      assert k == |s|;
    }
    if Trim(h, s) == [] {
      assert t == s[k..];
      assert t[|t| - TrailingWhiteSpace(ws, t)..] == t;
      assert k == |s|;
      assert s[..k] == s;
    }
  }

  /** Trimming twice is trimming once. */
  lemma TrimIdempotent(h: Host, s: string)
    ensures Trim(h, Trim(h, s)) == Trim(h, s)
  {
    var ws := h.whiteSpace;
    var r := Trim(h, s);
    TrimShape(h, s);
    if r != [] {
      assert LeadingWhiteSpace(ws, r) == 0;
      assert TrailingWhiteSpace(ws, r) == 0;
    }
  }

  /** The leading run of a concatenation: it runs into the second part
      only when the first is all white space. */
  lemma {:induction false} LeadingAppend(ws: set<char>, x: string, y: string)
    ensures LeadingWhiteSpace(ws, x + y)
         == if LeadingWhiteSpace(ws, x) == |x| then |x| + LeadingWhiteSpace(ws, y) else LeadingWhiteSpace(ws, x)
    decreases |x|
  {
    if |x| > 0 {
      assert (x + y)[0] == x[0] && (x + y)[1..] == x[1..] + y;
      if x[0] in ws {
        LeadingAppend(ws, x[1..], y);
      }
    } else {
      assert x + y == y;
    }
  }

  /** The trailing run of a concatenation: it runs into the first part
      only when the second is all white space. */
  lemma {:induction false} TrailingAppend(ws: set<char>, x: string, y: string)
    ensures TrailingWhiteSpace(ws, x + y)
         == if TrailingWhiteSpace(ws, y) == |y| then |y| + TrailingWhiteSpace(ws, x) else TrailingWhiteSpace(ws, y)
    decreases |y|
  {
    if |y| > 0 {
      var s := x + y;
      assert s[|s| - 1] == y[|y| - 1] && s[..|s| - 1] == x + y[..|y| - 1];
      if y[|y| - 1] in ws {
        TrailingAppend(ws, x, y[..|y| - 1]);
      }
    } else {
      assert x + y == x;
    }
  }

  /** A string of white space is one leading and one trailing run. */
  lemma AllWhiteSpaceRuns(ws: set<char>, s: string)
    requires AllIn(s, ws)
    ensures LeadingWhiteSpace(ws, s) == |s| && TrailingWhiteSpace(ws, s) == |s|
  {
    LeadingRun(ws, s);
    TrailingRun(ws, s);
  }

  /** White space added around a string does not change its trimmed form. */
  lemma TrimIgnoresPadding(h: Host, before: string, s: string, after: string)
    requires AllIn(before, h.whiteSpace) && AllIn(after, h.whiteSpace)
    ensures Trim(h, before + s + after) == Trim(h, s)
  {
    var ws := h.whiteSpace;
    assert before + s + after == before + (s + after);
    TrimStartPadded(ws, before, s + after);
    TrimStartAppend(ws, s, after);
    if LeadingWhiteSpace(ws, s) < |s| {
      TrimEndPadded(ws, TrimStart(ws, s), after);
    } else {
      assert TrimStart(ws, s) == [];
    }
  }

  /** Leading white space is dropped whatever follows it. */
  lemma TrimStartPadded(ws: set<char>, before: string, x: string)
    requires AllIn(before, ws)
    ensures TrimStart(ws, before + x) == TrimStart(ws, x)
  {
    AllWhiteSpaceRuns(ws, before);
    LeadingAppend(ws, before, x);
    assert (before + x)[|before|..] == x;
    SliceOfSuffix(before + x, |before|, LeadingWhiteSpace(ws, x));
  }

  /** Trailing white space stays after the start is trimmed, unless the
      whole string is white space. */
  lemma TrimStartAppend(ws: set<char>, s: string, after: string)
    requires AllIn(after, ws)
    ensures TrimStart(ws, s + after) == if LeadingWhiteSpace(ws, s) == |s| then [] else TrimStart(ws, s) + after
  {
    AllWhiteSpaceRuns(ws, after);
    LeadingAppend(ws, s, after);
  }

  /** Trailing white space is dropped whatever precedes it. */
  lemma TrimEndPadded(ws: set<char>, t: string, after: string)
    requires AllIn(after, ws)
    ensures TrimEnd(ws, t + after) == TrimEnd(ws, t)
  {
    AllWhiteSpaceRuns(ws, after);
    TrailingAppend(ws, t, after);
    assert (t + after)[..|t|] == t;
  }

  /** Upper-cases every character, the folding that OrdinalIgnoreCase compares. */
  function Fold(h: Host, s: string): (r: string)
    ensures |r| == |s|
    ensures forall i :: 0 <= i < |s| ==> r[i] == h.upper(s[i])
  {
    seq(|s|, i requires 0 <= i < |s| => h.upper(s[i]))
  }

  /** Lower-cases every character (string.ToLowerInvariant). */
  function Lower(h: Host, s: string): (r: string)
    ensures |r| == |s|
    ensures forall i :: 0 <= i < |s| ==> r[i] == h.lower(s[i])
  {
    seq(|s|, i requires 0 <= i < |s| => h.lower(s[i]))
  }

  /** string.Equals(a, b, StringComparison.OrdinalIgnoreCase). */
  function EqualsIgnoreCase(h: Host, a: string, b: string): (r: bool)
    ensures r <==> |a| == |b| && forall i :: 0 <= i < |a| ==> h.upper(a[i]) == h.upper(b[i])
  {
    Fold(h, a) == Fold(h, b)
  }

  /** Ordinal comparison of character sequences, reduced to its sign. */
  function CompareOrdinal(a: string, b: string): (r: int)
    ensures -1 <= r <= 1
    ensures r == 0 <==> a == b
    decreases |a|
  {
    if |a| == 0 then (if |b| == 0 then 0 else -1)
    else if |b| == 0 then 1
    else if a[0] < b[0] then -1
    else if a[0] > b[0] then 1
    else
      var r := CompareOrdinal(a[1..], b[1..]);
      assert a == [a[0]] + a[1..] && b == [b[0]] + b[1..];
      r
  }

  /** Swapping the operands of an ordinal comparison negates it. */
  lemma {:induction false} CompareOrdinalAntisymmetric(a: string, b: string)
    ensures CompareOrdinal(a, b) == -CompareOrdinal(b, a)
    decreases |a|
  {
    if |a| > 0 && |b| > 0 && a[0] == b[0] {
      CompareOrdinalAntisymmetric(a[1..], b[1..]);
    }
  }

  /** string.Compare(a, b, StringComparison.OrdinalIgnoreCase), as a sign. */
  function CompareIgnoreCase(h: Host, a: string, b: string): (r: int)
    ensures -1 <= r <= 1
    ensures r == 0 <==> EqualsIgnoreCase(h, a, b)
  {
    CompareOrdinal(Fold(h, a), Fold(h, b))
  }

  /** Path.Combine(dir, name) for a plain name: an empty name yields `dir`. */
  function Combine(h: Host, dir: string, name: string): (r: string)
    ensures name == "" ==> r == dir
    ensures name != "" ==> |r| > |dir| && r[..|dir|] == dir && r[|dir|] == h.separator && r[|dir| + 1..] == name
  {
    if name == "" then dir else dir + [h.separator] + name
  }

  /** Path.GetExtension scanning `path[..i]` backwards. */
  function ExtensionBefore(h: Host, path: string, i: nat): (r: string)
    requires i <= |path|
    ensures r == [] || (2 <= |r| <= |path| && r == path[|path| - |r|..] && r[0] == '.' && |path| - |r| < i)
    decreases i
  {
    if i == 0 then ""
    else if path[i - 1] == '.' then (if i == |path| then "" else path[i - 1..])
    else if path[i - 1] in h.directorySeparators then ""
    else ExtensionBefore(h, path, i - 1)
  }

  /** Started after the last '.' and the last separator, the scan finds an
      extension free of both past its dot. */
  lemma {:induction false} ExtensionBeforeClean(h: Host, path: string, i: nat)
    requires i <= |path|
    requires forall k :: i <= k < |path| ==> path[k] != '.' && path[k] !in h.directorySeparators
    ensures var r := ExtensionBefore(h, path, i);
      r != [] ==> forall k :: 1 <= k < |r| ==> r[k] != '.' && r[k] !in h.directorySeparators
    decreases i
  {
    if i > 0 && path[i - 1] != '.' && path[i - 1] !in h.directorySeparators {
      ExtensionBeforeClean(h, path, i - 1);
    } else if i > 0 && path[i - 1] == '.' && i < |path| {
      var r := ExtensionBefore(h, path, i);
      assert forall k :: 1 <= k < |r| ==> r[k] == path[i - 1 + k];
    }
  }

  /** Path.GetExtension(path): from the last '.' after the last directory
      separator to the end, or "" when there is none or it is the last
      character. */
  function GetExtension(h: Host, path: string): (r: string)
    ensures |r| <= |path|
    ensures r == [] || (|r| >= 2 && r == path[|path| - |r|..] && r[0] == '.')
    ensures r != [] ==> forall k :: 1 <= k < |r| ==> r[k] != '.' && r[k] !in h.directorySeparators
  {
    ExtensionBeforeClean(h, path, |path|);
    ExtensionBefore(h, path, |path|)
  }

  /** Scanning back from any point after the last '.' reaches that '.'. */
  lemma {:induction false} ExtensionBeforeFindsDot(h: Host, path: string, dot: nat, i: nat)
    requires dot < i <= |path| && dot + 1 < |path| && path[dot] == '.'
    requires forall k :: dot < k < |path| ==> path[k] != '.' && path[k] !in h.directorySeparators
    ensures ExtensionBefore(h, path, i) == path[dot..]
    decreases i
  {
    if i - 1 != dot {
      ExtensionBeforeFindsDot(h, path, dot, i - 1);
    }
  }

  /** Conversely, a name that ends with '.' and a non-empty tail free of
      dots and separators has exactly that tail as its extension. */
  lemma GetExtensionOfSuffix(h: Host, stem: string, tail: string)
    requires tail != []
    requires forall k :: 0 <= k < |tail| ==> tail[k] != '.' && tail[k] !in h.directorySeparators
    ensures GetExtension(h, stem + ['.'] + tail) == ['.'] + tail
  {
    var path := stem + ['.'] + tail;
    assert forall k :: |stem| < k < |path| ==> path[k] == tail[k - |stem| - 1];
    ExtensionBeforeFindsDot(h, path, |stem|, |path|);
    assert path[|stem|..] == ['.'] + tail;
  }
}
