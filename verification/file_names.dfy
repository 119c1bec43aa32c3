/** How DatabaseService turns a sheet's display name into the name of its
    folder under WordTables (SanitizeFileName), and how the rescan turns a
    folder name back into a display name. */
module FileNames {
  import opened Platform

  /** SanitizeFileName cuts its result to this many characters (Unicode scalar values). */
  const MaxFolderNameLength: nat := 50

  /** The string the surviving pieces are joined with. */
  const Joiner: string := "_"

  /** string.Split(separators) without options: every separator character
      ends a piece, so runs of separators leave empty pieces behind. */
  function SplitAll(s: string, seps: set<char>): (r: seq<string>)
    ensures |r| >= 1
    decreases |s|
  {
    if |s| == 0 then [""] else Extend(s[0], SplitAll(s[1..], seps), seps)
  }

  /** One more leading character: a separator starts a new first piece,
      any other character joins the first piece. */
  function Extend(c: char, rest: seq<string>, seps: set<char>): (r: seq<string>)
    requires |rest| >= 1
    ensures |r| >= 1
  {
    if c in seps then [""] + rest else [[c] + rest[0]] + rest[1..]
  }

  /** StringSplitOptions.RemoveEmptyEntries: keeps the non-empty pieces in order. */
  function DropEmpty(ps: seq<string>): (r: seq<string>)
    ensures |r| <= |ps|
    ensures forall i :: 0 <= i < |r| ==> r[i] != [] && r[i] in ps
  {
    if |ps| == 0 then []
    else if ps[0] == [] then DropEmpty(ps[1..])
    else [ps[0]] + DropEmpty(ps[1..])
  }

  /** string.Join(sep, pieces). */
  function Join(ps: seq<string>, sep: string): string {
    if |ps| == 0 then ""
    else if |ps| == 1 then ps[0]
    else ps[0] + sep + Join(ps[1..], sep)
  }

  /** The split-and-join half of SanitizeFileName, before truncation. */
  function JoinedPieces(s: string, invalid: set<char>): string {
    Join(DropEmpty(SplitAll(s, invalid)), Joiner)
  }

  /** SanitizeFileName: split on the invalid file-name characters, drop the
      empty pieces, join with "_", keep at most 50 characters. */
  function SanitizeFileName(name: string, invalid: set<char>): (r: string)
    ensures |r| <= MaxFolderNameLength
    ensures |r| <= |JoinedPieces(name, invalid)| && r == JoinedPieces(name, invalid)[..|r|]
  {
    var joined := JoinedPieces(name, invalid);
    if |joined| > MaxFolderNameLength then joined[..MaxFolderNameLength] else joined
  }

  /** Two non-empty strings meet at one "_"; an empty side disappears. */
  function Glue(u: string, v: string): string {
    if u == "" then v else if v == "" then u else u + Joiner + v
  }

  /** The rescan's display name: every "_" of the folder name becomes a space. */
  function DisplayName(folder: string): (r: string)
    ensures |r| == |folder|
    ensures '_' !in r
    ensures forall i :: 0 <= i < |folder| && folder[i] != '_' ==> r[i] == folder[i]
  {
    seq(|folder|, i requires 0 <= i < |folder| => if folder[i] == '_' then ' ' else folder[i])
  }

  // ---------------------------------------------------------------------
  // Splitting and joining

  /** No piece holds a separator. */
  lemma {:induction false} SplitAllPieces(s: string, seps: set<char>)
    ensures forall i :: 0 <= i < |SplitAll(s, seps)| ==> NoneIn(SplitAll(s, seps)[i], seps)
    decreases |s|
  {
    if |s| > 0 {
      SplitAllPieces(s[1..], seps);
      var rest := SplitAll(s[1..], seps);
      if s[0] !in seps {
        var first := [s[0]] + rest[0];
        assert NoneIn(rest[0], seps);
        assert forall k :: 1 <= k < |first| ==> first[k] == rest[0][k - 1];
      }
    }
  }

  /** Extending a split followed by more pieces only touches the split. */
  lemma ExtendAppend(c: char, p: seq<string>, q: seq<string>, seps: set<char>)
    requires |p| >= 1
    ensures Extend(c, p + q, seps) == Extend(c, p, seps) + q
  {
    assert (p + q)[0] == p[0] && (p + q)[1..] == p[1..] + q;
  }

  /** Splitting at one separator character splits the list of pieces there. */
  lemma {:induction false} SplitAllAt(a: string, x: char, b: string, seps: set<char>)
    requires x in seps
    ensures SplitAll(a + [x] + b, seps) == SplitAll(a, seps) + SplitAll(b, seps)
    decreases |a|
  {
    var s := a + [x] + b;
    if |a| == 0 {
      assert s[0] == x && s[1..] == b;
    } else {
      assert s[0] == a[0] && s[1..] == a[1..] + [x] + b;
      SplitAllAt(a[1..], x, b, seps);
      ExtendAppend(a[0], SplitAll(a[1..], seps), SplitAll(b, seps), seps);
    }
  }

  /** A string without separators is a single piece. */
  lemma {:induction false} SplitAllClean(v: string, seps: set<char>)
    requires NoneIn(v, seps)
    ensures SplitAll(v, seps) == [v]
    decreases |v|
  {
    if |v| > 0 {
      SplitAllClean(v[1..], seps);
      assert v == [v[0]] + v[1..];
    }
  }

  lemma {:induction false} DropEmptyAppend(p: seq<string>, q: seq<string>)
    ensures DropEmpty(p + q) == DropEmpty(p) + DropEmpty(q)
    decreases |p|
  {
    if |p| > 0 {
      assert (p + q)[1..] == p[1..] + q;
      DropEmptyAppend(p[1..], q);
    } else {
      assert p + q == q;
    }
  }

  lemma {:induction false} JoinAppend(p: seq<string>, q: seq<string>, sep: string)
    requires |p| > 0 && |q| > 0
    ensures Join(p + q, sep) == Join(p, sep) + sep + Join(q, sep)
    decreases |p|
  {
    if |p| > 1 {
      assert (p + q)[1..] == p[1..] + q;
      JoinAppend(p[1..], q, sep);
    } else {
      assert (p + q)[0] == p[0] && (p + q)[1..] == q;
    }
  }

  /** Joining non-empty pieces gives "" only for no pieces at all. */
  lemma JoinEmptyIff(ps: seq<string>, sep: string)
    requires forall i :: 0 <= i < |ps| ==> ps[i] != []
    ensures Join(ps, sep) == "" <==> ps == []
  {
    if |ps| > 1 {
      assert |Join(ps, sep)| >= |ps[0]| > 0;
    }
  }

  /** Joining pieces free of `cs` with a separator free of `cs` is free of `cs`. */
  lemma {:induction false} JoinNoneIn(ps: seq<string>, sep: string, cs: set<char>)
    requires NoneIn(sep, cs)
    requires forall i :: 0 <= i < |ps| ==> NoneIn(ps[i], cs)
    ensures NoneIn(Join(ps, sep), cs)
    decreases |ps|
  {
    if |ps| > 1 {
      JoinNoneIn(ps[1..], sep, cs);
      var tail := Join(ps[1..], sep);
      var j := ps[0] + sep + tail;
      forall k | 0 <= k < |j| ensures j[k] !in cs {
        if k < |ps[0]| { assert j[k] == ps[0][k]; }
        else if k < |ps[0]| + |sep| { assert j[k] == sep[k - |ps[0]|]; }
        else { assert j[k] == tail[k - |ps[0]| - |sep|]; }
      }
    }
  }

  // ---------------------------------------------------------------------
  // The laws of the split-and-join step

  /** One invalid character splits the name: what lies on either side is
      sanitized separately and the two meet at a single "_", or not at all
      when one side has nothing left. */
  lemma JoinedPiecesAt(a: string, x: char, b: string, invalid: set<char>)
    requires x in invalid
    ensures JoinedPieces(a + [x] + b, invalid) == Glue(JoinedPieces(a, invalid), JoinedPieces(b, invalid))
  {
    var p := DropEmpty(SplitAll(a, invalid));
    var q := DropEmpty(SplitAll(b, invalid));
    SplitAllAt(a, x, b, invalid);
    DropEmptyAppend(SplitAll(a, invalid), SplitAll(b, invalid));
    JoinEmptyIff(p, Joiner);
    JoinEmptyIff(q, Joiner);
    if p == [] {
      assert p + q == q;
    } else if q == [] {
      assert p + q == p;
    } else {
      JoinAppend(p, q, Joiner);
    }
  }

  /** A name without invalid characters passes the split-and-join unchanged. */
  lemma JoinedPiecesClean(v: string, invalid: set<char>)
    requires NoneIn(v, invalid)
    ensures JoinedPieces(v, invalid) == v
  {
    SplitAllClean(v, invalid);
  }

  /** A name made only of invalid characters (the empty name included) leaves nothing. */
  lemma {:induction false} JoinedPiecesAllInvalid(s: string, invalid: set<char>)
    requires AllIn(s, invalid)
    ensures JoinedPieces(s, invalid) == ""
    decreases |s|
  {
    if |s| > 0 {
      JoinedPiecesAllInvalid(s[1..], invalid);
      JoinedPiecesAt([], s[0], s[1..], invalid);
      assert [] + [s[0]] + s[1..] == s;
      JoinedPiecesAllInvalid([], invalid);
    }
  }

  /** With "_" itself a valid character, nothing invalid survives. */
  lemma JoinedPiecesValid(s: string, invalid: set<char>)
    requires '_' !in invalid
    ensures NoneIn(JoinedPieces(s, invalid), invalid)
  {
    var ps := DropEmpty(SplitAll(s, invalid));
    SplitAllPieces(s, invalid);
    forall i | 0 <= i < |ps| ensures NoneIn(ps[i], invalid) {
      var j :| 0 <= j < |SplitAll(s, invalid)| && SplitAll(s, invalid)[j] == ps[i];
    }
    JoinNoneIn(ps, Joiner, invalid);
  }

  // ---------------------------------------------------------------------
  // SanitizeFileName

  /** The folder name never holds an invalid character, provided "_" is a
      valid one (it is on every platform .NET supports). */
  lemma SanitizeValidChars(name: string, invalid: set<char>)
    requires '_' !in invalid
    ensures NoneIn(SanitizeFileName(name, invalid), invalid)
  {
    JoinedPiecesValid(name, invalid);
    var j := JoinedPieces(name, invalid);
    var r := SanitizeFileName(name, invalid);
    forall k | 0 <= k < |r| ensures r[k] !in invalid {
      assert r[k] == j[k];
    }
  }

  /** An empty or all-invalid name sanitizes to the empty folder name. */
  lemma SanitizeAllInvalid(name: string, invalid: set<char>)
    requires AllIn(name, invalid)
    ensures SanitizeFileName(name, invalid) == ""
  {
    JoinedPiecesAllInvalid(name, invalid);
  }

  /** A name without invalid characters is only cut to 50 characters, so
      one of at most 50 characters is kept as it is. */
  lemma SanitizeClean(name: string, invalid: set<char>)
    requires NoneIn(name, invalid)
    ensures SanitizeFileName(name, invalid)
         == if |name| <= MaxFolderNameLength then name else name[..MaxFolderNameLength]
  {
    JoinedPiecesClean(name, invalid);
  }

  /** Sanitizing a folder name again changes nothing. */
  lemma SanitizeIdempotent(name: string, invalid: set<char>)
    requires '_' !in invalid
    ensures SanitizeFileName(SanitizeFileName(name, invalid), invalid) == SanitizeFileName(name, invalid)
  {
    SanitizeValidChars(name, invalid);
    SanitizeClean(SanitizeFileName(name, invalid), invalid);
  }

  /** One invalid character between two parts: the parts are sanitized
      separately and glued with one "_" before the cut to 50. */
  lemma SanitizeAt(a: string, x: char, b: string, invalid: set<char>)
    requires x in invalid
    ensures var g := Glue(JoinedPieces(a, invalid), JoinedPieces(b, invalid));
      SanitizeFileName(a + [x] + b, invalid)
      == if |g| > MaxFolderNameLength then g[..MaxFolderNameLength] else g
  {
    JoinedPiecesAt(a, x, b, invalid);
  }

  /** Leading invalid characters vanish. */
  lemma SanitizeDropsLeading(x: char, s: string, invalid: set<char>)
    requires x in invalid
    ensures SanitizeFileName([x] + s, invalid) == SanitizeFileName(s, invalid)
  {
    JoinedPiecesAt([], x, s, invalid);
    assert [] + [x] + s == [x] + s;
    JoinedPiecesAllInvalid([], invalid);
  }

  /** Trailing invalid characters vanish. */
  lemma SanitizeDropsTrailing(s: string, x: char, invalid: set<char>)
    requires x in invalid
    ensures SanitizeFileName(s + [x], invalid) == SanitizeFileName(s, invalid)
  {
    JoinedPiecesAt(s, x, [], invalid);
    assert s + [x] + [] == s + [x];
    JoinedPiecesAllInvalid([], invalid);
  }

  /** A run of invalid characters counts as one: two in a row sanitize
      like a single one. */
  lemma SanitizeCollapsesRun(a: string, x: char, y: char, b: string, invalid: set<char>)
    requires x in invalid && y in invalid
    ensures SanitizeFileName(a + [x, y] + b, invalid) == SanitizeFileName(a + [x] + b, invalid)
  {
    assert a + [x, y] + b == a + [x] + ([y] + b);
    JoinedPiecesAt(a, x, [y] + b, invalid);
    JoinedPiecesAt(a, x, b, invalid);
    JoinedPiecesAt([], y, b, invalid);
    assert [] + [y] + b == [y] + b;
    JoinedPiecesAllInvalid([], invalid);
  }

  /** Two names that differ only in which invalid character they hold name
      the same folder, so saving one overwrites the other. */
  lemma SanitizeCollision(a: string, x: char, y: char, b: string, invalid: set<char>)
    requires x in invalid && y in invalid
    ensures SanitizeFileName(a + [x] + b, invalid) == SanitizeFileName(a + [y] + b, invalid)
  {
    JoinedPiecesAt(a, x, b, invalid);
    JoinedPiecesAt(a, y, b, invalid);
  }

  // ---------------------------------------------------------------------
  // The display name is not an inverse

  /** For a folder name the sanitizer could have produced, looking up its
      display name leads back to the same folder exactly when the folder
      name has no "_". */
  lemma DisplayNameLookup(folder: string, invalid: set<char>)
    requires NoneIn(folder, invalid) && |folder| <= MaxFolderNameLength
    requires ' ' !in invalid
    ensures SanitizeFileName(DisplayName(folder), invalid) == folder <==> '_' !in folder
  {
    var d := DisplayName(folder);
    forall k | 0 <= k < |d| ensures d[k] !in invalid {
      assert folder[k] != '_' ==> d[k] == folder[k];
    }
    SanitizeClean(d, invalid);
    if '_' in folder {
      var k :| 0 <= k < |folder| && folder[k] == '_';
      assert d[k] != folder[k];
    } else {
      assert d == folder;
    }
  }

  /** The folder "a_b" is listed as "a b", which names the folder "a b". */
  lemma DisplayNameLookupMisses(invalid: set<char>)
    requires '_' !in invalid && ' ' !in invalid && 'a' !in invalid && 'b' !in invalid
    ensures DisplayName("a_b") == "a b"
    ensures SanitizeFileName(DisplayName("a_b"), invalid) == "a b" != "a_b"
  {
    assert DisplayName("a_b") == "a b";
    SanitizeClean("a b", invalid);
  }
}
