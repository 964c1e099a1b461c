/**
 * Turning the operator's comma-separated answer into a list of folders (and,
 * with the same split-and-trim, the list of file names of menu option 4), then
 * keeping the folders that are directories and reporting the others.
 */
module PathCollector {
  import opened Common
  import opened FileSystems

  /** The characters Python's `str.isspace` accepts, which `str.strip()` removes. */
  predicate IsSpace(c: char)
  {
    var n := c as int;
    || 9 <= n <= 13 || 28 <= n <= 32 || n == 0x85 || n == 0xA0 || n == 0x1680
    || 0x2000 <= n <= 0x200A || n == 0x2028 || n == 0x2029 || n == 0x202F
    || n == 0x205F || n == 0x3000
  }

  predicate AllSpace(t: string)
  {
    forall k :: 0 <= k < |t| ==> IsSpace(t[k])
  }

  // ---------------------------------------------------------------------------
  // str.split(",")

  /** `s.split(",")`: the pieces between commas, including empty ones; never an empty list. */
  function SplitCommas(s: string): (pieces: seq<string>)
    ensures |pieces| >= 1
  {
    if s == [] then [[]]
    else
      var init := SplitCommas(s[..|s| - 1]);
      var c := s[|s| - 1];
      if c == ',' then init + [[]]
      else init[..|init| - 1] + [init[|init| - 1] + [c]]
  }

  /** `",".join(pieces)`, the inverse of the split. */
  function JoinCommas(pieces: seq<string>): string
  {
    if pieces == [] then []
    else if |pieces| == 1 then pieces[0]
    else JoinCommas(pieces[..|pieces| - 1]) + [','] + pieces[|pieces| - 1]
  }

  /** Splitting loses nothing: putting the commas back gives the input. */
  lemma {:induction false} SplitThenJoin(s: string)
    ensures JoinCommas(SplitCommas(s)) == s
  {
    if s != [] {
      var init := s[..|s| - 1];
      var c := s[|s| - 1];
      var pieces := SplitCommas(init);
      SplitThenJoin(init);
      assert s == init + [c];
      if c == ',' {
        assert (pieces + [[]])[..|pieces|] == pieces;
      } else {
        var k := |pieces| - 1;
        var r := pieces[..k] + [pieces[k] + [c]];
        if k > 0 {
          assert r[..k] == pieces[..k];
        }
      }
    }
  }

  /** Appending a character other than a comma extends the last piece. */
  lemma SplitAppendChar(s: string, c: char)
    requires c != ','
    ensures var p := SplitCommas(s); SplitCommas(s + [c]) == p[..|p| - 1] + [p[|p| - 1] + [c]]
  {
    assert (s + [c])[..|s|] == s;
  }

  /** Appending comma-free text only extends the last piece. */
  lemma {:induction false} SplitAppendPlain(s: string, q: string)
    requires ',' !in q
    ensures var p := SplitCommas(s); SplitCommas(s + q) == p[..|p| - 1] + [p[|p| - 1] + q]
  {
    var p := SplitCommas(s);
    var m := |p| - 1;
    if q == [] {
      assert s + q == s;
      assert p[m] + q == p[m];
      assert p[..m] + [p[m]] == p;
    } else {
      var q' := q[..|q| - 1];
      var c := q[|q| - 1];
      assert s + q == (s + q') + [c];
      SplitAppendPlain(s, q');
      var ip := p[..m] + [p[m] + q'];
      SplitAppendChar(s + q', c);
      assert ip[..m] == p[..m];
      assert p[m] + q' + [c] == p[m] + q;
    }
  }

  /** A trailing comma opens a new, empty piece. */
  lemma SplitAfterComma(s: string)
    ensures SplitCommas(s + [',']) == SplitCommas(s) + [[]]
  {
    assert (s + [','])[..|s|] == s;
  }

  /** Comma-free pieces survive a join followed by a split. */
  lemma {:induction false} JoinThenSplit(pieces: seq<string>)
    requires |pieces| >= 1
    requires forall piece | piece in pieces :: ',' !in piece
    ensures SplitCommas(JoinCommas(pieces)) == pieces
  {
    var n := |pieces|;
    if n == 1 {
      SplitAppendPlain([], pieces[0]);
      assert [] + pieces[0] == pieces[0];
    } else {
      var init := pieces[..n - 1];
      var q := pieces[n - 1];
      assert pieces == init + [q];
      assert forall piece | piece in init :: piece in pieces;
      assert q in pieces;
      JoinThenSplit(init);
      var j := JoinCommas(init) + [','];
      SplitAfterComma(JoinCommas(init));
      assert JoinCommas(pieces) == j + q;
      SplitAppendPlain(j, q);
      assert (init + [[]])[..n - 1] == init;
      assert [] + q == q;
    }
  }

  // ---------------------------------------------------------------------------
  // str.strip()

  /** `s.lstrip()`. */
  function TrimStart(s: string): (r: string)
    ensures |r| <= |s|
  {
    if s != [] && IsSpace(s[0]) then TrimStart(s[1..]) else s
  }

  /** `s.rstrip()`. */
  function TrimEnd(s: string): (r: string)
    ensures |r| <= |s|
  {
    if s != [] && IsSpace(s[|s| - 1]) then TrimEnd(s[..|s| - 1]) else s
  }

  lemma {:induction false} TrimStartShape(s: string)
    ensures var r := TrimStart(s);
      r == s[|s| - |r|..] && AllSpace(s[..|s| - |r|]) && (r != [] ==> !IsSpace(r[0]))
  {
    if s != [] && IsSpace(s[0]) {
      TrimStartShape(s[1..]);
    }
  }

  lemma {:induction false} TrimEndShape(s: string)
    ensures var r := TrimEnd(s);
      r == s[..|r|] && AllSpace(s[|r|..]) && (r != [] ==> !IsSpace(r[|r| - 1]))
  {
    if s != [] && IsSpace(s[|s| - 1]) {
      var init := s[..|s| - 1];
      TrimEndShape(init);
      var n := |TrimEnd(init)|;
      assert s[n..] == init[n..] + [s[|s| - 1]];
      assert s[..n] == init[..n];
    }
  }

  /** `s.strip()`. */
  function Strip(s: string): (r: string)
    ensures r != [] ==> !IsSpace(r[0]) && !IsSpace(r[|r| - 1])
  {
    TrimStartShape(s);
    TrimEndShape(TrimStart(s));
    TrimEnd(TrimStart(s))
  }

  /** What the strip removed is whitespace on both sides of the result, which is a slice of `s`. */
  ghost predicate StrippedAt(s: string, r: string, i: int)
  {
    0 <= i <= |s| - |r| && s[i..i + |r|] == r && AllSpace(s[..i]) && AllSpace(s[i + |r|..])
  }

  lemma StripShape(s: string) returns (i: int)
    ensures StrippedAt(s, Strip(s), i)
  {
    var t := TrimStart(s);
    TrimStartShape(s);
    TrimEndShape(t);
    i := |s| - |t|;
    assert s[i..] == t;
    assert s[i..i + |Strip(s)|] == t[..|Strip(s)|];
  }

  lemma StripOfPlain(s: string)
    requires ',' !in s
    ensures ',' !in Strip(s)
  {
    var i := StripShape(s);
    var r := Strip(s);
    assert forall k | 0 <= k < |r| :: r[k] == s[i + k];
  }

  // ---------------------------------------------------------------------------
  // Cleaning

  /** `[p.strip() for p in pieces if p.strip()]`. */
  function CleanPieces(pieces: seq<string>): (names: seq<string>)
    ensures |names| <= |pieces|
  {
    if pieces == [] then []
    else
      var rest := CleanPieces(pieces[..|pieces| - 1]);
      var t := Strip(pieces[|pieces| - 1]);
      if t != [] then rest + [t] else rest
  }

  /** A name as the cleaning hands it on: non-empty, no comma, no surrounding whitespace. */
  predicate IsCleanName(x: string)
  {
    x != [] && !IsSpace(x[0]) && !IsSpace(x[|x| - 1]) && ',' !in x
  }

  /** The comprehension of menu option 4, and what the folder loop computes. */
  function CleanNames(input: string): (names: seq<string>)
    ensures forall x | x in names :: IsCleanName(x)
  {
    var pieces := SplitCommas(input);
    SplitCommasPlain(input);
    CleanPiecesClean(pieces);
    CleanPieces(pieces)
  }

  lemma {:induction false} SplitCommasPlain(s: string)
    ensures forall piece | piece in SplitCommas(s) :: ',' !in piece
  {
    if s != [] {
      SplitCommasPlain(s[..|s| - 1]);
    }
  }

  lemma {:induction false} CleanPiecesClean(pieces: seq<string>)
    requires forall piece | piece in pieces :: ',' !in piece
    ensures forall x | x in CleanPieces(pieces) :: IsCleanName(x)
  {
    if pieces != [] {
      var init := pieces[..|pieces| - 1];
      assert forall piece | piece in init :: piece in pieces;
      CleanPiecesClean(init);
      StripOfPlain(pieces[|pieces| - 1]);
    }
  }

  /** A name is kept exactly when it is the non-empty strip of some piece. */
  lemma {:induction false} CleanPiecesMembers(pieces: seq<string>, x: string)
    ensures x in CleanPieces(pieces) <==> x != [] && exists p | p in pieces :: Strip(p) == x
  {
    if pieces != [] {
      var init := pieces[..|pieces| - 1];
      var last := pieces[|pieces| - 1];
      CleanPiecesMembers(init, x);
      assert pieces == init + [last];
      if x != [] && (exists p | p in pieces :: Strip(p) == x) {
        var p :| p in pieces && Strip(p) == x;
        assert p in init || p == last;
      }
    }
  }

  /** Cleaning keeps input order: it distributes over concatenation. */
  lemma {:induction false} CleanPiecesAppend(a: seq<string>, b: seq<string>)
    ensures CleanPieces(a + b) == CleanPieces(a) + CleanPieces(b)
  {
    if b == [] {
      assert a + b == a;
    } else {
      var b' := b[..|b| - 1];
      CleanPiecesAppend(a, b');
      assert (a + b)[..|a + b| - 1] == a + b';
      assert (a + b)[|a + b| - 1] == b[|b| - 1];
    }
  }

  /** The folder loop: split on commas, strip each piece, keep the non-empty ones. */
  method ParseFolderList(input: string) returns (folders: seq<Path>)
    ensures folders == CleanNames(input)
    ensures forall f | f in folders :: IsCleanName(f)
  {
    folders := [];
    var pieces := SplitCommas(input);
    for i := 0 to |pieces|
      invariant folders == CleanPieces(pieces[..i])
    {
      assert pieces[..i + 1][..i] == pieces[..i];
      var f := Strip(pieces[i]);
      if f != [] {
        folders := folders + [f];
      }
    }
    assert pieces[..|pieces|] == pieces;
  }

  // ---------------------------------------------------------------------------
  // Directory validation

  /** The entries of `folders` that are directories, in order. */
  function Directories(e: Entries, folders: seq<Path>): (valid: seq<Path>)
    ensures forall f | f in valid :: f in folders && IsDirectory(e, f)
  {
    if folders == [] then []
    else
      var rest := Directories(e, folders[..|folders| - 1]);
      var f := folders[|folders| - 1];
      if IsDirectory(e, f) then rest + [f] else rest
  }

  /** The entries of `folders` reported as not found, in order. */
  function NotFound(e: Entries, folders: seq<Path>): (rejected: seq<Path>)
    ensures forall f | f in rejected :: f in folders && !IsDirectory(e, f)
  {
    if folders == [] then []
    else
      var rest := NotFound(e, folders[..|folders| - 1]);
      var f := folders[|folders| - 1];
      if IsDirectory(e, f) then rest else rest + [f]
  }

  /** Every entry lands on exactly one side, with its multiplicity. */
  lemma {:induction false} ValidationPartitions(e: Entries, folders: seq<Path>)
    ensures multiset(Directories(e, folders)) + multiset(NotFound(e, folders)) == multiset(folders)
  {
    if folders != [] {
      var init := folders[..|folders| - 1];
      var f := folders[|folders| - 1];
      ValidationPartitions(e, init);
      assert folders == init + [f];
    }
  }

  /** A folder is kept exactly when it is a directory; the scan starts only when some folder is one. */
  lemma {:induction false} ValidationKeepsDirectories(e: Entries, folders: seq<Path>)
    ensures forall f | f in folders :: f in Directories(e, folders) <==> IsDirectory(e, f)
    ensures Directories(e, folders) == [] <==> forall f | f in folders :: !IsDirectory(e, f)
  {
    if folders != [] {
      var init := folders[..|folders| - 1];
      var f := folders[|folders| - 1];
      ValidationKeepsDirectories(e, init);
      assert folders == init + [f];
    }
  }

  /** The validation loop: directories are kept, every other entry is reported. */
  method ValidateFolders(fs: FileSystem, folders: seq<Path>) returns (valid: seq<Path>, rejected: seq<Path>)
    ensures valid == Directories(fs.entries, folders)
    ensures rejected == NotFound(fs.entries, folders)
  {
    valid, rejected := [], [];
    for i := 0 to |folders|
      invariant valid == Directories(fs.entries, folders[..i])
      invariant rejected == NotFound(fs.entries, folders[..i])
    {
      assert folders[..i + 1][..i] == folders[..i];
      var folder := folders[i];
      if !IsDirectory(fs.entries, folder) {
        rejected := rejected + [folder];
      } else {
        valid := valid + [folder];
      }
    }
    assert folders[..|folders|] == folders;
  }
}
