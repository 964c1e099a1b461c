/**
 * Menu option 3: the rows handed to the spreadsheet writer, and the choice of
 * a file name that does not overwrite an earlier export
 * (`duplicate_files.xlsx`, then `duplicate_files(1).xlsx`, `(2)`, ...).
 */
module Export {
  import opened Common
  import opened FileSystems
  import opened Indexer

  /** The "Last Modified" cell: the modification time, or "N/A" when it cannot be read. */
  datatype TimeCell = Modified(time: int) | NotAvailable

  /** One row: "File Name", "Directory", "Last Modified". */
  datatype Record = Record(fileName: string, directory: Path, lastModified: TimeCell)

  // ---------------------------------------------------------------------------
  // The rows

  function Cell(e: Entries, p: Path): (c: TimeCell)
    ensures c == NotAvailable <==> MTime(e, p) == None
    ensures c.Modified? ==> MTime(e, p) == Some(c.time)
  {
    match MTime(e, p)
    case None => NotAvailable
    case Some(t) => Modified(t)
  }

  /** The rows of one group, in list order. */
  function GroupRecords(e: Entries, name: string, paths: seq<Path>): (rs: seq<Record>)
    ensures |rs| == |paths|
  {
    if paths == [] then []
    else
      var n := |paths| - 1;
      GroupRecords(e, name, paths[..n]) + [Record(name, paths[n], Cell(e, paths[n]))]
  }

  /** The rows of the groups under `keys`, group after group. */
  function RecordsOf(e: Entries, keys: seq<string>, groups: map<string, seq<Path>>): seq<Record>
  {
    if keys == [] then []
    else
      var n := |keys| - 1;
      var k := keys[n];
      RecordsOf(e, keys[..n], groups) + if k in groups then GroupRecords(e, k, groups[k]) else []
  }

  /** `export_data` for `duplicates`, in its insertion order. */
  function Records(e: Entries, dups: FileMap): seq<Record>
  {
    RecordsOf(e, dups.keys, dups.groups)
  }

  /** Row `i` of a group names the group, its i-th path and that path's time cell. */
  lemma {:induction false} GroupRecordAt(e: Entries, name: string, paths: seq<Path>, i: nat)
    requires i < |paths|
    ensures GroupRecords(e, name, paths)[i] == Record(name, paths[i], Cell(e, paths[i]))
  {
    var n := |paths| - 1;
    if i < n {
      GroupRecordAt(e, name, paths[..n], i);
    }
  }

  lemma GroupRecordMember(e: Entries, name: string, paths: seq<Path>, r: Record)
    ensures r in GroupRecords(e, name, paths) <==>
      r.fileName == name && r.directory in paths && r.lastModified == Cell(e, r.directory)
  {
    var rs := GroupRecords(e, name, paths);
    if r in rs {
      var i :| 0 <= i < |rs| && rs[i] == r;
      GroupRecordAt(e, name, paths, i);
    }
    if r.fileName == name && r.directory in paths && r.lastModified == Cell(e, r.directory) {
      var i :| 0 <= i < |paths| && paths[i] == r.directory;
      GroupRecordAt(e, name, paths, i);
    }
  }

  /** One row per stored path: the export holds exactly as many rows as `duplicates` holds paths. */
  lemma {:induction false} RecordsCount(e: Entries, keys: seq<string>, groups: map<string, seq<Path>>)
    ensures |RecordsOf(e, keys, groups)| == TotalPaths(keys, groups)
  {
    if keys != [] {
      RecordsCount(e, keys[..|keys| - 1], groups);
    }
  }

  /** A row is in the export exactly when it names a group, one of its paths, and that path's time or "N/A". */
  lemma {:induction false} RecordsOfMember(e: Entries, keys: seq<string>, groups: map<string, seq<Path>>, r: Record)
    ensures r in RecordsOf(e, keys, groups) <==>
      r.fileName in keys && r.fileName in groups && r.directory in groups[r.fileName] && r.lastModified == Cell(e, r.directory)
  {
    if keys != [] {
      var n := |keys| - 1;
      var k := keys[n];
      RecordsOfMember(e, keys[..n], groups, r);
      assert keys == keys[..n] + [k];
      if k in groups {
        GroupRecordMember(e, k, groups[k], r);
      }
    }
  }

  lemma RecordsMember(e: Entries, dups: FileMap, r: Record)
    requires Valid(dups)
    ensures r in Records(e, dups) <==>
      r.fileName in dups.groups && r.directory in dups.groups[r.fileName] && r.lastModified == Cell(e, r.directory)
  {
    RecordsOfMember(e, dups.keys, dups.groups, r);
  }

  /** One more row of the current group, as seen by the inner loop. */
  lemma GroupRecordsSnoc(done: seq<Record>, e: Entries, name: string, paths: seq<Path>, j: nat)
    requires j < |paths|
    ensures done + GroupRecords(e, name, paths[..j + 1])
         == done + GroupRecords(e, name, paths[..j]) + [Record(name, paths[j], Cell(e, paths[j]))]
  {
    assert paths[..j + 1][..j] == paths[..j];
  }

  /** One more group, as seen by the outer loop. */
  lemma RecordsOfSnoc(e: Entries, keys: seq<string>, groups: map<string, seq<Path>>, i: nat)
    requires i < |keys| && keys[i] in groups
    ensures RecordsOf(e, keys[..i + 1], groups) == RecordsOf(e, keys[..i], groups) + GroupRecords(e, keys[i], groups[keys[i]])
  {
    assert keys[..i + 1][..i] == keys[..i];
  }

  /** The nested loop that fills `export_data`. */
  method BuildExportRecords(fs: FileSystem, duplicates: FileMap) returns (exportData: seq<Record>)
    requires Valid(duplicates)
    ensures exportData == Records(fs.entries, duplicates)
    ensures |exportData| == TotalPaths(duplicates.keys, duplicates.groups)
  {
    exportData := [];
    var keys := duplicates.keys;
    for i := 0 to |keys|
      invariant exportData == RecordsOf(fs.entries, keys[..i], duplicates.groups)
    {
      ghost var done := exportData;
      var name := keys[i];
      var paths := duplicates.groups[name];
      assert done + GroupRecords(fs.entries, name, paths[..0]) == done;
      for j := 0 to |paths|
        invariant exportData == done + GroupRecords(fs.entries, name, paths[..j])
      {
        GroupRecordsSnoc(done, fs.entries, name, paths, j);
        var modifiedDate := Cell(fs.entries, paths[j]);
        exportData := exportData + [Record(name, paths[j], modifiedDate)];
      }
      assert paths[..|paths|] == paths;
      RecordsOfSnoc(fs.entries, keys, duplicates.groups, i);
    }
    assert keys[..|keys|] == keys;
    RecordsCount(fs.entries, keys, duplicates.groups);
  }

  // ---------------------------------------------------------------------------
  // Decimal numerals, as `str` writes a counter

  function DigitChar(d: nat): char
    requires d < 10
  {
    ('0' as int + d) as char
  }

  predicate IsDigit(c: char)
  {
    '0' <= c <= '9'
  }

  /** `str(n)` for a non-negative integer: decimal digits, most significant first. */
  function NatToString(n: nat): (s: string)
    ensures |s| >= 1
    ensures forall i | 0 <= i < |s| :: IsDigit(s[i])
  {
    if n < 10 then [DigitChar(n)]
    else NatToString(n / 10) + [DigitChar(n % 10)]
  }

  /** The number a string of decimal digits denotes. */
  function DigitsValue(s: string): nat
    requires forall i | 0 <= i < |s| :: IsDigit(s[i])
  {
    if s == [] then 0
    else
      assert IsDigit(s[|s| - 1]);
      DigitsValue(s[..|s| - 1]) * 10 + (s[|s| - 1] as int - '0' as int)
  }

  /** Reading the numeral back gives the number: distinct counters give distinct names. */
  lemma {:induction false} NatToStringRoundTrip(n: nat)
    ensures DigitsValue(NatToString(n)) == n
  {
    if n >= 10 {
      var s := NatToString(n);
      NatToStringRoundTrip(n / 10);
      assert s[..|s| - 1] == NatToString(n / 10);
    }
  }

  function Pow10(k: nat): (p: nat)
    ensures p >= 1
  {
    if k == 0 then 1 else 10 * Pow10(k - 1)
  }

  lemma {:induction false} Pow10Monotone(j: nat, k: nat)
    requires j <= k
    ensures Pow10(j) <= Pow10(k)
  {
    if j < k {
      Pow10Monotone(j, k - 1);
    }
  }

  /** A numeral with `d` digits denotes a number below `10^d`. */
  lemma {:induction false} NatToStringBound(n: nat)
    ensures n < Pow10(|NatToString(n)|)
  {
    if n >= 10 {
      NatToStringBound(n / 10);
      var d := |NatToString(n / 10)|;
      assert |NatToString(n)| == d + 1;
      assert n / 10 + 1 <= Pow10(d);
      assert n < 10 * (n / 10 + 1);
    }
  }

  // ---------------------------------------------------------------------------
  // The export file name

  const BaseFileName: string := "duplicate_files.xlsx"

  /** `f"duplicate_files({counter}).xlsx"`. */
  function NumberedFileName(counter: nat): (name: string)
    ensures |name| >= |NatToString(counter)|
  {
    "duplicate_files(" + NatToString(counter) + ").xlsx"
  }

  /** The k-th path tried: the base name first, then the numbered ones. */
  function Candidate(cwd: Path, k: nat): Path
  {
    if k == 0 then Join(cwd, BaseFileName) else Join(cwd, NumberedFileName(k))
  }

  /** `k` is where the search stops: its candidate is free and every earlier one exists. */
  predicate IsFirstFree(e: Entries, cwd: Path, k: nat)
  {
    !Exists(e, Candidate(cwd, k)) && forall j | 0 <= j < k :: Exists(e, Candidate(cwd, j))
  }

  /** Some length bounds every path of a finite set. */
  lemma LengthBound(s: set<Path>) returns (bound: nat)
    ensures forall p | p in s :: |p| <= bound
  {
    if s == {} {
      bound := 0;
    } else {
      var y :| y in s;
      var rest := LengthBound(s - {y});
      bound := if |y| > rest then |y| else rest;
    }
  }

  /** A candidate that exists has a counter with no more digits than the longest existing path. */
  lemma ExistingCandidateBounded(e: Entries, cwd: Path, k: nat, bound: nat)
    requires forall p | p in e :: |p| <= bound
    requires Candidate(cwd, k) in e
    ensures k < Pow10(bound)
  {
    if k > 0 {
      NatToStringBound(k);
      Pow10Monotone(|NatToString(k)|, bound);
    }
  }

  /** The `while os.path.exists(export_path)` loop: the first candidate that does not exist. */
  method ChooseExportPath(fs: FileSystem, cwd: Path) returns (exportPath: Path, ghost k: nat)
    ensures !Exists(fs.entries, exportPath)
    ensures exportPath == Candidate(cwd, k)
    ensures IsFirstFree(fs.entries, cwd, k)
  {
    var basePath := Join(cwd, BaseFileName);
    exportPath := basePath;
    var counter := 1;
    ghost var longest := LengthBound(fs.entries.Keys);
    ghost var limit := Pow10(longest);
    while Exists(fs.entries, exportPath)
      invariant 1 <= counter <= limit + 1
      invariant exportPath == Candidate(cwd, counter - 1)
      invariant forall j | 0 <= j < counter - 1 :: Candidate(cwd, j) in fs.entries
      decreases limit + 1 - counter
    {
      ExistingCandidateBounded(fs.entries, cwd, counter - 1, longest);
      assert Candidate(cwd, counter) == Join(cwd, NumberedFileName(counter));
      forall j | 0 <= j < counter ensures Candidate(cwd, j) in fs.entries {
        if j == counter - 1 {
          assert Candidate(cwd, j) == exportPath;
        }
      }
      exportPath := Join(cwd, NumberedFileName(counter));
      counter := counter + 1;
    }
    k := counter - 1;
  }
}
