/**
 * The duplicate indexer: the walk over every valid folder is folded into
 * `file_map`, an insertion-ordered dict from base name to the list of paths
 * where that name was seen, and `duplicates` keeps the names seen more than once.
 */
module Indexer {
  import opened Common
  import opened FileSystems

  /** One tuple yielded by `os.walk`: the directory visited and the names of the files in it (the sub-directory list is unused). */
  datatype WalkStep = WalkStep(root: Path, files: seq<string>)

  /** One walked file: the name it is indexed under and the path stored for it. */
  datatype FileEntry = FileEntry(name: string, path: Path)

  /** A Python dict from name to list of paths: `keys` is its insertion order. */
  datatype FileMap = FileMap(keys: seq<string>, groups: map<string, seq<Path>>)

  ghost predicate Valid(m: FileMap)
  {
    Distinct(m.keys) && (forall k :: k in m.groups <==> k in m.keys)
  }

  /** The entry stands for one of the files listed in the step. */
  predicate FromStep(e: FileEntry, step: WalkStep)
  {
    e.name in step.files && e.path == Join(step.root, e.name)
  }

  // ---------------------------------------------------------------------------
  // The order in which the triple loop visits files

  function StepEntries(root: Path, files: seq<string>): seq<FileEntry>
  {
    if files == [] then []
    else
      var f := files[|files| - 1];
      StepEntries(root, files[..|files| - 1]) + [FileEntry(f, Join(root, f))]
  }

  lemma {:induction false} StepEntryOrigin(root: Path, files: seq<string>, e: FileEntry)
    requires e in StepEntries(root, files)
    ensures e.name in files && e.path == Join(root, e.name)
  {
    var init := files[..|files| - 1];
    if e in StepEntries(root, init) {
      StepEntryOrigin(root, init, e);
      assert e.name in init;
    }
  }

  function WalkEntries(steps: seq<WalkStep>): seq<FileEntry>
  {
    if steps == [] then []
    else
      var step := steps[|steps| - 1];
      WalkEntries(steps[..|steps| - 1]) + StepEntries(step.root, step.files)
  }

  /** Every file of every walked folder, in the order the script visits them. */
  function ScanEntries(folders: seq<Path>, walk: Path -> seq<WalkStep>): seq<FileEntry>
  {
    if folders == [] then []
    else
      var f := folders[|folders| - 1];
      ScanEntries(folders[..|folders| - 1], walk) + WalkEntries(walk(f))
  }

  lemma {:induction false} WalkEntryOrigin(steps: seq<WalkStep>, e: FileEntry) returns (step: WalkStep)
    requires e in WalkEntries(steps)
    ensures step in steps && FromStep(e, step)
  {
    var init := steps[..|steps| - 1];
    var last := steps[|steps| - 1];
    if e in WalkEntries(init) {
      step := WalkEntryOrigin(init, e);
    } else {
      step := last;
      StepEntryOrigin(last.root, last.files, e);
    }
  }

  /** Every indexed entry is `(f, join(root, f))` for a file `f` listed by some step of the walk of some folder. */
  lemma {:induction false} ScanEntryOrigin(folders: seq<Path>, walk: Path -> seq<WalkStep>, e: FileEntry)
    returns (folder: Path, step: WalkStep)
    requires e in ScanEntries(folders, walk)
    ensures folder in folders && step in walk(folder) && FromStep(e, step)
  {
    var init := folders[..|folders| - 1];
    var last := folders[|folders| - 1];
    if e in ScanEntries(init, walk) {
      folder, step := ScanEntryOrigin(init, walk, e);
    } else {
      folder := last;
      step := WalkEntryOrigin(walk(last), e);
    }
  }

  // ---------------------------------------------------------------------------
  // file_map

  /** `file_map[name].append(path)` on a `defaultdict(list)`. */
  function Append(m: FileMap, name: string, path: Path): FileMap
  {
    if name in m.groups then m.(groups := m.groups[name := m.groups[name] + [path]])
    else FileMap(m.keys + [name], m.groups[name := [path]])
  }

  /** `file_map` after appending every entry in turn. */
  function Index(es: seq<FileEntry>): FileMap
  {
    if es == [] then FileMap([], map[])
    else
      var e := es[|es| - 1];
      Append(Index(es[..|es| - 1]), e.name, e.path)
  }

  /** The paths of the entries called `name`, in visit order. */
  function PathsNamed(es: seq<FileEntry>, name: string): seq<Path>
  {
    if es == [] then []
    else
      var e := es[|es| - 1];
      var rest := PathsNamed(es[..|es| - 1], name);
      if e.name == name then rest + [e.path] else rest
  }

  /** The distinct names of `es`, in order of first appearance. */
  function FirstSeen(es: seq<FileEntry>): seq<string>
  {
    if es == [] then []
    else
      var e := es[|es| - 1];
      var rest := FirstSeen(es[..|es| - 1]);
      if e.name in rest then rest else rest + [e.name]
  }

  predicate Seen(es: seq<FileEntry>, name: string)
  {
    exists i | 0 <= i < |es| :: es[i].name == name
  }

  lemma {:induction false} PathsNamedMember(es: seq<FileEntry>, name: string, p: Path)
    ensures p in PathsNamed(es, name) <==> FileEntry(name, p) in es
  {
    if es != [] {
      var init := es[..|es| - 1];
      PathsNamedMember(init, name, p);
      assert es == init + [es[|es| - 1]];
    }
  }

  lemma {:induction false} FirstSeenShape(es: seq<FileEntry>)
    ensures Distinct(FirstSeen(es))
    ensures forall n :: n in FirstSeen(es) <==> Seen(es, n)
  {
    if es != [] {
      var init := es[..|es| - 1];
      var e := es[|es| - 1];
      FirstSeenShape(init);
      forall n ensures Seen(es, n) <==> Seen(init, n) || n == e.name {
        if Seen(es, n) {
          var i :| 0 <= i < |es| && es[i].name == n;
          if i < |init| {
            assert init[i].name == n;
          }
        }
        if Seen(init, n) {
          var i :| 0 <= i < |init| && init[i].name == n;
          assert es[i].name == n;
        }
        if n == e.name {
          assert es[|es| - 1].name == n;
        }
      }
    }
  }

  /** `file_map` is a well-formed dict keyed by the names in order of first appearance. */
  lemma {:induction false} IndexKeys(es: seq<FileEntry>)
    ensures Valid(Index(es))
    ensures Index(es).keys == FirstSeen(es)
  {
    if es != [] {
      IndexKeys(es[..|es| - 1]);
    }
  }

  /** The list stored under `name` is the paths of the entries called `name`, in visit order. */
  lemma {:induction false} IndexGroup(es: seq<FileEntry>, name: string)
    ensures name in Index(es).groups ==> Index(es).groups[name] == PathsNamed(es, name)
    ensures name !in Index(es).groups ==> PathsNamed(es, name) == []
  {
    if es != [] {
      IndexGroup(es[..|es| - 1], name);
    }
  }

  /** Every visited file is stored, under its own name. */
  lemma {:induction false} IndexHasEntry(es: seq<FileEntry>, e: FileEntry)
    requires e in es
    ensures e.name in Index(es).groups && e.path in Index(es).groups[e.name]
  {
    IndexGroup(es, e.name);
    PathsNamedMember(es, e.name, e.path);
    var init := es[..|es| - 1];
    if e in init {
      IndexHasEntry(init, e);
    } else {
      assert e == es[|es| - 1];
    }
  }

  /** The number of paths stored over all the given keys. */
  function TotalPaths(keys: seq<string>, groups: map<string, seq<Path>>): nat
  {
    if keys == [] then 0
    else
      var k := keys[|keys| - 1];
      TotalPaths(keys[..|keys| - 1], groups) + if k in groups then |groups[k]| else 0
  }

  lemma {:induction false} TotalPathsIgnores(keys: seq<string>, groups: map<string, seq<Path>>, n: string, v: seq<Path>)
    requires n !in keys
    ensures TotalPaths(keys, groups[n := v]) == TotalPaths(keys, groups)
  {
    if keys != [] {
      TotalPathsIgnores(keys[..|keys| - 1], groups, n, v);
    }
  }

  lemma {:induction false} TotalPathsUpdate(keys: seq<string>, groups: map<string, seq<Path>>, n: string, v: seq<Path>)
    requires Distinct(keys) && n in keys && n in groups
    ensures TotalPaths(keys, groups[n := v]) == TotalPaths(keys, groups) - |groups[n]| + |v|
  {
    var init := keys[..|keys| - 1];
    var k := keys[|keys| - 1];
    if k == n {
      assert n !in init;
      TotalPathsIgnores(init, groups, n, v);
    } else {
      TotalPathsUpdate(init, groups, n, v);
    }
  }

  /** No visited file is stored twice: the lists of `file_map` hold as many paths as there were entries. */
  lemma {:induction false} IndexCountsEveryEntry(es: seq<FileEntry>)
    ensures TotalPaths(Index(es).keys, Index(es).groups) == |es|
  {
    if es != [] {
      var init := es[..|es| - 1];
      var e := es[|es| - 1];
      var m := Index(init);
      IndexCountsEveryEntry(init);
      IndexKeys(init);
      if e.name in m.groups {
        TotalPathsUpdate(m.keys, m.groups, e.name, m.groups[e.name] + [e.path]);
      } else {
        TotalPathsIgnores(m.keys, m.groups, e.name, [e.path]);
      }
    }
  }

  /** Every stored path is named after its key: `os.path.basename` of it is the key. */
  ghost predicate KeyedByBaseName(m: FileMap)
  {
    forall n, p | n in m.groups && p in m.groups[n] :: BaseName(p) == n
  }

  /** When the walker reports plain file names (no separator), every path in `file_map` has its key as base name. */
  lemma ScanKeyedByBaseName(folders: seq<Path>, walk: Path -> seq<WalkStep>)
    requires forall e | e in ScanEntries(folders, walk) :: Sep !in e.name
    ensures KeyedByBaseName(Index(ScanEntries(folders, walk)))
  {
    var es := ScanEntries(folders, walk);
    var m := Index(es);
    forall n, p | n in m.groups && p in m.groups[n] ensures BaseName(p) == n {
      IndexGroup(es, n);
      PathsNamedMember(es, n, p);
      var folder, step := ScanEntryOrigin(folders, walk, FileEntry(n, p));
      BaseNameOfJoin(step.root, n);
    }
  }

  // ---------------------------------------------------------------------------
  // duplicates

  /** The dict comprehension over `file_map.items()` restricted to `keys`, in their order. */
  function DuplicatesOf(keys: seq<string>, groups: map<string, seq<Path>>): FileMap
  {
    if keys == [] then FileMap([], map[])
    else
      var k := keys[|keys| - 1];
      var rest := DuplicatesOf(keys[..|keys| - 1], groups);
      if k in groups && |groups[k]| > 1 then FileMap(rest.keys + [k], rest.groups[k := groups[k]]) else rest
  }

  /** `duplicates`, built from `file_map`. */
  function Duplicates(m: FileMap): FileMap
  {
    DuplicatesOf(m.keys, m.groups)
  }

  lemma {:induction false} DuplicatesOfExact(keys: seq<string>, groups: map<string, seq<Path>>)
    requires Distinct(keys)
    ensures Valid(DuplicatesOf(keys, groups))
    ensures forall k :: k in DuplicatesOf(keys, groups).groups <==> k in keys && k in groups && |groups[k]| > 1
    ensures forall k | k in DuplicatesOf(keys, groups).groups :: DuplicatesOf(keys, groups).groups[k] == groups[k]
  {
    if keys != [] {
      var init := keys[..|keys| - 1];
      assert keys == init + [keys[|keys| - 1]];
      DuplicatesOfExact(init, groups);
    }
  }

  /** `duplicates` holds exactly the names of `file_map` with more than one path, each with the same list. */
  lemma DuplicatesExact(m: FileMap)
    requires Valid(m)
    ensures Valid(Duplicates(m))
    ensures forall k :: k in Duplicates(m).groups <==> k in m.groups && |m.groups[k]| > 1
    ensures forall k | k in Duplicates(m).groups :: Duplicates(m).groups[k] == m.groups[k] && |Duplicates(m).groups[k]| >= 2
    ensures KeyedByBaseName(m) ==> KeyedByBaseName(Duplicates(m))
  {
    DuplicatesOfExact(m.keys, m.groups);
  }

  lemma {:induction false} SeenGivesPath(es: seq<FileEntry>, name: string, i: nat)
    requires i < |es| && es[i].name == name
    ensures |PathsNamed(es, name)| >= 1
  {
    var init := es[..|es| - 1];
    if i < |init| {
      assert init[i].name == name;
      SeenGivesPath(init, name, i);
    }
  }

  lemma {:induction false} TwoSeenGiveTwoPaths(es: seq<FileEntry>, name: string, i: nat, j: nat)
    requires i < j < |es| && es[i].name == name && es[j].name == name
    ensures |PathsNamed(es, name)| >= 2
  {
    var init := es[..|es| - 1];
    assert init[i].name == name;
    if j < |init| {
      assert init[j].name == name;
      TwoSeenGiveTwoPaths(init, name, i, j);
    } else {
      SeenGivesPath(init, name, i);
    }
  }

  lemma {:induction false} PathGivesSeen(es: seq<FileEntry>, name: string) returns (i: nat)
    requires |PathsNamed(es, name)| >= 1
    ensures i < |es| && es[i].name == name
  {
    var init := es[..|es| - 1];
    if es[|es| - 1].name == name {
      i := |es| - 1;
    } else {
      i := PathGivesSeen(init, name);
      assert init[i] == es[i];
    }
  }

  lemma {:induction false} TwoPathsGiveTwoSeen(es: seq<FileEntry>, name: string) returns (i: nat, j: nat)
    requires |PathsNamed(es, name)| >= 2
    ensures i < j < |es| && es[i].name == name && es[j].name == name
  {
    var init := es[..|es| - 1];
    if es[|es| - 1].name == name {
      i := PathGivesSeen(init, name);
      assert init[i] == es[i];
      j := |es| - 1;
    } else {
      i, j := TwoPathsGiveTwoSeen(init, name);
      assert init[i] == es[i] && init[j] == es[j];
    }
  }

  /** Two visited files that share a name make that name a key of `duplicates`. */
  lemma SharedNameIsDuplicate(es: seq<FileEntry>, i: nat, j: nat)
    requires i < j < |es| && es[i].name == es[j].name
    ensures es[i].name in Duplicates(Index(es)).keys
  {
    var n := es[i].name;
    var m := Index(es);
    TwoSeenGiveTwoPaths(es, n, i, j);
    IndexGroup(es, n);
    IndexKeys(es);
    DuplicatesExact(m);
  }

  /** A key of `duplicates` comes from two visited files that share a name. */
  lemma DuplicateKeyGivesSharedName(es: seq<FileEntry>) returns (i: nat, j: nat)
    requires Duplicates(Index(es)).keys != []
    ensures i < j < |es| && es[i].name == es[j].name
  {
    var m := Index(es);
    var n := Duplicates(m).keys[0];
    IndexKeys(es);
    DuplicatesExact(m);
    IndexGroup(es, n);
    i, j := TwoPathsGiveTwoSeen(es, n);
  }

  /** The scan ends with "no duplicate files" exactly when no two visited files share a name. */
  lemma NoDuplicatesIff(es: seq<FileEntry>)
    ensures Duplicates(Index(es)).keys == [] <==>
      forall i, j | 0 <= i < j < |es| :: es[i].name != es[j].name
  {
    if exists i, j | 0 <= i < j < |es| :: es[i].name == es[j].name {
      var i, j :| 0 <= i < j < |es| && es[i].name == es[j].name;
      SharedNameIsDuplicate(es, i, j);
    }
    if Duplicates(Index(es)).keys != [] {
      var i, j := DuplicateKeyGivesSharedName(es);
    }
  }

  /** A walk of a tree where `/a` holds a single file `x`. */
  function OneFileWalk(p: Path): seq<WalkStep>
  {
    if p == "/a" then [WalkStep("/a", ["x"])] else []
  }

  /** Walking `/a` visits `/a/x` only. */
  lemma OneFileWalkEntries()
    ensures WalkEntries(OneFileWalk("/a")) == [FileEntry("x", "/a/x")]
  {
    var x := FileEntry("x", "/a/x");
    assert Join("/a", "x") == "/a/x";
    var files: seq<string> := ["x"];
    assert files[..0] == [];
    assert StepEntries("/a", files) == [x];
    var steps := OneFileWalk("/a");
    assert steps[..0] == [];
  }

  /** Entering `/a` twice visits `/a/x` twice. */
  lemma RepeatedFolderScan()
    ensures ScanEntries(["/a", "/a"], OneFileWalk) == [FileEntry("x", "/a/x"), FileEntry("x", "/a/x")]
  {
    OneFileWalkEntries();
    var folders: seq<Path> := ["/a", "/a"];
    assert folders[..1][..0] == [];
    assert folders[..1] == ["/a"];
  }

  /** The same folder entered twice is walked twice: its file `x` is listed twice under `x`, which becomes a duplicate. */
  lemma RepeatedFolderRepeatsPaths()
    ensures var m := Index(ScanEntries(["/a", "/a"], OneFileWalk));
            "x" in Duplicates(m).groups && Duplicates(m).groups["x"] == ["/a/x", "/a/x"]
  {
    RepeatedFolderScan();
    var x := FileEntry("x", "/a/x");
    var es := [x, x];
    assert es[..1] == [x] && [x][..0] == [];
    assert PathsNamed([x], "x") == ["/a/x"];
    assert PathsNamed(es, "x") == ["/a/x", "/a/x"];
    IndexHasEntry(es, x);
    IndexGroup(es, "x");
    IndexKeys(es);
    DuplicatesExact(Index(es));
  }

  // ---------------------------------------------------------------------------
  // The loops

  lemma IndexSnoc(es: seq<FileEntry>, e: FileEntry)
    ensures Index(es + [e]) == Append(Index(es), e.name, e.path)
  {
    assert (es + [e])[..|es|] == es;
  }

  lemma StepEntriesSnoc(root: Path, files: seq<string>, k: nat)
    requires k < |files|
    ensures StepEntries(root, files[..k + 1]) == StepEntries(root, files[..k]) + [FileEntry(files[k], Join(root, files[k]))]
  {
    assert files[..k + 1][..k] == files[..k];
  }

  lemma WalkEntriesSnoc(steps: seq<WalkStep>, j: nat)
    requires j < |steps|
    ensures WalkEntries(steps[..j + 1]) == WalkEntries(steps[..j]) + StepEntries(steps[j].root, steps[j].files)
  {
    assert steps[..j + 1][..j] == steps[..j];
  }

  lemma ScanEntriesSnoc(folders: seq<Path>, walk: Path -> seq<WalkStep>, i: nat)
    requires i < |folders|
    ensures ScanEntries(folders[..i + 1], walk) == ScanEntries(folders[..i], walk) + WalkEntries(walk(folders[i]))
  {
    assert folders[..i + 1][..i] == folders[..i];
  }

  /** One more file of the current step, as seen by the innermost loop. */
  lemma IndexStepSnoc(before: seq<FileEntry>, root: Path, files: seq<string>, k: nat)
    requires k < |files|
    ensures Index(before + StepEntries(root, files[..k + 1]))
         == Append(Index(before + StepEntries(root, files[..k])), files[k], Join(root, files[k]))
  {
    StepEntriesSnoc(root, files, k);
    var e := FileEntry(files[k], Join(root, files[k]));
    var prior := StepEntries(root, files[..k]);
    assert before + (prior + [e]) == (before + prior) + [e];
    IndexSnoc(before + prior, e);
  }

  /** One more step of the current walk, as seen by the middle loop. */
  lemma WalkStepSnoc(done: seq<FileEntry>, steps: seq<WalkStep>, j: nat)
    requires j < |steps|
    ensures done + WalkEntries(steps[..j]) + StepEntries(steps[j].root, steps[j].files)
         == done + WalkEntries(steps[..j + 1])
  {
    WalkEntriesSnoc(steps, j);
  }

  /** The triple loop over folders, walk steps and file names that fills `file_map`. */
  method BuildFileMap(folders: seq<Path>, walk: Path -> seq<WalkStep>) returns (fileMap: FileMap)
    ensures fileMap == Index(ScanEntries(folders, walk))
    ensures Valid(fileMap)
    ensures forall e | e in ScanEntries(folders, walk) :: e.name in fileMap.groups && e.path in fileMap.groups[e.name]
  {
    fileMap := FileMap([], map[]);
    for i := 0 to |folders|
      invariant fileMap == Index(ScanEntries(folders[..i], walk))
    {
      ghost var done := ScanEntries(folders[..i], walk);
      var steps := walk(folders[i]);
      assert done + WalkEntries(steps[..0]) == done;
      for j := 0 to |steps|
        invariant fileMap == Index(done + WalkEntries(steps[..j]))
      {
        ghost var before := done + WalkEntries(steps[..j]);
        var step := steps[j];
        assert before + StepEntries(step.root, step.files[..0]) == before;
        for k := 0 to |step.files|
          invariant fileMap == Index(before + StepEntries(step.root, step.files[..k]))
        {
          IndexStepSnoc(before, step.root, step.files, k);
          var f := step.files[k];
          var path := Join(step.root, f);
          if f in fileMap.groups {
            fileMap := fileMap.(groups := fileMap.groups[f := fileMap.groups[f] + [path]]);
          } else {
            fileMap := FileMap(fileMap.keys + [f], fileMap.groups[f := [path]]);
          }
        }
        assert step.files[..|step.files|] == step.files;
        WalkStepSnoc(done, steps, j);
      }
      assert steps[..|steps|] == steps;
      ScanEntriesSnoc(folders, walk, i);
    }
    assert folders[..|folders|] == folders;
    ghost var visited := ScanEntries(folders, walk);
    IndexKeys(visited);
    forall e | e in visited ensures e.name in fileMap.groups && e.path in fileMap.groups[e.name] {
      IndexHasEntry(visited, e);
    }
  }

  /** The loop that copies the names with more than one path into `duplicates`. */
  method FindDuplicates(fileMap: FileMap) returns (duplicates: FileMap)
    requires Valid(fileMap)
    ensures duplicates == Duplicates(fileMap)
    ensures Valid(duplicates)
    ensures forall k :: k in duplicates.groups <==> k in fileMap.groups && |fileMap.groups[k]| > 1
    ensures forall k | k in duplicates.groups :: duplicates.groups[k] == fileMap.groups[k]
  {
    duplicates := FileMap([], map[]);
    for i := 0 to |fileMap.keys|
      invariant duplicates == DuplicatesOf(fileMap.keys[..i], fileMap.groups)
    {
      assert fileMap.keys[..i + 1][..i] == fileMap.keys[..i];
      var f := fileMap.keys[i];
      var paths := fileMap.groups[f];
      if |paths| > 1 {
        duplicates := FileMap(duplicates.keys + [f], duplicates.groups[f := paths]);
      }
    }
    assert fileMap.keys[..|fileMap.keys|] == fileMap.keys;
    DuplicatesExact(fileMap);
  }
}
