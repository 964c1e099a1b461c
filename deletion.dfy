/**
 * The deletion executor behind menu options 2 and 4: for each group, decide
 * which copy to keep and try `os.remove` on every other path, each removal in
 * its own `try`, each group in an outer `try` that skips the group when its
 * modification times cannot be read.
 */
module Deletion {
  import opened Common
  import opened FileSystems
  import opened Indexer
  import opened Retention

  /** One `os.remove(path)` in its own `try`: the path and what became of it. */
  datatype Attempt = Attempt(path: Path, outcome: RemoveOutcome)

  /** What the executor reports for one group: the kept path and the removals tried, or why the group was skipped. */
  datatype GroupReport =
    | Cleaned(name: string, keep: Path, attempts: seq<Attempt>)
    | Skipped(name: string, failure: GroupFailure)

  // ---------------------------------------------------------------------------
  // Specification of the loops

  /** `for path in to_delete: try: os.remove(path) except: ...` on the entries `e`. */
  function RemoveEach(e: Entries, ps: seq<Path>): (r: (Entries, seq<Attempt>))
    ensures |r.1| == |ps|
  {
    if ps == [] then (e, [])
    else
      var n := |ps| - 1;
      var before := RemoveEach(e, ps[..n]);
      var step := RemoveFile(before.0, ps[n]);
      (step.0, before.1 + [Attempt(ps[n], step.1)])
  }

  /** The outer `try` for one group: decide, then remove every path scheduled for deletion. */
  function CleanGroup(e: Entries, name: string, paths: seq<Path>): (Entries, GroupReport)
  {
    match Decide(e, paths)
    case Err(f) => (e, Skipped(name, f))
    case Ok(d) =>
      var r := RemoveEach(e, d.remove);
      (r.0, Cleaned(name, d.keep, r.1))
  }

  /** The same group cleaned with the script's own slicing, `paths_sorted[1:]`. */
  function CleanGroupAsWritten(e: Entries, name: string, paths: seq<Path>): (Entries, GroupReport)
  {
    match DecideAsWritten(e, paths)
    case Err(f) => (e, Skipped(name, f))
    case Ok(d) =>
      var r := RemoveEach(e, d.remove);
      (r.0, Cleaned(name, d.keep, r.1))
  }

  /** The loop over the requested names; a name that is not a key of `duplicates` is passed over. */
  function CleanNamed(e: Entries, dups: FileMap, names: seq<string>): (Entries, seq<GroupReport>)
  {
    if names == [] then (e, [])
    else
      var n := |names| - 1;
      var before := CleanNamed(e, dups, names[..n]);
      if names[n] in dups.groups then
        var g := CleanGroup(before.0, names[n], dups.groups[names[n]]);
        (g.0, before.1 + [g.1])
      else before
  }

  /** The requested names that are keys of `duplicates`, in request order, repetitions kept. */
  function Requested(dups: FileMap, names: seq<string>): (r: seq<string>)
    ensures |r| <= |names|
    ensures forall x :: x in r <==> x in names && x in dups.groups
  {
    if names == [] then []
    else
      var n := |names| - 1;
      assert names == names[..n] + [names[n]];
      Requested(dups, names[..n]) + if names[n] in dups.groups then [names[n]] else []
  }

  /** The group name of each report, in order. */
  function ReportNames(rs: seq<GroupReport>): (ns: seq<string>)
    ensures |ns| == |rs| && forall i | 0 <= i < |rs| :: ns[i] == rs[i].name
  {
    seq(|rs|, i requires 0 <= i < |rs| => rs[i].name)
  }

  /** `p` belongs to the group of one of the requested names. */
  predicate InNamedGroups(dups: FileMap, names: seq<string>, p: Path)
  {
    exists n | n in names && n in dups.groups :: p in dups.groups[n]
  }

  // ---------------------------------------------------------------------------
  // Properties of the removal loop

  /**
   * Every scheduled path is tried, in order, whatever became of the previous
   * ones; a path disappears exactly when it is scheduled and removable, and
   * nothing else changes.
   */
  lemma {:induction false} RemoveEachShape(e: Entries, ps: seq<Path>)
    ensures forall i | 0 <= i < |ps| :: RemoveEach(e, ps).1[i].path == ps[i]
    ensures forall p :: p in RemoveEach(e, ps).0 <==> p in e && !(p in ps && Removable(e, p))
    ensures forall p | p in RemoveEach(e, ps).0 :: RemoveEach(e, ps).0[p] == e[p]
  {
    if ps != [] {
      var n := |ps| - 1;
      RemoveEachShape(e, ps[..n]);
      assert ps == ps[..n] + [ps[n]];
    }
  }

  /** Tries already made are not revisited by later ones. */
  lemma {:induction false} RemoveEachPrefix(e: Entries, ps: seq<Path>, k: nat)
    requires k <= |ps|
    ensures RemoveEach(e, ps[..k]).1 == RemoveEach(e, ps).1[..k]
  {
    RemoveEachShape(e, ps);
    if k < |ps| {
      var n := |ps| - 1;
      assert ps[..n][..k] == ps[..k];
      RemoveEachPrefix(e, ps[..n], k);
      RemoveEachShape(e, ps[..n]);
    } else {
      assert ps[..k] == ps;
    }
  }

  /** The i-th try acts on the entries left by the tries before it. */
  lemma RemoveEachStep(e: Entries, ps: seq<Path>, i: nat)
    requires i < |ps|
    ensures RemoveEach(e, ps).1[i].outcome == RemoveFile(RemoveEach(e, ps[..i]).0, ps[i]).1
  {
    RemoveEachPrefix(e, ps, i + 1);
    assert ps[..i + 1][..i] == ps[..i];
  }

  /** A removal succeeds exactly when its path was removable to begin with and was not listed before. */
  lemma RemoveEachOutcome(e: Entries, ps: seq<Path>, i: nat)
    requires i < |ps|
    ensures RemoveEach(e, ps).1[i].outcome == Deleted <==> Removable(e, ps[i]) && ps[i] !in ps[..i]
  {
    RemoveEachStep(e, ps, i);
    var state := RemoveEach(e, ps[..i]).0;
    RemoveEachShape(e, ps[..i]);
    var p := ps[i];
    assert p in state <==> p in e && !(p in ps[..i] && Removable(e, p));
    assert p in state ==> state[p] == e[p];
  }

  // ---------------------------------------------------------------------------
  // Properties of one group

  /**
   * A skipped group leaves the files as they were; a cleaned one keeps its
   * kept path, removes only removable paths of the group other than it, and
   * nothing outside the group changes.
   */
  lemma CleanGroupEffect(e: Entries, name: string, paths: seq<Path>)
    ensures CleanGroup(e, name, paths).1.name == name
    ensures CleanGroup(e, name, paths).1.Skipped? ==> CleanGroup(e, name, paths).0 == e
    ensures CleanGroup(e, name, paths).1.Cleaned? ==>
      var keep := CleanGroup(e, name, paths).1.keep;
      keep in paths && keep in CleanGroup(e, name, paths).0 &&
      forall p :: p in CleanGroup(e, name, paths).0 <==> p in e && (p == keep || p !in paths || !Removable(e, p))
    ensures forall p | p in CleanGroup(e, name, paths).0 :: CleanGroup(e, name, paths).0[p] == e[p]
  {
    if Decide(e, paths).Ok? {
      var d := Decide(e, paths).value;
      DecisionCoversGroup(e, paths);
      RemoveEachShape(e, d.remove);
      var k := KeepIsNewest(e, paths);
      assert MTime(e, paths[k]).Some?;
    }
  }

  // ---------------------------------------------------------------------------
  // Properties of the loop over groups

  /** Files outside the requested groups are untouched, and no file is created or altered. */
  lemma {:induction false} CleanNamedFrame(e: Entries, dups: FileMap, names: seq<string>)
    ensures forall p | p in CleanNamed(e, dups, names).0 :: p in e && CleanNamed(e, dups, names).0[p] == e[p]
    ensures forall p | p in e && !InNamedGroups(dups, names, p) :: p in CleanNamed(e, dups, names).0
  {
    if names != [] {
      var n := |names| - 1;
      var init := names[..n];
      CleanNamedFrame(e, dups, init);
      forall p | InNamedGroups(dups, init, p) ensures InNamedGroups(dups, names, p) {
        var m :| m in init && m in dups.groups && p in dups.groups[m];
        assert m in names;
      }
      if names[n] in dups.groups {
        var before := CleanNamed(e, dups, init);
        CleanGroupEffect(before.0, names[n], dups.groups[names[n]]);
        forall p | p in e && !InNamedGroups(dups, names, p)
          ensures p in CleanNamed(e, dups, names).0
        {
          assert p !in dups.groups[names[n]];
        }
      }
    }
  }

  /** The reports name the requested keys of `duplicates` one for one, in request order. */
  lemma {:induction false} CleanNamedOrder(e: Entries, dups: FileMap, names: seq<string>)
    ensures ReportNames(CleanNamed(e, dups, names).1) == Requested(dups, names)
  {
    if names != [] {
      var n := |names| - 1;
      var init := names[..n];
      CleanNamedOrder(e, dups, init);
      var before := CleanNamed(e, dups, init);
      if names[n] in dups.groups {
        var g := CleanGroup(before.0, names[n], dups.groups[names[n]]);
        CleanGroupEffect(before.0, names[n], dups.groups[names[n]]);
        assert ReportNames(before.1 + [g.1]) == ReportNames(before.1) + [names[n]];
      }
    }
  }

  /**
   * One report per requested name that is a key of `duplicates`, in request
   * order, each naming its group: a skipped group does not stop the later ones.
   */
  lemma {:induction false} CleanNamedReports(e: Entries, dups: FileMap, names: seq<string>)
    ensures ReportNames(CleanNamed(e, dups, names).1) == Requested(dups, names)
    ensures forall i | 0 <= i < |CleanNamed(e, dups, names).1| ::
      var r := CleanNamed(e, dups, names).1[i];
      r.name in names && r.name in dups.groups && (r.Cleaned? ==> r.keep in dups.groups[r.name])
    ensures (forall n | n in names :: n !in dups.groups) ==> CleanNamed(e, dups, names) == (e, [])
  {
    CleanNamedOrder(e, dups, names);
    if names != [] {
      var n := |names| - 1;
      var init := names[..n];
      CleanNamedReports(e, dups, init);
      var before := CleanNamed(e, dups, init);
      if names[n] in dups.groups {
        CleanGroupEffect(before.0, names[n], dups.groups[names[n]]);
      }
      forall i | 0 <= i < |CleanNamed(e, dups, names).1|
        ensures CleanNamed(e, dups, names).1[i].name in names
      {
        if i < |before.1| {
          assert before.1[i].name in init;
        }
      }
    }
  }

  /** Paths of different groups differ: they are named after different keys. */
  lemma GroupsDisjoint(dups: FileMap, a: string, b: string, p: Path)
    requires KeyedByBaseName(dups)
    requires a in dups.groups && b in dups.groups && a != b && p in dups.groups[a]
    ensures p !in dups.groups[b]
  {
    assert BaseName(p) == a;
  }

  /**
   * With every group named after its key and no name requested twice, the
   * file kept for each cleaned group is still there when the loop ends.
   */
  lemma {:induction false} KeepersSurvive(e: Entries, dups: FileMap, names: seq<string>)
    requires KeyedByBaseName(dups) && Distinct(names)
    ensures forall i | 0 <= i < |CleanNamed(e, dups, names).1| && CleanNamed(e, dups, names).1[i].Cleaned? ::
      CleanNamed(e, dups, names).1[i].keep in CleanNamed(e, dups, names).0
  {
    if names != [] {
      var n := |names| - 1;
      var init := names[..n];
      var before := CleanNamed(e, dups, init);
      assert Distinct(init);
      KeepersSurvive(e, dups, init);
      CleanNamedReports(e, dups, init);
      if names[n] in dups.groups {
        var paths := dups.groups[names[n]];
        var g := CleanGroup(before.0, names[n], paths);
        CleanGroupEffect(before.0, names[n], paths);
        forall i | 0 <= i < |before.1| && before.1[i].Cleaned? ensures before.1[i].keep in g.0 {
          var r := before.1[i];
          assert r.name in init;
          assert r.name != names[n];
          GroupsDisjoint(dups, r.name, names[n], r.keep);
        }
      }
    }
  }

  /** With no path listed twice, the script's slicing and the corrected decision clean a group alike. */
  lemma CleanGroupAgreesOnDistinct(e: Entries, name: string, paths: seq<Path>)
    requires Distinct(paths)
    ensures CleanGroupAsWritten(e, name, paths) == CleanGroup(e, name, paths)
  {
    AsWrittenAgreesOnDistinct(e, paths);
  }

  /** A folder entered twice: as written, the only copy of `/a/x` is removed; with the correction it is kept. */
  lemma AsWrittenLosesOnlyCopy()
    ensures var e := map["/a/x" := Node(false, Some(7), false)];
            var paths := ["/a/x", "/a/x"];
            CleanGroupAsWritten(e, "x", paths).1.Cleaned? && "/a/x" !in CleanGroupAsWritten(e, "x", paths).0 &&
            CleanGroup(e, "x", paths).1.Cleaned? && "/a/x" in CleanGroup(e, "x", paths).0
  {
    var e := map["/a/x" := Node(false, Some(7), false)];
    var paths: seq<Path> := ["/a/x", "/a/x"];
    AsWrittenDeletesKeptFile();
    RemoveEachShape(e, ["/a/x"]);
    CleanGroupEffect(e, "x", paths);
    DecideFailure(e, paths);
  }

  // ---------------------------------------------------------------------------
  // The executor

  /** The removal loop over `to_delete`. */
  method RemoveOlderCopies(fs: FileSystem, toDelete: seq<Path>) returns (attempts: seq<Attempt>)
    modifies fs
    ensures (fs.entries, attempts) == RemoveEach(old(fs.entries), toDelete)
  {
    attempts := [];
    for i := 0 to |toDelete|
      invariant (fs.entries, attempts) == RemoveEach(old(fs.entries), toDelete[..i])
    {
      assert toDelete[..i + 1][..i] == toDelete[..i];
      var outcome := fs.Remove(toDelete[i]);
      attempts := attempts + [Attempt(toDelete[i], outcome)];
    }
    assert toDelete[..|toDelete|] == toDelete;
  }

  /** The body of the outer `try` for one group: sort, keep the head, remove the rest. */
  method CleanOneGroup(fs: FileSystem, name: string, paths: seq<Path>) returns (report: GroupReport)
    modifies fs
    ensures (fs.entries, report) == CleanGroup(old(fs.entries), name, paths)
  {
    var decision := Decide(fs.entries, paths);
    if decision.Err? {
      report := Skipped(name, decision.error);
    } else {
      var attempts := RemoveOlderCopies(fs, decision.value.remove);
      report := Cleaned(name, decision.value.keep, attempts);
    }
  }

  /** Menu option 2: every group of `duplicates`, in insertion order. */
  method DeleteAllDuplicates(fs: FileSystem, duplicates: FileMap) returns (reports: seq<GroupReport>)
    requires Valid(duplicates)
    modifies fs
    ensures (fs.entries, reports) == CleanNamed(old(fs.entries), duplicates, duplicates.keys)
  {
    reports := DeleteNamedDuplicates(fs, duplicates, duplicates.keys);
  }

  /** Menu option 4: the groups of the names typed by the user, in the order typed; unknown names are passed over. */
  method DeleteNamedDuplicates(fs: FileSystem, duplicates: FileMap, fileNames: seq<string>) returns (reports: seq<GroupReport>)
    modifies fs
    ensures (fs.entries, reports) == CleanNamed(old(fs.entries), duplicates, fileNames)
  {
    reports := [];
    for i := 0 to |fileNames|
      invariant (fs.entries, reports) == CleanNamed(old(fs.entries), duplicates, fileNames[..i])
    {
      assert fileNames[..i + 1][..i] == fileNames[..i];
      var name := fileNames[i];
      if name in duplicates.groups {
        var report := CleanOneGroup(fs, name, duplicates.groups[name]);
        reports := reports + [report];
      }
    }
    assert fileNames[..|fileNames|] == fileNames;
  }
}
