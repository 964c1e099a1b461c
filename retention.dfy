/**
 * Which copy of a duplicate group is kept: the paths are sorted by
 * modification time, newest first (`sorted(paths, key=getmtime, reverse=True)`,
 * a stable sort), the head is kept and the tail is to be deleted. Reading a
 * modification time can fail; the exception escapes `sorted` and the whole
 * group is skipped.
 */
module Retention {
  import opened Common
  import opened FileSystems

  /** A path of the group with its sort key and its position in the list. */
  datatype Stamped = Stamped(index: nat, path: Path, time: int)

  /** Why a group is not processed: a modification time could not be read, or there was no path to keep. */
  datatype GroupFailure = Unreadable(path: Path) | NoPaths

  /** The file to keep and the files to delete. */
  datatype Decision = Decision(keep: Path, remove: seq<Path>)

  // ---------------------------------------------------------------------------
  // The key pass of `sorted`

  /** `getmtime` applied to every path in list order; the first path whose time cannot be read aborts the pass. */
  function Stamp(e: Entries, paths: seq<Path>): (r: Result<seq<Stamped>, Path>)
    ensures r.Ok? ==> |r.value| == |paths|
    ensures r.Err? ==> r.error in paths && MTime(e, r.error) == None
  {
    if paths == [] then Ok([])
    else
      var n := |paths| - 1;
      match Stamp(e, paths[..n])
      case Err(p) => Err(p)
      case Ok(rest) =>
        match MTime(e, paths[n])
        case None => Err(paths[n])
        case Some(t) => Ok(rest + [Stamped(n, paths[n], t)])
  }

  /** On success, position `i` carries the i-th path and its readable time. */
  lemma {:induction false} StampAt(e: Entries, paths: seq<Path>, i: nat)
    requires Stamp(e, paths).Ok? && i < |paths|
    ensures MTime(e, paths[i]).Some?
    ensures Stamp(e, paths).value[i] == Stamped(i, paths[i], MTime(e, paths[i]).value)
  {
    var n := |paths| - 1;
    if i < n {
      StampAt(e, paths[..n], i);
    }
  }

  /** When every time can be read, the key pass succeeds. */
  lemma {:induction false} StampSucceeds(e: Entries, paths: seq<Path>)
    requires forall i | 0 <= i < |paths| :: MTime(e, paths[i]).Some?
    ensures Stamp(e, paths).Ok?
  {
    if paths != [] {
      var n := |paths| - 1;
      StampSucceeds(e, paths[..n]);
    }
  }

  /** A failure names the first path of the list whose time cannot be read. */
  lemma {:induction false} StampFailsFirst(e: Entries, paths: seq<Path>) returns (k: nat)
    requires Stamp(e, paths).Err?
    ensures k < |paths| && paths[k] == Stamp(e, paths).error
    ensures MTime(e, paths[k]) == None
    ensures forall j | 0 <= j < k :: MTime(e, paths[j]).Some?
  {
    var n := |paths| - 1;
    if Stamp(e, paths[..n]).Err? {
      k := StampFailsFirst(e, paths[..n]);
      assert paths[..n][k] == paths[k];
      forall j | 0 <= j < k ensures MTime(e, paths[j]).Some? {
        assert paths[..n][j] == paths[j];
      }
    } else {
      k := n;
      forall j | 0 <= j < k ensures MTime(e, paths[j]).Some? {
        StampAt(e, paths[..n], j);
        assert paths[..n][j] == paths[j];
      }
    }
  }

  // ---------------------------------------------------------------------------
  // The stable sort, newest first

  /** `a` may precede `b` in the sorted list: it is newer, or equally new and earlier in the input. */
  predicate Before(a: Stamped, b: Stamped)
  {
    a.time > b.time || (a.time == b.time && a.index <= b.index)
  }

  predicate Sorted(s: seq<Stamped>)
  {
    forall i, j | 0 <= i < j < |s| :: Before(s[i], s[j])
  }

  /** Inserts `x` in front of the first element it may precede. */
  function Insert(x: Stamped, s: seq<Stamped>): (r: seq<Stamped>)
    ensures multiset(r) == multiset(s) + multiset{x}
  {
    if s == [] || Before(x, s[0]) then [x] + s
    else
      assert s == [s[0]] + s[1..];
      [s[0]] + Insert(x, s[1..])
  }

  /** Newest first, ties in input order: what `sorted(..., reverse=True)` returns. */
  function SortNewestFirst(s: seq<Stamped>): (r: seq<Stamped>)
    ensures multiset(r) == multiset(s)
  {
    if s == [] then []
    else
      assert s == [s[0]] + s[1..];
      Insert(s[0], SortNewestFirst(s[1..]))
  }

  lemma {:induction false} InsertSorted(x: Stamped, s: seq<Stamped>)
    requires Sorted(s)
    ensures Sorted(Insert(x, s))
  {
    if s == [] || Before(x, s[0]) {
    } else {
      var t := Insert(x, s[1..]);
      InsertSorted(x, s[1..]);
      forall k | 0 <= k < |t| ensures Before(s[0], t[k]) {
        assert t[k] in multiset(t);
        if t[k] != x {
          assert t[k] in multiset(s[1..]);
          var m :| 0 <= m < |s[1..]| && s[1..][m] == t[k];
          assert s[m + 1] == t[k];
        }
      }
    }
  }

  /** The result is in newest-first order, ties in input order. */
  lemma {:induction false} SortSorted(s: seq<Stamped>)
    ensures Sorted(SortNewestFirst(s))
  {
    if s != [] {
      SortSorted(s[1..]);
      InsertSorted(s[0], SortNewestFirst(s[1..]));
    }
  }

  lemma {:induction false} InsertDistinct(x: Stamped, s: seq<Stamped>)
    requires Distinct(s) && x !in s
    ensures Distinct(Insert(x, s))
  {
    if s == [] || Before(x, s[0]) {
    } else {
      var t := Insert(x, s[1..]);
      InsertDistinct(x, s[1..]);
      forall k | 0 <= k < |t| ensures t[k] != s[0] {
        assert t[k] in multiset(t);
        if t[k] != x {
          assert t[k] in multiset(s[1..]);
          var m :| 0 <= m < |s[1..]| && s[1..][m] == t[k];
          assert s[m + 1] == t[k];
        }
      }
    }
  }

  /** Sorting a list without repetitions yields one without repetitions. */
  lemma {:induction false} SortDistinct(s: seq<Stamped>)
    requires Distinct(s)
    ensures Distinct(SortNewestFirst(s))
  {
    if s != [] {
      SortDistinct(s[1..]);
      assert s[0] !in multiset(s[1..]);
      InsertDistinct(s[0], SortNewestFirst(s[1..]));
    }
  }

  // ---------------------------------------------------------------------------
  // Keep the head, delete the tail

  function PathsOf(s: seq<Stamped>): (ps: seq<Path>)
    ensures |ps| == |s| && forall i | 0 <= i < |s| :: ps[i] == s[i].path
  {
    seq(|s|, i requires 0 <= i < |s| => s[i].path)
  }

  /** The list without the occurrences of `x`. */
  function Without(ps: seq<Path>, x: Path): (r: seq<Path>)
    ensures forall p :: p in r <==> p in ps && p != x
    ensures |r| <= |ps|
  {
    if ps == [] then []
    else
      var rest := Without(ps[..|ps| - 1], x);
      assert ps == ps[..|ps| - 1] + [ps[|ps| - 1]];
      if ps[|ps| - 1] == x then rest else rest + [ps[|ps| - 1]]
  }

  lemma {:induction false} WithoutAbsent(ps: seq<Path>, x: Path)
    requires x !in ps
    ensures Without(ps, x) == ps
  {
    if ps != [] {
      WithoutAbsent(ps[..|ps| - 1], x);
      assert ps == ps[..|ps| - 1] + [ps[|ps| - 1]];
    }
  }

  /** The group's paths sorted newest first, or the path whose time could not be read. */
  function Ranked(e: Entries, paths: seq<Path>): Result<seq<Stamped>, Path>
  {
    match Stamp(e, paths)
    case Err(p) => Err(p)
    case Ok(st) => Ok(SortNewestFirst(st))
  }

  lemma PathsOfCons(x: Stamped, s: seq<Stamped>)
    ensures PathsOf([x] + s) == [x.path] + PathsOf(s)
  {
    assert PathsOf([x] + s)[1..] == PathsOf(s);
  }

  /** Inserting a stamped path adds its path to the multiset of paths. */
  lemma {:induction false} InsertPaths(x: Stamped, s: seq<Stamped>)
    ensures multiset(PathsOf(Insert(x, s))) == multiset(PathsOf(s)) + multiset{x.path}
  {
    if s == [] || Before(x, s[0]) {
      PathsOfCons(x, s);
    } else {
      assert s == [s[0]] + s[1..];
      InsertPaths(x, s[1..]);
      PathsOfCons(s[0], Insert(x, s[1..]));
      PathsOfCons(s[0], s[1..]);
    }
  }

  /** Sorting moves paths around but neither adds nor drops an occurrence. */
  lemma {:induction false} SortPaths(s: seq<Stamped>)
    ensures multiset(PathsOf(SortNewestFirst(s))) == multiset(PathsOf(s))
  {
    if s != [] {
      assert s == [s[0]] + s[1..];
      SortPaths(s[1..]);
      InsertPaths(s[0], SortNewestFirst(s[1..]));
      PathsOfCons(s[0], s[1..]);
    }
  }

  /** On success, the sorted list holds the group's paths with their multiplicities. */
  lemma RankedMultiset(e: Entries, paths: seq<Path>)
    requires Ranked(e, paths).Ok?
    ensures multiset(PathsOf(Ranked(e, paths).value)) == multiset(paths)
  {
    var st := Stamp(e, paths).value;
    forall i | 0 <= i < |paths| ensures PathsOf(st)[i] == paths[i] {
      StampAt(e, paths, i);
    }
    assert PathsOf(st) == paths;
    SortPaths(st);
  }

  /**
   * `latest = paths_sorted[0]; to_delete = paths_sorted[1:]`, as the script
   * does it: the kept path and the paths to delete are the group's paths,
   * occurrence for occurrence, so `to_delete` has one path fewer than the group.
   */
  function DecideAsWritten(e: Entries, paths: seq<Path>): (r: Result<Decision, GroupFailure>)
    ensures r.Ok? ==> multiset(r.value.remove) + multiset{r.value.keep} == multiset(paths)
    ensures r.Ok? ==> |r.value.remove| == |paths| - 1
  {
    match Ranked(e, paths)
    case Err(p) => Err(Unreadable(p))
    case Ok(sorted) =>
      if sorted == [] then Err(NoPaths)
      else
        RankedMultiset(e, paths);
        assert sorted == [sorted[0]] + sorted[1..];
        PathsOfCons(sorted[0], sorted[1..]);
        Ok(Decision(sorted[0].path, PathsOf(sorted[1..])))
  }

  /** As `DecideAsWritten`, but a second occurrence of the kept path is never scheduled for deletion. */
  function Decide(e: Entries, paths: seq<Path>): (r: Result<Decision, GroupFailure>)
    ensures r.Ok? ==> r.value.keep !in r.value.remove
  {
    match Ranked(e, paths)
    case Err(p) => Err(Unreadable(p))
    case Ok(sorted) =>
      if sorted == [] then Err(NoPaths)
      else Ok(Decision(sorted[0].path, Without(PathsOf(sorted[1..]), sorted[0].path)))
  }

  /** On success, the key pass lists the group's paths in order, each with a distinct position. */
  lemma StampDistinct(e: Entries, paths: seq<Path>)
    requires Stamp(e, paths).Ok?
    ensures Distinct(Stamp(e, paths).value)
  {
    var st := Stamp(e, paths).value;
    forall i, j | 0 <= i < j < |st| ensures st[i] != st[j] {
      StampAt(e, paths, i);
      StampAt(e, paths, j);
    }
  }

  /** An element of the sorted list is the stamped path at some position of the group. */
  lemma RankedFrom(e: Entries, paths: seq<Path>, m: nat) returns (i: nat)
    requires Ranked(e, paths).Ok? && m < |Ranked(e, paths).value|
    ensures i < |paths| && MTime(e, paths[i]).Some?
    ensures Ranked(e, paths).value[m] == Stamped(i, paths[i], MTime(e, paths[i]).value)
  {
    var st := Stamp(e, paths).value;
    var sorted := SortNewestFirst(st);
    assert sorted[m] in multiset(st);
    i :| 0 <= i < |st| && st[i] == sorted[m];
    StampAt(e, paths, i);
  }

  /** Every position of the group appears somewhere in the sorted list. */
  lemma RankedHas(e: Entries, paths: seq<Path>, i: nat) returns (m: nat)
    requires Ranked(e, paths).Ok? && i < |paths|
    ensures m < |Ranked(e, paths).value| && MTime(e, paths[i]).Some?
    ensures Ranked(e, paths).value[m] == Stamped(i, paths[i], MTime(e, paths[i]).value)
  {
    var st := Stamp(e, paths).value;
    var sorted := SortNewestFirst(st);
    StampAt(e, paths, i);
    assert st[i] in multiset(sorted);
    m :| 0 <= m < |sorted| && sorted[m] == st[i];
  }

  /** The head of the sorted list is the first path, in list order, among those with the greatest modification time. */
  lemma KeepIsNewest(e: Entries, paths: seq<Path>) returns (k: nat)
    requires Decide(e, paths).Ok?
    ensures k < |paths| && paths[k] == Decide(e, paths).value.keep
    ensures forall i | 0 <= i < |paths| :: MTime(e, paths[i]).Some?
    ensures forall i | 0 <= i < |paths| :: MTime(e, paths[i]).value <= MTime(e, paths[k]).value
    ensures forall i | 0 <= i < k :: MTime(e, paths[i]).value < MTime(e, paths[k]).value
  {
    var sorted := Ranked(e, paths).value;
    SortSorted(Stamp(e, paths).value);
    k := RankedFrom(e, paths, 0);
    forall i | 0 <= i < |paths|
      ensures MTime(e, paths[i]).Some? && MTime(e, paths[i]).value <= MTime(e, paths[k]).value
      ensures i < k ==> MTime(e, paths[i]).value < MTime(e, paths[k]).value
    {
      var m := RankedHas(e, paths, i);
      if m > 0 {
        assert Before(sorted[0], sorted[m]);
      }
    }
  }

  lemma {:induction false} PathsOfHeadTail(s: seq<Stamped>, p: Path)
    requires s != []
    ensures p in PathsOf(s) <==> p == s[0].path || p in PathsOf(s[1..])
  {
    if p in PathsOf(s) {
      var m :| 0 <= m < |s| && PathsOf(s)[m] == p;
      if m > 0 {
        assert PathsOf(s[1..])[m - 1] == p;
      }
    }
    if p in PathsOf(s[1..]) {
      var m :| 0 <= m < |s| - 1 && PathsOf(s[1..])[m] == p;
      assert PathsOf(s)[m + 1] == p;
    }
  }

  /** Sorting neither loses nor invents a path. */
  lemma RankedPaths(e: Entries, paths: seq<Path>, p: Path)
    requires Ranked(e, paths).Ok?
    ensures p in paths <==> p in PathsOf(Ranked(e, paths).value)
  {
    var sorted := Ranked(e, paths).value;
    if p in paths {
      var i :| 0 <= i < |paths| && paths[i] == p;
      var m := RankedHas(e, paths, i);
      assert PathsOf(sorted)[m] == p;
    }
    if p in PathsOf(sorted) {
      var m :| 0 <= m < |sorted| && PathsOf(sorted)[m] == p;
      var i := RankedFrom(e, paths, m);
    }
  }

  /** Every path of the group is either the kept one or scheduled for deletion, and the kept one is not. */
  lemma DecisionCoversGroup(e: Entries, paths: seq<Path>)
    requires Decide(e, paths).Ok?
    ensures Decide(e, paths).value.keep !in Decide(e, paths).value.remove
    ensures forall p :: p in paths <==> p == Decide(e, paths).value.keep || p in Decide(e, paths).value.remove
  {
    var sorted := Ranked(e, paths).value;
    forall p ensures p in paths <==> p == sorted[0].path || p in PathsOf(sorted[1..]) {
      RankedPaths(e, paths, p);
      PathsOfHeadTail(sorted, p);
    }
  }

  /** With no path listed twice, the kept path occurs only once in the sorted list. */
  lemma HeadNotInTail(e: Entries, paths: seq<Path>)
    requires Distinct(paths) && Ranked(e, paths).Ok? && Ranked(e, paths).value != []
    ensures Ranked(e, paths).value[0].path !in PathsOf(Ranked(e, paths).value[1..])
  {
    var sorted := Ranked(e, paths).value;
    StampDistinct(e, paths);
    SortDistinct(Stamp(e, paths).value);
    var tail := PathsOf(sorted[1..]);
    forall m | 0 <= m < |tail| ensures tail[m] != sorted[0].path {
      assert sorted[m + 1] != sorted[0];
      var i := RankedFrom(e, paths, 0);
      var j := RankedFrom(e, paths, m + 1);
    }
  }

  /** With no path listed twice, the correction changes nothing: one path is kept and all the others are deleted. */
  lemma AsWrittenAgreesOnDistinct(e: Entries, paths: seq<Path>)
    requires Distinct(paths)
    ensures DecideAsWritten(e, paths) == Decide(e, paths)
    ensures Decide(e, paths).Ok? ==> |Decide(e, paths).value.remove| == |paths| - 1
  {
    if Ranked(e, paths).Ok? && Ranked(e, paths).value != [] {
      var sorted := Ranked(e, paths).value;
      assert |sorted| == |multiset(sorted)| == |multiset(Stamp(e, paths).value)| == |paths|;
      HeadNotInTail(e, paths);
      WithoutAbsent(PathsOf(sorted[1..]), sorted[0].path);
    }
  }

  /** The key pass fails exactly when some path's time cannot be read; the group is then skipped, naming the first such path. */
  lemma DecideFailure(e: Entries, paths: seq<Path>)
    ensures Decide(e, paths).Err? <==> paths == [] || exists i | 0 <= i < |paths| :: MTime(e, paths[i]) == None
    ensures Decide(e, paths) == Err(NoPaths) <==> paths == []
  {
    if Stamp(e, paths).Err? {
      var k := StampFailsFirst(e, paths);
    } else {
      forall i | 0 <= i < |paths| ensures MTime(e, paths[i]).Some? {
        StampAt(e, paths, i);
      }
    }
  }

  /** A folder entered twice lists `/a/x` twice under `x`; as written, the single file is both kept and deleted. */
  lemma AsWrittenDeletesKeptFile()
    ensures var e := map["/a/x" := Node(false, Some(7), false)];
            var d := DecideAsWritten(e, ["/a/x", "/a/x"]);
            d.Ok? && d.value.keep == "/a/x" && d.value.remove == ["/a/x"]
  {
    var e := map["/a/x" := Node(false, Some(7), false)];
    var paths: seq<Path> := ["/a/x", "/a/x"];
    var p1 := paths[..1];
    assert p1 == ["/a/x"] && p1[..0] == [];
    assert MTime(e, "/a/x") == Some(7);
    assert Stamp(e, p1[..0]) == Ok([]);
    assert Stamp(e, p1) == Ok([] + [Stamped(0, "/a/x", 7)]);
    assert [] + [Stamped(0, "/a/x", 7)] == [Stamped(0, "/a/x", 7)];
    var st := [Stamped(0, "/a/x", 7), Stamped(1, "/a/x", 7)];
    assert paths[1] == "/a/x";
    assert [Stamped(0, "/a/x", 7)] + [Stamped(1, "/a/x", 7)] == st;
    assert Stamp(e, paths) == Ok(st);
    assert st[1..] == [Stamped(1, "/a/x", 7)];
    assert SortNewestFirst(st[1..][1..]) == [];
    assert SortNewestFirst(st[1..]) == [Stamped(1, "/a/x", 7)];
    assert SortNewestFirst(st) == st;
  }
}
