/**
 * The filesystem as the script sees it: a map from path to a node that is
 * either a directory or a file, with an optional modification time (None when
 * `os.path.getmtime` would raise) and a flag saying that `os.remove` is refused
 * (permission denied, file in use). Paths are joined and split the way
 * Python's `posixpath` does it.
 */
module FileSystems {
  import opened Common

  const Sep: char := '/'

  datatype Node = Node(isDir: bool, mtime: Option<int>, locked: bool)

  type Entries = map<Path, Node>

  /** `os.path.join(root, name)`: an absolute `name` replaces `root`; otherwise a separator is inserted when `root` lacks one. */
  function Join(root: Path, name: string): (p: Path)
    ensures |name| <= |p| && p[|p| - |name|..] == name
  {
    if |name| > 0 && name[0] == Sep then name
    else if root == [] || root[|root| - 1] == Sep then root + name
    else root + [Sep] + name
  }

  /** `os.path.basename(p)`: the longest separator-free suffix of `p`. */
  function BaseName(p: Path): (name: string)
    ensures Sep !in name
    ensures |name| <= |p| && p[|p| - |name|..] == name
    ensures |name| < |p| ==> p[|p| - |name| - 1] == Sep
  {
    if p == [] || p[|p| - 1] == Sep then []
    else BaseName(p[..|p| - 1]) + [p[|p| - 1]]
  }

  lemma {:induction false} BaseNameAfterSeparator(prefix: Path, name: string)
    requires prefix == [] || prefix[|prefix| - 1] == Sep
    requires Sep !in name
    ensures BaseName(prefix + name) == name
  {
    if name != [] {
      var init := name[..|name| - 1];
      assert (prefix + name)[..|prefix + name| - 1] == prefix + init;
      BaseNameAfterSeparator(prefix, init);
      assert name == init + [name[|name| - 1]];
    } else {
      assert prefix + name == prefix;
    }
  }

  /** The key under which a walked file is indexed is the base name of the path stored for it. */
  lemma BaseNameOfJoin(root: Path, name: string)
    requires Sep !in name
    ensures BaseName(Join(root, name)) == name
  {
    if root == [] || root[|root| - 1] == Sep {
      BaseNameAfterSeparator(root, name);
    } else {
      BaseNameAfterSeparator(root + [Sep], name);
      assert root + [Sep] + name == (root + [Sep]) + name;
    }
  }

  /** `os.path.isdir`. */
  predicate IsDirectory(e: Entries, p: Path)
  {
    p in e && e[p].isDir
  }

  /** `os.path.exists`. */
  predicate Exists(e: Entries, p: Path)
  {
    p in e
  }

  /** `os.path.getmtime`: None stands for the exception it raises. */
  function MTime(e: Entries, p: Path): Option<int>
  {
    if p in e then e[p].mtime else None
  }

  datatype RemoveError = NotFound | IsADirectory | PermissionDenied

  datatype RemoveOutcome = Deleted | Failed(reason: RemoveError)

  /** `os.remove(p)` succeeds exactly on an existing, unlocked, non-directory path. */
  predicate Removable(e: Entries, p: Path)
  {
    p in e && !e[p].isDir && !e[p].locked
  }

  /** The effect of one `os.remove(p)` on the filesystem, and what it reports. */
  function RemoveFile(e: Entries, p: Path): (r: (Entries, RemoveOutcome))
    ensures r.1 == Deleted <==> Removable(e, p)
    ensures r.1 == Failed(NotFound) <==> p !in e
    ensures r.0.Keys == if Removable(e, p) then e.Keys - {p} else e.Keys
    ensures forall q | q in r.0 :: r.0[q] == e[q]
  {
    if p !in e then (e, Failed(NotFound))
    else if e[p].isDir then (e, Failed(IsADirectory))
    else if e[p].locked then (e, Failed(PermissionDenied))
    else (e - {p}, Deleted)
  }

  /** The one piece of state the core changes: the files on disk. */
  class FileSystem {
    var entries: Entries

    constructor (initial: Entries)
      ensures entries == initial
    {
      entries := initial;
    }

    /** `os.remove(p)`, with its exception turned into a `Failed` outcome. */
    method Remove(p: Path) returns (outcome: RemoveOutcome)
      modifies this
      ensures (entries, outcome) == RemoveFile(old(entries), p)
      ensures outcome == Deleted <==> Removable(old(entries), p)
      ensures entries.Keys == if outcome == Deleted then old(entries).Keys - {p} else old(entries).Keys
    {
      if p !in entries {
        outcome := Failed(NotFound);
      } else if entries[p].isDir {
        outcome := Failed(IsADirectory);
      } else if entries[p].locked {
        outcome := Failed(PermissionDenied);
      } else {
        entries := entries - {p};
        outcome := Deleted;
      }
    }
  }
}
