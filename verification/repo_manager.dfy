/** `RepositoryManager`: the scan of the `modules/` directory that turns
    every sub-directory carrying an `__init__.py` into a `Repository`, and
    the lookup of a repository by name.

    The directory listing that `Path.iterdir` would produce is an input
    sequence of entry names, in whatever order the operating system
    returns them. Whether an entry is a directory and which files exist
    come from the abstract filesystem of `RepoMetadata`. */
module RepoManager {
  import opened Results
  import opened Ordering
  import opened RepoMetadata

  datatype Repository = Repository(path: Path, name: string, modules: seq<string>)

  /** One line of the manager's log: "Directory '…' is not a repository: …". */
  datatype LogEntry = NotARepository(directory: string, error: MetadataError)

  datatype Manager = Manager(repositories: seq<Repository>, log: seq<LogEntry>)

  const PyCache: string := "__pycache__"
  const InitFile: string := "__init__.py"

  /** The last component of a repository's path: its directory name. */
  function DirName(r: Repository): string
  {
    if |r.path| == 0 then "" else r.path[|r.path| - 1]
  }

  /** `d.is_dir() and d.name != "__pycache__"`. */
  predicate IsCandidate(fs: FileSystem, root: Path, d: string)
  {
    root + [d] in fs.dirs && d != PyCache
  }

  /** The directory carries an `__init__.py`, the sign of a repository. */
  predicate Marked(fs: FileSystem, root: Path, d: string)
  {
    root + [d] + [InitFile] in fs.files
  }

  /** The list comprehension over the listing, before sorting. */
  function Candidates(fs: FileSystem, root: Path, listing: seq<string>): (ds: seq<string>)
    ensures forall d :: d in ds <==> d in listing && IsCandidate(fs, root, d)
  {
    if |listing| == 0 then []
    else if IsCandidate(fs, root, listing[0]) then [listing[0]] + Candidates(fs, root, listing[1..])
    else Candidates(fs, root, listing[1..])
  }

  /** What one pass of the loop body adds: repositories that loaded, and
      one log entry per directory whose metadata was rejected. */
  datatype Outcome = Outcome(repositories: seq<Repository>, entries: seq<LogEntry>)

  /** The `for directory in found_dirs` loop over the remaining directories. */
  function Visit(fs: FileSystem, root: Path, dirs: seq<string>): (o: Outcome)
    ensures |o.repositories| + |o.entries| <= |dirs|
  {
    if |dirs| == 0 then Outcome([], [])
    else
      var rest := Visit(fs, root, dirs[1..]);
      var path := root + [dirs[0]];
      if path + [InitFile] !in fs.files then rest
      else
        match SetFacts(fs, path)
        case Found(name, modules) => Outcome([Repository(path, name, modules)] + rest.repositories, rest.entries)
        case Invalid(e) => Outcome(rest.repositories, [NotARepository(dirs[0], e)] + rest.entries)
        case Unnamed => assert false; rest
  }

  /** `RepositoryManager.refresh`: the repository list is replaced, the log
      is only appended to. */
  function Refresh(m: Manager, fs: FileSystem, root: Path, listing: seq<string>): (r: Manager)
    ensures |m.log| <= |r.log| && r.log[..|m.log|] == m.log
  {
    var o := Visit(fs, root, Sort(Candidates(fs, root, listing)));
    Manager(o.repositories, m.log + o.entries)
  }

  /** `RepositoryManager.__init__`: an empty log, then a scan. */
  function Start(fs: FileSystem, root: Path, listing: seq<string>): (r: Manager)
    ensures forall k :: 0 <= k < |r.log| ==> Marked(fs, root, r.log[k].directory)
  {
    RefreshSound(Manager([], []), fs, root, listing);
    Refresh(Manager([], []), fs, root, listing)
  }

  /** `RepositoryManager.flush_log`. */
  function FlushLog(m: Manager): (r: Manager)
    ensures r.log == [] && r.repositories == m.repositories
  {
    Manager(m.repositories, [])
  }

  // ---------------------------------------------------------------------
  // What the scan keeps and what it drops

  /** The directory loaded as a repository. */
  predicate Loads(fs: FileSystem, root: Path, d: string)
  {
    Marked(fs, root, d) && SetFacts(fs, root + [d]).Found?
  }

  /** The directory was tried and its metadata was rejected. */
  predicate Rejects(fs: FileSystem, root: Path, d: string)
  {
    Marked(fs, root, d) && SetFacts(fs, root + [d]).Invalid?
  }

  /** Every repository found comes from a marked directory among those
      visited, and holds the facts that directory's metadata gives. */
  predicate RepositoryFrom(fs: FileSystem, root: Path, dirs: seq<string>, r: Repository)
  {
    r.path == root + [DirName(r)] && DirName(r) in dirs && Marked(fs, root, DirName(r))
    && SetFacts(fs, r.path) == Found(r.name, r.modules)
  }

  predicate EntryFrom(fs: FileSystem, root: Path, dirs: seq<string>, e: LogEntry)
  {
    e.directory in dirs && Marked(fs, root, e.directory)
    && SetFacts(fs, root + [e.directory]) == Invalid(e.error)
  }

  lemma {:induction false} VisitSound(fs: FileSystem, root: Path, dirs: seq<string>)
    ensures forall r :: r in Visit(fs, root, dirs).repositories ==> RepositoryFrom(fs, root, dirs, r)
    ensures forall e :: e in Visit(fs, root, dirs).entries ==> EntryFrom(fs, root, dirs, e)
  {
    if |dirs| > 0 {
      VisitSound(fs, root, dirs[1..]);
      forall r | RepositoryFrom(fs, root, dirs[1..], r)
        ensures RepositoryFrom(fs, root, dirs, r)
      {
        assert DirName(r) in dirs[1..];
      }
      forall e | EntryFrom(fs, root, dirs[1..], e)
        ensures EntryFrom(fs, root, dirs, e)
      {
        assert e.directory in dirs[1..];
      }
      var path := root + [dirs[0]];
      assert DirName(Repository(path, "", [])) == dirs[0];
    }
  }

  /** Nothing is lost: each marked directory yields a repository or a log
      entry, and the scan goes on after a rejection. */
  lemma {:induction false} VisitComplete(fs: FileSystem, root: Path, dirs: seq<string>, d: string)
    requires d in dirs && Marked(fs, root, d)
    ensures SetFacts(fs, root + [d]).Found? ==>
      Repository(root + [d], SetFacts(fs, root + [d]).name, SetFacts(fs, root + [d]).modules) in Visit(fs, root, dirs).repositories
    ensures SetFacts(fs, root + [d]).Invalid? ==>
      NotARepository(d, SetFacts(fs, root + [d]).error) in Visit(fs, root, dirs).entries
  {
    if dirs[0] != d {
      VisitComplete(fs, root, dirs[1..], d);
    }
  }

  lemma {:induction false} VisitCounts(fs: FileSystem, root: Path, dirs: seq<string>)
    ensures |Visit(fs, root, dirs).repositories| == Count(dirs, d => Loads(fs, root, d))
    ensures |Visit(fs, root, dirs).entries| == Count(dirs, d => Rejects(fs, root, d))
  {
    if |dirs| > 0 {
      VisitCounts(fs, root, dirs[1..]);
    }
  }

  /** Visiting directories in order yields repositories in the same order. */
  lemma {:induction false} VisitSorted(fs: FileSystem, root: Path, dirs: seq<string>)
    requires Sorted(dirs)
    ensures forall i, j :: 0 <= i < j < |Visit(fs, root, dirs).repositories| ==>
      LexLe(DirName(Visit(fs, root, dirs).repositories[i]), DirName(Visit(fs, root, dirs).repositories[j]))
  {
    if |dirs| > 0 {
      SortedTail(dirs);
      VisitSorted(fs, root, dirs[1..]);
      VisitSound(fs, root, dirs[1..]);
      var rest := Visit(fs, root, dirs[1..]).repositories;
      forall j | 0 <= j < |rest|
        ensures LexLe(dirs[0], DirName(rest[j]))
      {
        assert RepositoryFrom(fs, root, dirs[1..], rest[j]);
        SortedHeadMin(dirs, DirName(rest[j]));
      }
      var path := root + [dirs[0]];
      assert DirName(Repository(path, "", [])) == dirs[0];
    }
  }

  // ---------------------------------------------------------------------
  // Properties of `refresh`

  /** Only directories of the listing that are not `__pycache__`, carry an
      `__init__.py` and load become repositories; only the ones whose
      metadata is rejected are logged. */
  lemma RefreshSound(m: Manager, fs: FileSystem, root: Path, listing: seq<string>)
    ensures forall r :: r in Refresh(m, fs, root, listing).repositories ==>
      DirName(r) in listing && IsCandidate(fs, root, DirName(r)) && RepositoryFrom(fs, root, listing, r)
    ensures forall k :: |m.log| <= k < |Refresh(m, fs, root, listing).log| ==>
      var e := Refresh(m, fs, root, listing).log[k];
      IsCandidate(fs, root, e.directory) && EntryFrom(fs, root, listing, e)
  {
    var ds := Candidates(fs, root, listing);
    var o := Visit(fs, root, Sort(ds));
    VisitSound(fs, root, Sort(ds));
    forall d | d in Sort(ds)
      ensures d in listing && IsCandidate(fs, root, d)
    {
      SortMembers(ds, d);
    }
    forall k | |m.log| <= k < |m.log| + |o.entries|
      ensures (m.log + o.entries)[k] in o.entries
    {
      assert (m.log + o.entries)[k] == o.entries[k - |m.log|];
    }
  }

  /** Every directory of the listing that passes the two tests yields
      either its repository or exactly its log entry. */
  lemma RefreshComplete(m: Manager, fs: FileSystem, root: Path, listing: seq<string>, d: string)
    requires d in listing && IsCandidate(fs, root, d) && Marked(fs, root, d)
    ensures SetFacts(fs, root + [d]).Found? ==>
      Repository(root + [d], SetFacts(fs, root + [d]).name, SetFacts(fs, root + [d]).modules)
        in Refresh(m, fs, root, listing).repositories
    ensures SetFacts(fs, root + [d]).Invalid? ==>
      NotARepository(d, SetFacts(fs, root + [d]).error) in Refresh(m, fs, root, listing).log[|m.log|..]
  {
    var ds := Candidates(fs, root, listing);
    SortMembers(ds, d);
    VisitComplete(fs, root, Sort(ds), d);
    assert Refresh(m, fs, root, listing).log[|m.log|..] == Visit(fs, root, Sort(ds)).entries;
  }

  /** One repository per directory that loads and one new log entry per
      directory that is rejected, whatever order the listing came in. */
  lemma RefreshCounts(m: Manager, fs: FileSystem, root: Path, listing: seq<string>)
    ensures |Refresh(m, fs, root, listing).repositories|
      == Count(Candidates(fs, root, listing), d => Loads(fs, root, d))
    ensures |Refresh(m, fs, root, listing).log| - |m.log|
      == Count(Candidates(fs, root, listing), d => Rejects(fs, root, d))
  {
    var ds := Candidates(fs, root, listing);
    VisitCounts(fs, root, Sort(ds));
    CountSort(ds, d => Loads(fs, root, d));
    CountSort(ds, d => Rejects(fs, root, d));
  }

  /** The repository list is ordered by directory name. */
  lemma RefreshSorted(m: Manager, fs: FileSystem, root: Path, listing: seq<string>)
    ensures forall i, j :: 0 <= i < j < |Refresh(m, fs, root, listing).repositories| ==>
      LexLe(DirName(Refresh(m, fs, root, listing).repositories[i]),
            DirName(Refresh(m, fs, root, listing).repositories[j]))
  {
    var ds := Candidates(fs, root, listing);
    SortSpec(ds);
    VisitSorted(fs, root, Sort(ds));
  }

  /** A fresh scan does not depend on the earlier state, only the log grows. */
  lemma RefreshForgetsRepositories(m: Manager, n: Manager, fs: FileSystem, root: Path, listing: seq<string>)
    ensures Refresh(m, fs, root, listing).repositories == Refresh(n, fs, root, listing).repositories
    ensures Refresh(m, fs, root, listing).log[|m.log|..] == Refresh(n, fs, root, listing).log[|n.log|..]
  {
  }

  // ---------------------------------------------------------------------
  // get_repository

  function Find(rs: seq<Repository>, name: string): (r: Option<Repository>)
    ensures r.Some? ==> r.value in rs && r.value.name == name
    ensures r.None? <==> forall k :: 0 <= k < |rs| ==> rs[k].name != name
  {
    if |rs| == 0 then None
    else if rs[0].name == name then Some(rs[0])
    else Find(rs[1..], name)
  }

  /** `RepositoryManager.get_repository`. */
  function GetRepository(m: Manager, name: string): (r: Option<Repository>)
    ensures r.Some? ==> r.value in m.repositories && r.value.name == name
    ensures r.None? <==> forall k :: 0 <= k < |m.repositories| ==> m.repositories[k].name != name
  {
    Find(m.repositories, name)
  }

  /** The repository returned is the first one with that name. */
  lemma {:induction false} FindIsFirst(rs: seq<Repository>, name: string) returns (k: nat)
    requires Find(rs, name).Some?
    ensures k < |rs| && rs[k] == Find(rs, name).value
    ensures forall j :: 0 <= j < k ==> rs[j].name != name
  {
    if rs[0].name == name {
      k := 0;
    } else {
      var k' := FindIsFirst(rs[1..], name);
      k := k' + 1;
    }
  }

  lemma GetRepositoryIsFirst(m: Manager, name: string) returns (k: nat)
    requires GetRepository(m, name).Some?
    ensures k < |m.repositories| && m.repositories[k] == GetRepository(m, name).value
    ensures forall j :: 0 <= j < k ==> m.repositories[j].name != name
  {
    k := FindIsFirst(m.repositories, name);
  }
}
