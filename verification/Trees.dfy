/** Directory trees as values, and the inventory of one. */
module Trees {
  import opened Prelude
  import opened Paths

  const INSTALLATION_FILE: string := ".impossible-voice-installation.json"

  datatype Node = File(content: seq<Byte>) | Dir | Link | Special

  type Path = seq<string>

  /** What is at and below one directory entry, by relative path; the entry itself is at the empty path. */
  type Tree = map<Path, Node>

  const EMPTY_DIR: Tree := map[[] := Dir]

  function Parent(p: Path): Path
    requires |p| > 0
  {
    p[..|p| - 1]
  }

  /** Everything lies in a directory. */
  ghost predicate WellFormed(t: Tree) {
    && [] in t && (t[[]].Dir? || t[[]].File?)
    && forall p :: p in t && |p| > 0 ==> AreNames(p) && Parent(p) in t && t[Parent(p)] == Dir
  }

  predicate FileAt(t: Tree, p: Path) {
    p in t && t[p].File?
  }

  /** `create_dir_all`. */
  function MkdirAll(t: Tree, p: Path): Option<Tree>
    decreases |p|
  {
    if p in t then if t[p] == Dir then Some(t) else None
    else if |p| == 0 then None
    else
      match MkdirAll(t, Parent(p))
      case None => None
      case Some(up) => Some(up[p := Dir])
  }

  /** `create_new`: fails if anything has that name. */
  function CreateNew(t: Tree, p: Path): Option<Tree> {
    if p !in t && |p| > 0 && Parent(p) in t && t[Parent(p)] == Dir then Some(t[p := File([])]) else None
  }

  lemma {:induction false} MkdirAllAdds(t: Tree, p: Path)
    requires WellFormed(t) && AreNames(p) && MkdirAll(t, p).Some?
    ensures var made := MkdirAll(t, p).value;
            && WellFormed(made)
            && p in made && made[p] == Dir
            && (forall q :: q in t ==> q in made && made[q] == t[q])
            && (forall q :: q in made && q !in t ==> made[q] == Dir)
    decreases |p|
  {
    if p !in t {
      MkdirAllAdds(t, Parent(p));
    }
  }

  // ---- The file system's answers

  /** Any operation on the file system may fail; each takes one tick of an arbitrary schedule. */
  class Io {
    const fails: nat -> bool
    var ticks: nat

    constructor (fails: nat -> bool, ticks: nat)
      ensures this.fails == fails && this.ticks == ticks
    {
      this.fails, this.ticks := fails, ticks;
    }

    /** No operation in this stretch of time failed. */
    ghost predicate Clean(from: nat, to: nat) {
      forall n: nat :: from <= n < to ==> !fails(n)
    }

    method Try() returns (ok: bool)
      modifies this
      ensures ticks == old(ticks) + 1
      ensures ok <==> Clean(old(ticks), ticks)
    {
      ok := !fails(ticks);
      ticks := ticks + 1;
    }

    /** `Path::exists`, which answers no when it cannot tell. */
    method Exists(present: bool) returns (seen: bool)
      modifies this
      ensures ticks == old(ticks) + 1
      ensures seen <==> present && Clean(old(ticks), ticks)
    {
      var ok := Try();
      seen := present && ok;
    }

    /** Reading a file to its end, piece by piece. */
    method ReadAll(content: seq<Byte>) returns (r: Option<seq<Byte>>)
      modifies this
      ensures ticks >= old(ticks)
      ensures r == if Clean(old(ticks), ticks) then Some(content) else None
    {
      var data: seq<Byte> := [];
      while true
        invariant |data| <= |content| && data == content[..|data|]
        invariant ticks >= old(ticks) && Clean(old(ticks), ticks)
        decreases |content| - |data|
      {
        var ok := Try();
        if !ok {
          return None;
        }
        if |data| == |content| {
          assert content[..|content|] == content;
          return Some(data);
        }
        var next := if |content| - |data| <= READ_BUFFER then |content| else |data| + READ_BUFFER;
        data := data + content[|data|..next];
      }
    }
  }

  const READ_BUFFER: nat := 64 * 1024

  // ---- Inventory

  function DisplayName(p: Path): string {
    Slashed(Join(p))
  }

  predicate Plain(node: Node) {
    node.File? || node.Dir?
  }

  /** The files of a tree, by name, except the installation marker. */
  ghost function FileNames(t: Tree): set<string> {
    set p | p in t && t[p].File? && DisplayName(p) != INSTALLATION_FILE :: DisplayName(p)
  }

  /** Every entry of a tree is a file or a directory. */
  ghost predicate AllPlain(t: Tree) {
    [] in t && t[[]] == Dir && forall p :: p in t ==> Plain(t[p])
  }

  predicate IsChild(t: Tree, directory: Path, p: Path) {
    p in t && |p| > 0 && Parent(p) == directory
  }

  /** These are the subdirectories of a directory, each once. */
  ghost predicate Subdirectories(t: Tree, directory: Path, directories: seq<Path>) {
    && (forall p :: p in directories <==> IsChild(t, directory, p) && t[p] == Dir)
    && (forall i, j :: 0 <= i < j < |directories| ==> directories[i] != directories[j])
  }

  /** Whether a directory holds nothing but files and directories. */
  ghost predicate PlainChildren(t: Tree, directory: Path) {
    forall p :: IsChild(t, directory, p) ==> Plain(t[p])
  }

  /** The entries of a directory already looked at, those still to come, and what has been found. */
  ghost predicate Listing(t: Tree, directory: Path, left: set<Path>, directories: seq<Path>, files: set<string>) {
    var seen := Children(t, directory) - left;
    && left <= Children(t, directory)
    && (forall p :: p in seen ==> Plain(t[p]))
    && (forall p :: p in directories <==> p in seen && t[p] == Dir)
    && (forall i, j :: 0 <= i < j < |directories| ==> directories[i] != directories[j])
    && files == set p | p in seen && t[p].File? && DisplayName(p) != INSTALLATION_FILE :: DisplayName(p)
  }

  function Children(t: Tree, directory: Path): (children: set<Path>)
    ensures forall p :: p in children ==> p in t
  {
    set p | p in t && IsChild(t, directory, p)
  }

  lemma NothingListed(t: Tree, directory: Path)
    ensures Listing(t, directory, Children(t, directory), [], {})
  {
  }

  lemma AllListed(t: Tree, directory: Path, directories: seq<Path>, files: set<string>)
    requires Listing(t, directory, {}, directories, files)
    ensures PlainChildren(t, directory) && Subdirectories(t, directory, directories) && files == ChildFiles(t, directory)
  {
    hide DisplayName;
    assert forall p :: IsChild(t, directory, p) <==> p in Children(t, directory) - {};
  }

  lemma ListOne(t: Tree, directory: Path, left: set<Path>, directories: seq<Path>, files: set<string>, p: Path)
    requires Listing(t, directory, left, directories, files) && p in left && p in t
    ensures t[p] == Dir ==> Listing(t, directory, left - {p}, directories + [p], files)
    ensures t[p].File? ==>
              Listing(t, directory, left - {p}, directories,
                      if DisplayName(p) != INSTALLATION_FILE then files + {DisplayName(p)} else files)
    ensures !Plain(t[p]) ==> !PlainChildren(t, directory)
  {
    hide DisplayName;
    var children := Children(t, directory);
    assert children - (left - {p}) == (children - left) + {p};
    assert p !in children - left && IsChild(t, directory, p);
  }

  /**
   * One directory: its subdirectories and the names of its files, or nothing if it holds something else or could not
   * be read.
   */
  method ReadDirectory(t: Tree, directory: Path, io: Io) returns (r: Option<(seq<Path>, set<string>)>)
    modifies io
    ensures io.ticks >= old(io.ticks)
    ensures r.Some? <==> PlainChildren(t, directory) && io.Clean(old(io.ticks), io.ticks)
    ensures r.Some? ==> Subdirectories(t, directory, r.value.0) && r.value.1 == ChildFiles(t, directory)
  {
    hide DisplayName, Listing, PlainChildren, Subdirectories, ChildFiles, Children;
    var listed := io.Try();
    if !listed {
      return None;
    }
    var left := Children(t, directory);
    var directories: seq<Path> := [];
    var files: set<string> := {};
    NothingListed(t, directory);
    while left != {}
      invariant Listing(t, directory, left, directories, files) && forall p :: p in left ==> p in t
      invariant io.ticks >= old(io.ticks) && io.Clean(old(io.ticks), io.ticks)
      decreases |left|
    {
      var p :| p in left;
      ListOne(t, directory, left, directories, files, p);
      var readable := io.Try();
      if !readable {
        return None;
      }
      left := left - {p};
      match t[p] {
        case Link => return None;
        case Special => return None;
        case Dir => directories := directories + [p];
        case File(_) =>
          if DisplayName(p) != INSTALLATION_FILE {
            files := files + {DisplayName(p)};
          }
      }
    }
    AllListed(t, directory, directories, files);
    return Some((directories, files));
  }

  ghost function ChildFiles(t: Tree, directory: Path): set<string> {
    set p | p in t && IsChild(t, directory, p) && t[p].File? && DisplayName(p) != INSTALLATION_FILE :: DisplayName(p)
  }

  /** The directories already read, those still to be read, and the files found so far. */
  ghost predicate Explored(t: Tree, pending: seq<Path>, done: set<Path>, files: set<string>) {
    Worklist(t, pending, done) && Frontier(t, pending, done) && Clean(t, done) && files == FilesIn(t, done)
  }

  /** Every pending directory is pending once and has not been read. */
  ghost predicate Worklist(t: Tree, pending: seq<Path>, done: set<Path>) {
    && (forall i :: 0 <= i < |pending| ==> pending[i] in t && t[pending[i]] == Dir && pending[i] !in done)
    && (forall i, j :: 0 <= i < j < |pending| ==> pending[i] != pending[j])
  }

  /** A directory has been found exactly if it is the root or its parent has been read. */
  ghost predicate Frontier(t: Tree, pending: seq<Path>, done: set<Path>) {
    forall d :: d in t && t[d] == Dir ==> (d in done || d in pending <==> |d| == 0 || Parent(d) in done)
  }

  ghost predicate Clean(t: Tree, done: set<Path>) {
    forall p :: p in t && |p| > 0 && Parent(p) in done ==> Plain(t[p])
  }

  ghost function FilesIn(t: Tree, done: set<Path>): set<string> {
    set p | p in t && |p| > 0 && Parent(p) in done && t[p].File? && DisplayName(p) != INSTALLATION_FILE :: DisplayName(p)
  }

  lemma {:induction false} ReachedDirectory(t: Tree, done: set<Path>, d: Path)
    requires WellFormed(t) && d in t && t[d] == Dir
    requires forall d :: d in t && t[d] == Dir ==> (d in done <==> |d| == 0 || Parent(d) in done)
    ensures d in done
    decreases |d|
  {
    if |d| > 0 {
      ReachedDirectory(t, done, Parent(d));
    }
  }

  /** When nothing is pending, everything has been read. */
  lemma ExploredAll(t: Tree, done: set<Path>, files: set<string>)
    requires WellFormed(t) && t[[]] == Dir && Explored(t, [], done, files)
    ensures AllPlain(t) && files == FileNames(t)
  {
    hide DisplayName;
    forall p | p in t && |p| > 0
      ensures Parent(p) in done
    {
      ReachedDirectory(t, done, Parent(p));
    }
  }

  lemma NextWorklist(t: Tree, pending: seq<Path>, done: set<Path>, directory: Path, directories: seq<Path>)
    requires Worklist(t, pending + [directory], done) && Frontier(t, pending + [directory], done)
    requires Subdirectories(t, directory, directories)
    ensures Worklist(t, pending + directories, done + {directory})
    ensures directory in t && t[directory] == Dir && directory !in done
  {
    var before := pending + [directory];
    assert before[|pending|] == directory;
    assert forall i :: 0 <= i < |pending| ==> before[i] == pending[i];
    forall d | d in directories
      ensures d !in before && d !in done && d != directory && d in t && t[d] == Dir
    {
      assert Parent(d) == directory && directory !in done;
    }
    var after := pending + directories;
    forall i | 0 <= i < |after|
      ensures after[i] in t && t[after[i]] == Dir && after[i] !in done + {directory}
    {
      if i >= |pending| {
        assert after[i] in directories;
      }
    }
    forall i, j | 0 <= i < j < |after|
      ensures after[i] != after[j]
    {
      if i >= |pending| {
        assert after[i] == directories[i - |pending|] && after[j] == directories[j - |pending|];
      } else if j >= |pending| {
        assert after[j] in directories && after[i] in before;
      }
    }
  }

  lemma NextFrontier(t: Tree, pending: seq<Path>, done: set<Path>, directory: Path, directories: seq<Path>)
    requires Frontier(t, pending + [directory], done) && Subdirectories(t, directory, directories)
    ensures Frontier(t, pending + directories, done + {directory})
  {
    forall d | d in t && t[d] == Dir
      ensures d in done + {directory} || d in pending + directories <==> |d| == 0 || Parent(d) in done + {directory}
    {
      assert d in pending + [directory] <==> d in pending || d == directory;
      assert d in pending + directories <==> d in pending || d in directories;
    }
  }

  /** Reading one more directory. */
  lemma ExploreOne(t: Tree, pending: seq<Path>, done: set<Path>, files: set<string>, directory: Path,
                   directories: seq<Path>, found: set<string>)
    requires Explored(t, pending + [directory], done, files)
    requires PlainChildren(t, directory)
    requires Subdirectories(t, directory, directories)
    requires found == ChildFiles(t, directory)
    ensures Explored(t, pending + directories, done + {directory}, files + found)
    ensures directory in t && t[directory] == Dir && directory !in done
  {
    hide DisplayName, Worklist, Frontier, Subdirectories;
    NextWorklist(t, pending, done, directory, directories);
    NextFrontier(t, pending, done, directory, directories);
    assert FilesIn(t, done + {directory}) == FilesIn(t, done) + found;
  }

  /**
   * `inventory_files`: the worklist reads every directory once and ends with exactly the files of the tree, or
   * refuses it because it holds something that is neither a file nor a directory, or because a read failed.
   */
  method InventoryFiles(t: Tree, io: Io) returns (r: Option<set<string>>)
    requires WellFormed(t)
    modifies io
    ensures io.ticks >= old(io.ticks)
    ensures r == if AllPlain(t) && io.Clean(old(io.ticks), io.ticks) then Some(FileNames(t)) else None
  {
    hide WellFormed, Explored, DisplayName, FileNames, Subdirectories, PlainChildren, AllPlain;
    HasRoot(t);
    if t[[]] != Dir {
      return None;
    }
    var pending: seq<Path> := [[]];
    var files: set<string> := {};
    ghost var done: set<Path> := {};
    ghost var directories := set d | d in t && t[d] == Dir;
    NothingExplored(t);
    while |pending| > 0
      invariant Explored(t, pending, done, files) && done <= directories
      invariant io.ticks >= old(io.ticks) && io.Clean(old(io.ticks), io.ticks)
      decreases |directories - done|
    {
      var directory := pending[|pending| - 1];
      var rest := pending[..|pending| - 1];
      assert pending == rest + [directory];
      var found := ReadDirectory(t, directory, io);
      if found.None? {
        NotPlain(t, directory);
        return None;
      }
      ExploreOne(t, rest, done, files, directory, found.value.0, found.value.1);
      assert directory in directories - done;
      pending := rest + found.value.0;
      files := files + found.value.1;
      done := done + {directory};
    }
    assert pending == [];
    ExploredAll(t, done, files);
    return Some(files);
  }

  lemma NotPlain(t: Tree, directory: Path)
    ensures !PlainChildren(t, directory) ==> !AllPlain(t)
  {
  }

  lemma HasRoot(t: Tree)
    requires WellFormed(t)
    ensures [] in t && (AllPlain(t) ==> t[[]] == Dir)
  {
  }

  lemma NothingExplored(t: Tree)
    requires WellFormed(t) && t[[]] == Dir
    ensures Explored(t, [[]], {}, {})
  {
  }
}
