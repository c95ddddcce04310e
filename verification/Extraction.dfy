/** Extraction of a verified archive into an empty staging directory. */
module Extraction {
  import opened Prelude
  import opened Paths
  import opened Trees
  import opened Artifacts

  const MAX_ARCHIVE_ENTRIES: nat := 16_384

  /** A directory being written: any operation may fail, and `past` records what a crash could leave behind. */
  class Folder {
    const io: Io
    var tree: Tree
    var past: seq<Tree>

    constructor (io: Io)
      ensures Valid() && tree == EMPTY_DIR && past == [EMPTY_DIR] && this.io == io
    {
      this.io := io;
      tree, past := EMPTY_DIR, [EMPTY_DIR];
    }

    ghost predicate Valid()
      reads this
    {
      WellFormed(tree) && tree[[]] == Dir && forall i :: 0 <= i < |past| ==> WellFormed(past[i])
    }

    method Apply(next: Option<Tree>) returns (ok: bool)
      requires Valid() && (next.Some? ==> WellFormed(next.value) && next.value[[]] == Dir)
      modifies this, io
      ensures Valid() && io.ticks >= old(io.ticks)
      ensures ok <==> next.Some? && io.Clean(old(io.ticks), io.ticks)
      ensures if ok then next == Some(tree) else tree == old(tree)
    {
      var worked := io.Try();
      ok := next.Some? && worked;
      if ok {
        tree := next.value;
        past := past + [tree];
      }
    }

    method CreateDirAll(p: Path) returns (ok: bool)
      requires Valid() && AreNames(p)
      modifies this, io
      ensures Valid() && io.ticks >= old(io.ticks)
      ensures ok <==> MkdirAll(old(tree), p).Some? && io.Clean(old(io.ticks), io.ticks)
      ensures if ok then MkdirAll(old(tree), p) == Some(tree) else tree == old(tree)
    {
      hide MkdirAll, WellFormed;
      if MkdirAll(tree, p).Some? {
        MkdirAllAdds(tree, p);
      }
      ok := Apply(MkdirAll(tree, p));
    }

    method CreateFile(p: Path) returns (ok: bool)
      requires Valid() && AreNames(p)
      modifies this, io
      ensures Valid() && io.ticks >= old(io.ticks)
      ensures ok <==> CreateNew(old(tree), p).Some? && io.Clean(old(io.ticks), io.ticks)
      ensures if ok then CreateNew(old(tree), p) == Some(tree) else tree == old(tree)
    {
      ok := Apply(CreateNew(tree, p));
    }

    /** `write_all` at the end of a file. */
    method Append(p: Path, bytes: seq<Byte>) returns (ok: bool)
      requires Valid() && FileAt(tree, p)
      modifies this, io
      ensures Valid() && io.ticks >= old(io.ticks)
      ensures ok <==> io.Clean(old(io.ticks), io.ticks)
      ensures tree == if ok then old(tree)[p := File(old(tree)[p].content + bytes)] else old(tree)
    {
      ok := Apply(Some(tree[p := File(tree[p].content + bytes)]));
    }
  }

  /** The tree after writing one new file, with the directories above it. */
  function WithFile(t: Tree, p: Path, content: seq<Byte>): Option<Tree>
    requires |p| > 0
  {
    match MkdirAll(t, Parent(p))
    case None => None
    case Some(up) => if p in up then None else Some(up[p := File(content)])
  }

  /** `write_extracted_file`: it fails exactly if it must, or if an operation failed. */
  method WriteExtractedFile(codec: Codec, folder: Folder, pieces: seq<Piece>, broken: bool, destination: Path,
                            relativePath: string, total: nat, maxUnpackedBytes: nat)
    returns (r: Option<InstalledFile>, newTotal: nat)
    requires folder.Valid() && AreNames(destination) && |destination| > 0
    requires total <= maxUnpackedBytes <= U64_MAX
    modifies folder, folder.io
    ensures folder.Valid() && folder.io.ticks >= old(folder.io.ticks)
    ensures r.Some? <==>
              && !broken
              && WithFile(old(folder.tree), destination, Flatten(pieces)).Some?
              && total + |Flatten(pieces)| <= maxUnpackedBytes
              && folder.io.Clean(old(folder.io.ticks), folder.io.ticks)
    ensures r.Some? ==>
              var content := Flatten(pieces);
              && WithFile(old(folder.tree), destination, content) == Some(folder.tree)
              && r.value == InstalledFile(relativePath, |content|, codec.digest(content))
              && newTotal == total + |content|
  {
    hide Folder.Valid, MkdirAll, AreNames;
    newTotal := total;
    ValidFolder(folder);
    ghost var before := folder.tree;
    assert AreNames(Parent(destination)) by {
      ParentNames(destination);
    }
    var ok := folder.CreateDirAll(Parent(destination));
    if !ok {
      return None, newTotal;
    }
    ghost var up := folder.tree;
    MadeParent(folder, before, destination);
    ok := folder.CreateFile(destination);
    if !ok {
      return None, newTotal;
    }
    var written;
    written, newTotal := WritePieces(folder, pieces, destination, total, maxUnpackedBytes);
    if written.None? || broken {
      return None, newTotal;
    }
    ok := folder.io.Try();
    if !ok {
      return None, newTotal;
    }
    assert up[destination := File([])][destination := File(written.value)] == up[destination := File(written.value)];
    r := Some(InstalledFile(relativePath, |written.value|, codec.digest(written.value)));
  }

  /** The read loop, up to the read that finds the end: each piece is counted, checked against the bound and appended. */
  method WritePieces(folder: Folder, pieces: seq<Piece>, destination: Path, total: nat, maxUnpackedBytes: nat)
    returns (r: Option<seq<Byte>>, newTotal: nat)
    requires folder.Valid() && FileAt(folder.tree, destination) && folder.tree[destination].content == []
    requires total <= maxUnpackedBytes <= U64_MAX
    modifies folder, folder.io
    ensures folder.Valid() && folder.io.ticks >= old(folder.io.ticks)
    ensures r.Some? <==>
              && total + |Flatten(pieces)| <= maxUnpackedBytes
              && folder.io.Clean(old(folder.io.ticks), folder.io.ticks)
    ensures r.Some? ==>
              && r.value == Flatten(pieces) && newTotal == total + |r.value|
              && folder.tree == old(folder.tree)[destination := File(r.value)]
  {
    hide Folder.Valid;
    newTotal := total;
    var written: seq<Byte> := [];
    ghost var before := folder.tree;
    assert before == before[destination := File([])];
    FlattenNil<Byte>(pieces[..0]);
    for i := 0 to |pieces|
      invariant folder.Valid()
      invariant folder.io.ticks >= old(folder.io.ticks) && folder.io.Clean(old(folder.io.ticks), folder.io.ticks)
      invariant written == Flatten(pieces[..i])
      invariant folder.tree == before[destination := File(written)]
      invariant newTotal == total + |written| <= maxUnpackedBytes
    {
      var isRead := folder.io.Try();
      if !isRead {
        return None, newTotal;
      }
      assert pieces[..i + 1] == pieces[..i] + [pieces[i]];
      FlattenSnoc(pieces[..i], pieces[i]);
      FlattenGrows(pieces, i + 1);
      var count := |pieces[i]|;
      if |written| + count > U64_MAX || newTotal + count > U64_MAX {
        return None, newTotal;
      }
      newTotal := newTotal + count;
      if newTotal > maxUnpackedBytes {
        return None, newTotal;
      }
      var ok := folder.Append(destination, pieces[i]);
      if !ok {
        return None, newTotal;
      }
      written := written + pieces[i];
    }
    assert pieces[..|pieces|] == pieces;
    var isEnd := folder.io.Try();
    r := if isEnd then Some(written) else None;
  }

  /** After making the parent, a new file can be created exactly if nothing has its name. */
  lemma MadeParent(folder: Folder, before: Tree, p: Path)
    requires |p| > 0 && AreNames(p) && WellFormed(before) && MkdirAll(before, Parent(p)) == Some(folder.tree)
    ensures CreateNew(folder.tree, p).Some? <==> p !in folder.tree
  {
    hide MkdirAll, WellFormed;
    ParentNames(p);
    MkdirAllAdds(before, Parent(p));
  }

  lemma FlattenGrows<T>(pieces: seq<seq<T>>, k: nat)
    requires k <= |pieces|
    ensures |Flatten(pieces[..k])| <= |Flatten(pieces)|
  {
    assert pieces[..k] + pieces[k..] == pieces;
    FlattenAppend(pieces[..k], pieces[k..]);
  }

  lemma ParentNames(p: Path)
    requires |p| > 0 && AreNames(p)
    ensures AreNames(Parent(p))
  {
  }

  // ---- What an archive holds

  /** The files of an archive below its root: path and content, in order. */
  function ArchiveFiles(entries: seq<Entry>, root: string): seq<(Path, seq<Byte>)> {
    if |entries| == 0 then []
    else ArchiveFiles(entries[..|entries| - 1], root) + FileOf(entries[|entries| - 1], root)
  }

  function FileOf(entry: Entry, root: string): seq<(Path, seq<Byte>)> {
    if entry.Malformed? || !entry.kind.FileEntry? then []
    else
      match StripArchiveRoot(entry.path, root)
      case None => []
      case Some(relative) => if |relative| == 0 then [] else [(relative, Flatten(entry.pieces))]
  }

  function RecordOf(codec: Codec, file: (Path, seq<Byte>)): InstalledFile {
    InstalledFile(DisplayName(file.0), |file.1|, codec.digest(file.1))
  }

  function Records(codec: Codec, files: seq<(Path, seq<Byte>)>): seq<InstalledFile> {
    seq(|files|, i requires 0 <= i < |files| => RecordOf(codec, files[i]))
  }

  function TotalSize(files: seq<(Path, seq<Byte>)>): nat {
    if |files| == 0 then 0 else TotalSize(files[..|files| - 1]) + |files[|files| - 1].1|
  }

  ghost predicate Holds(t: Tree, file: (Path, seq<Byte>)) {
    |file.0| > 0 && AreNames(file.0) && file.0 in t && t[file.0] == File(file.1)
  }

  /** The tree's files, other than those at `others`, are exactly these. */
  ghost predicate HoldsExactly(t: Tree, files: seq<(Path, seq<Byte>)>, others: set<Path>) {
    && AllPlain(t)
    && (forall i :: 0 <= i < |files| ==> Holds(t, files[i]) && files[i].0 !in others)
    && (forall p :: p in t && t[p].File? && p !in others ==> exists i :: 0 <= i < |files| && files[i].0 == p)
  }

  lemma WithFileHolds(t: Tree, files: seq<(Path, seq<Byte>)>, file: (Path, seq<Byte>))
    requires WellFormed(t) && HoldsExactly(t, files, {})
    requires |file.0| > 0 && AreNames(file.0) && WithFile(t, file.0, file.1).Some?
    ensures HoldsExactly(WithFile(t, file.0, file.1).value, files + [file], {})
  {
    hide MkdirAll, AreNames, WellFormed;
    ParentNames(file.0);
    MkdirAllAdds(t, Parent(file.0));
    var after := WithFile(t, file.0, file.1).value;
    var more := files + [file];
    forall i | 0 <= i < |more|
      ensures Holds(after, more[i])
    {
      if i < |files| {
        assert Holds(t, files[i]);
      }
    }
    forall p | p in after && after[p].File?
      ensures exists i :: 0 <= i < |more| && more[i].0 == p
    {
      if p == file.0 {
        assert more[|files|].0 == p;
      } else {
        assert p in t && t[p].File?;
        var i :| 0 <= i < |files| && files[i].0 == p;
        assert more[i].0 == p;
      }
    }
  }

  lemma MkdirHolds(t: Tree, files: seq<(Path, seq<Byte>)>, p: Path)
    requires WellFormed(t) && HoldsExactly(t, files, {}) && AreNames(p) && MkdirAll(t, p).Some?
    ensures HoldsExactly(MkdirAll(t, p).value, files, {})
  {
    hide MkdirAll, AreNames, WellFormed;
    MkdirAllAdds(t, p);
    forall i | 0 <= i < |files|
      ensures Holds(MkdirAll(t, p).value, files[i])
    {
      assert Holds(t, files[i]);
    }
  }

  // ---- The inventory's order

  /** Order of strings. */
  predicate AtMost(a: string, b: string) {
    if |a| == 0 then true
    else if |b| == 0 then false
    else a[0] < b[0] || (a[0] == b[0] && AtMost(a[1..], b[1..]))
  }

  lemma {:induction false} AtMostTotal(a: string, b: string)
    ensures AtMost(a, b) || AtMost(b, a)
  {
    if |a| > 0 && |b| > 0 {
      AtMostTotal(a[1..], b[1..]);
    }
  }

  lemma {:induction false} AtMostTransitive(a: string, b: string, c: string)
    requires AtMost(a, b) && AtMost(b, c)
    ensures AtMost(a, c)
  {
    if |a| > 0 && |b| > 0 && |c| > 0 && a[0] == b[0] == c[0] {
      AtMostTransitive(a[1..], b[1..], c[1..]);
    }
  }

  /** It is the lexicographic order: what comes first is a prefix, or smaller at the first difference. */
  lemma {:induction false} AtMostIff(a: string, b: string)
    ensures AtMost(a, b) <==> a <= b || exists k :: 0 <= k < |a| && k < |b| && a[..k] == b[..k] && a[k] < b[k]
  {
    if |a| > 0 && |b| > 0 {
      if a[0] < b[0] {
        assert a[..0] == b[..0];
      } else if a[0] == b[0] {
        AtMostIff(a[1..], b[1..]);
        SameHead(a, b);
      } else {
        forall k | 0 <= k < |a| && k < |b|
          ensures !(a[..k] == b[..k] && a[k] < b[k])
        {
          if k > 0 {
            assert a[..k][0] == a[0] && b[..k][0] == b[0];
          }
        }
      }
    }
  }

  lemma SameHead(a: string, b: string)
    requires |a| > 0 && |b| > 0 && a[0] == b[0]
    ensures a <= b <==> a[1..] <= b[1..]
    ensures (exists k :: 0 <= k < |a| && k < |b| && a[..k] == b[..k] && a[k] < b[k]) <==>
              exists k :: 0 <= k < |a[1..]| && k < |b[1..]| && a[1..][..k] == b[1..][..k] && a[1..][k] < b[1..][k]
  {
    var x, y := a[1..], b[1..];
    assert a == [a[0]] + x && b == [b[0]] + y;
    if k :| 0 <= k < |a| && k < |b| && a[..k] == b[..k] && a[k] < b[k] {
      assert k > 0;
      assert x[..k - 1] == a[..k][1..] && y[..k - 1] == b[..k][1..];
      assert x[k - 1] == a[k] && y[k - 1] == b[k];
    }
    if k :| 0 <= k < |x| && k < |y| && x[..k] == y[..k] && x[k] < y[k] {
      assert a[..k + 1] == [a[0]] + x[..k] && b[..k + 1] == [b[0]] + y[..k];
      assert a[k + 1] == x[k] && b[k + 1] == y[k];
    }
  }

  predicate Sorted(files: seq<InstalledFile>) {
    forall i, j :: 0 <= i < j < |files| ==> AtMost(files[i].path, files[j].path)
  }

  function Insert(files: seq<InstalledFile>, f: InstalledFile): (r: seq<InstalledFile>)
    ensures multiset(r) == multiset(files) + multiset{f}
  {
    if |files| == 0 || AtMost(f.path, files[0].path) then
      [f] + files
    else
      assert files == [files[0]] + files[1..];
      [files[0]] + Insert(files[1..], f)
  }

  /** `sort_by` path. */
  function SortByPath(files: seq<InstalledFile>): (r: seq<InstalledFile>)
    ensures multiset(r) == multiset(files) && |r| == |files|
  {
    if |files| == 0 then []
    else
      assert files == files[..|files| - 1] + [files[|files| - 1]];
      var r := Insert(SortByPath(files[..|files| - 1]), files[|files| - 1]);
      assert |r| == |multiset(r)| && |files| == |multiset(files)|;
      r
  }

  lemma {:induction false} InsertSorts(files: seq<InstalledFile>, f: InstalledFile)
    requires Sorted(files)
    ensures Sorted(Insert(files, f))
  {
    if |files| > 0 && !AtMost(f.path, files[0].path) {
      var rest := Insert(files[1..], f);
      InsertSorts(files[1..], f);
      AtMostTotal(f.path, files[0].path);
      forall x | x in rest
        ensures AtMost(files[0].path, x.path)
      {
        assert x in multiset(rest);
        assert x == f || x in multiset(files[1..]);
      }
    } else if |files| > 0 {
      forall x | x in files
        ensures AtMost(f.path, x.path)
      {
        if x != files[0] {
          AtMostTransitive(f.path, files[0].path, x.path);
        }
      }
    }
  }

  /** The inventory lists the installed files, each as often as before, in path order. */
  lemma {:induction false} SortSorts(files: seq<InstalledFile>)
    ensures Sorted(SortByPath(files))
  {
    if |files| > 0 {
      SortSorts(files[..|files| - 1]);
      InsertSorts(SortByPath(files[..|files| - 1]), files[|files| - 1]);
    }
  }

  /** A rearrangement of distinct paths is distinct. */
  lemma {:induction false} InsertDistinct(files: seq<InstalledFile>, f: InstalledFile)
    requires Distinct(files) && f.path !in PathsOf(files)
    ensures Distinct(Insert(files, f)) && PathsOf(Insert(files, f)) == PathsOf(files) + {f.path}
  {
    if |files| == 0 || AtMost(f.path, files[0].path) {
      PathsOfCons(f, files);
    } else {
      PathsOfCons(files[0], files[1..]);
      assert files == [files[0]] + files[1..];
      InsertDistinct(files[1..], f);
      PathsOfCons(files[0], Insert(files[1..], f));
    }
  }

  lemma PathsOfCons(first: InstalledFile, rest: seq<InstalledFile>)
    ensures PathsOf([first] + rest) == {first.path} + PathsOf(rest)
    ensures Distinct([first] + rest) <==> Distinct(rest) && first.path !in PathsOf(rest)
  {
    var all := [first] + rest;
    forall i | 0 <= i < |rest|
      ensures all[i + 1] == rest[i]
    {
    }
    forall p | p in PathsOf(rest)
      ensures p in PathsOf(all)
    {
      var i :| 0 <= i < |rest| && rest[i].path == p;
      assert all[i + 1].path == p;
    }
    assert all[0].path == first.path;
  }

  lemma {:induction false} SortDistinct(files: seq<InstalledFile>)
    requires Distinct(files)
    ensures Distinct(SortByPath(files)) && PathsOf(SortByPath(files)) == PathsOf(files)
  {
    if |files| > 0 {
      var n := |files| - 1;
      SortDistinct(files[..n]);
      assert files[..n + 1] == files;
      OneMorePath(files, n);
      InsertDistinct(SortByPath(files[..n]), files[n]);
    }
  }

  // ---- The whole extraction

  function Lowered(s: string): (r: string)
    ensures |r| == |s|
  {
    seq(|s|, i requires 0 <= i < |s| => if 'A' <= s[i] <= 'Z' then s[i] - 'A' + 'a' else s[i])
  }

  /** The same character, or the same ASCII letter in the other case. */
  predicate SameLetter(a: char, b: char) {
    || a == b
    || ('A' <= a <= 'Z' && b as int == a as int + 32)
    || ('a' <= a <= 'z' && b as int == a as int - 32)
  }

  lemma LoweredIff(a: string, b: string)
    ensures Lowered(a) == Lowered(b) <==> |a| == |b| && forall i :: 0 <= i < |a| ==> SameLetter(a[i], b[i])
  {
    if |a| == |b| && forall i :: 0 <= i < |a| ==> SameLetter(a[i], b[i]) {
      assert forall i :: 0 <= i < |a| ==> Lowered(a)[i] == Lowered(b)[i];
    }
    if Lowered(a) == Lowered(b) {
      assert |Lowered(a)| == |a| && |Lowered(b)| == |b|;
      forall i | 0 <= i < |a|
        ensures SameLetter(a[i], b[i])
      {
        assert Lowered(a)[i] == Lowered(b)[i];
      }
    }
  }

  /** No two paths are the same up to ASCII case. */
  predicate DistinctKeys(records: seq<InstalledFile>) {
    forall i, j :: 0 <= i < j < |records| ==> Lowered(records[i].path) != Lowered(records[j].path)
  }

  function KeysOf(records: seq<InstalledFile>): set<string> {
    set i | 0 <= i < |records| :: Lowered(records[i].path)
  }

  /** What one entry does to the tree, if it is one that can be installed there. */
  function LayEntry(t: Tree, entry: Entry, root: string): Option<Tree> {
    if entry.Malformed? then None
    else
      match StripArchiveRoot(entry.path, root)
      case None => None
      case Some(relative) =>
        if |relative| == 0 then Some(t)
        else if entry.kind.DirectoryEntry? then MkdirAll(t, relative)
        else if entry.kind.FileEntry? && !entry.broken then WithFile(t, relative, Flatten(entry.pieces))
        else None
  }

  /** The tree that installing the entries in order gives. */
  function Laid(entries: seq<Entry>, root: string): Option<Tree> {
    if |entries| == 0 then Some(EMPTY_DIR)
    else
      match Laid(entries[..|entries| - 1], root)
      case None => None
      case Some(t) => LayEntry(t, entries[|entries| - 1], root)
  }

  /** The archives that can be extracted. */
  predicate Extractable(codec: Codec, spec: ArtifactSpec, entries: seq<Entry>) {
    var files := ArchiveFiles(entries, spec.archiveRoot);
    && |entries| <= MAX_ARCHIVE_ENTRIES
    && Laid(entries, spec.archiveRoot).Some?
    && |files| > 0
    && DistinctKeys(Records(codec, files))
    && TotalSize(files) <= spec.maxUnpackedBytes
    && MARKER !in Laid(entries, spec.archiveRoot).value
  }

  lemma {:induction false} LaidPrefix(entries: seq<Entry>, root: string, k: nat)
    requires k <= |entries|
    ensures Laid(entries[..k], root).None? ==> Laid(entries, root).None?
    decreases |entries|
  {
    if k == |entries| {
      assert entries[..k] == entries;
    } else {
      var init := entries[..|entries| - 1];
      assert init[..k] == entries[..k];
      LaidPrefix(init, root, k);
    }
  }

  lemma {:induction false} FilesPrefix(entries: seq<Entry>, root: string, k: nat)
    requires k <= |entries|
    ensures ArchiveFiles(entries[..k], root) <= ArchiveFiles(entries, root)
    decreases |entries|
  {
    if k == |entries| {
      assert entries[..k] == entries;
    } else {
      var init := entries[..|entries| - 1];
      assert init[..k] == entries[..k];
      FilesPrefix(init, root, k);
    }
  }

  lemma {:induction false} TotalPrefix(files: seq<(Path, seq<Byte>)>, k: nat)
    requires k <= |files|
    ensures TotalSize(files[..k]) <= TotalSize(files)
    decreases |files|
  {
    if k == |files| {
      assert files[..k] == files;
    } else {
      var init := files[..|files| - 1];
      assert init[..k] == files[..k];
      TotalPrefix(init, k);
    }
  }

  /** What is wrong with the first entries is wrong with the archive. */
  lemma PrefixRefuses(codec: Codec, spec: ArtifactSpec, entries: seq<Entry>, k: nat)
    requires k <= |entries|
    requires var files := ArchiveFiles(entries[..k], spec.archiveRoot);
             || Laid(entries[..k], spec.archiveRoot).None?
             || !DistinctKeys(Records(codec, files))
             || TotalSize(files) > spec.maxUnpackedBytes
    ensures !Extractable(codec, spec, entries)
  {
    hide LayEntry, FileOf, Lowered;
    LaidPrefix(entries, spec.archiveRoot, k);
    FilesPrefix(entries, spec.archiveRoot, k);
    var some, all := ArchiveFiles(entries[..k], spec.archiveRoot), ArchiveFiles(entries, spec.archiveRoot);
    assert all[..|some|] == some;
    TotalPrefix(all, |some|);
    if !DistinctKeys(Records(codec, some)) {
      var i, j :| 0 <= i < j < |some|
                  && Lowered(Records(codec, some)[i].path) == Lowered(Records(codec, some)[j].path);
      assert Records(codec, all)[i] == Records(codec, some)[i] && Records(codec, all)[j] == Records(codec, some)[j];
    }
  }

  /** The inventory's bytes. */
  function MarkerContent(codec: Codec, spec: ArtifactSpec, files: seq<(Path, seq<Byte>)>): seq<Byte> {
    codec.encode(Installation(1, spec.id, spec.sha256, SortByPath(Records(codec, files))))
  }

  /** What a successful extraction leaves: the archive's files, within the bound, and their inventory. */
  ghost predicate Extracted(codec: Codec, t: Tree, spec: ArtifactSpec, files: seq<(Path, seq<Byte>)>) {
    && |files| > 0
    && HoldsExactly(t, files, {MARKER})
    && Distinct(Records(codec, files))
    && TotalSize(files) <= spec.maxUnpackedBytes
    && MARKER in t
    && t[MARKER] == File(MarkerContent(codec, spec, files))
  }

  /** The tree an extraction leaves. */
  function InstalledTree(codec: Codec, spec: ArtifactSpec, entries: seq<Entry>): Tree
    requires Laid(entries, spec.archiveRoot).Some?
  {
    Laid(entries, spec.archiveRoot).value[
      MARKER := File(MarkerContent(codec, spec, ArchiveFiles(entries, spec.archiveRoot)))]
  }

  /** Where the loop is after some entries. */
  ghost predicate Taken(codec: Codec, spec: ArtifactSpec, entries: seq<Entry>, t: Tree, installed: seq<InstalledFile>,
                        seen: set<string>, total: nat)
  {
    var files := ArchiveFiles(entries, spec.archiveRoot);
    && Laid(entries, spec.archiveRoot) == Some(t)
    && HoldsExactly(t, files, {})
    && installed == Records(codec, files)
    && DistinctKeys(installed) && seen == KeysOf(installed)
    && total == TotalSize(files) <= spec.maxUnpackedBytes
  }

  lemma NothingTaken(codec: Codec, spec: ArtifactSpec)
    ensures Taken(codec, spec, [], EMPTY_DIR, [], {}, 0)
  {
  }

  lemma TookNothing(codec: Codec, spec: ArtifactSpec, entries: seq<Entry>, entry: Entry, t: Tree,
                    installed: seq<InstalledFile>, seen: set<string>, total: nat, after: Tree)
    requires Taken(codec, spec, entries, t, installed, seen, total) && WellFormed(t)
    requires FileOf(entry, spec.archiveRoot) == [] && LayEntry(t, entry, spec.archiveRoot) == Some(after)
    ensures Taken(codec, spec, entries + [entry], after, installed, seen, total)
  {
    hide DistinctKeys, KeysOf, HoldsExactly, MkdirAll, StripArchiveRoot, WithFile, Records, TotalSize, Flatten;
    StrippedNames(entry.path, spec.archiveRoot);
    OneMoreEntry(entries, entry, spec.archiveRoot);
    var files := ArchiveFiles(entries, spec.archiveRoot);
    assert files + [] == files;
    if after != t {
      MkdirHolds(t, files, StripArchiveRoot(entry.path, spec.archiveRoot).value);
    }
  }

  lemma TookFile(codec: Codec, spec: ArtifactSpec, entries: seq<Entry>, entry: Entry, t: Tree,
                 installed: seq<InstalledFile>, seen: set<string>, total: nat, after: Tree, file: (Path, seq<Byte>))
    requires Taken(codec, spec, entries, t, installed, seen, total) && WellFormed(t)
    requires FileOf(entry, spec.archiveRoot) == [file] && LayEntry(t, entry, spec.archiveRoot) == Some(after)
    requires WithFile(t, file.0, file.1) == Some(after) && |file.0| > 0 && AreNames(file.0)
    ensures var record := RecordOf(codec, file);
            && (Lowered(record.path) !in seen && total + |file.1| <= spec.maxUnpackedBytes ==>
                  Taken(codec, spec, entries + [entry], after, installed + [record], seen + {Lowered(record.path)},
                        total + |file.1|))
            && (Lowered(record.path) in seen ==>
                  !DistinctKeys(Records(codec, ArchiveFiles(entries + [entry], spec.archiveRoot))))
            && TotalSize(ArchiveFiles(entries + [entry], spec.archiveRoot)) == total + |file.1|
  {
    hide HoldsExactly, WithFile, LayEntry, FileOf, Lowered, DisplayName, AreNames, WellFormed;
    OneMoreEntry(entries, entry, spec.archiveRoot);
    var files := ArchiveFiles(entries, spec.archiveRoot);
    WithFileHolds(t, files, file);
    OneMoreKey(installed, RecordOf(codec, file));
    assert Records(codec, files + [file]) == installed + [RecordOf(codec, file)];
    assert (files + [file])[..|files|] == files;
  }

  /** A collision shows whatever the rest of the entry is like. */
  lemma Collides(codec: Codec, spec: ArtifactSpec, entries: seq<Entry>, entry: Entry, t: Tree,
                 installed: seq<InstalledFile>, seen: set<string>, total: nat)
    requires Taken(codec, spec, entries, t, installed, seen, total)
    requires |FileOf(entry, spec.archiveRoot)| == 1
    requires Lowered(RecordOf(codec, FileOf(entry, spec.archiveRoot)[0]).path) in seen
    ensures !DistinctKeys(Records(codec, ArchiveFiles(entries + [entry], spec.archiveRoot)))
  {
    hide HoldsExactly, LayEntry, FileOf, Lowered, DisplayName;
    OneMoreEntry(entries, entry, spec.archiveRoot);
    var files, file := ArchiveFiles(entries, spec.archiveRoot), FileOf(entry, spec.archiveRoot)[0];
    OneMoreKey(installed, RecordOf(codec, file));
    assert FileOf(entry, spec.archiveRoot) == [file];
    assert Records(codec, files + [file]) == installed + [RecordOf(codec, file)];
  }

  lemma OneMoreEntry(entries: seq<Entry>, entry: Entry, root: string)
    ensures ArchiveFiles(entries + [entry], root) == ArchiveFiles(entries, root) + FileOf(entry, root)
    ensures Laid(entries + [entry], root) ==
              match Laid(entries, root) case None => None case Some(t) => LayEntry(t, entry, root)
  {
    assert (entries + [entry])[..|entries|] == entries;
  }

  /** A new collision key means a new path. */
  lemma OneMoreKey(installed: seq<InstalledFile>, f: InstalledFile)
    requires DistinctKeys(installed)
    ensures KeysOf(installed + [f]) == KeysOf(installed) + {Lowered(f.path)}
    ensures DistinctKeys(installed + [f]) <==> Lowered(f.path) !in KeysOf(installed)
  {
    hide Lowered;
    var more := installed + [f];
    assert more[|installed|] == f;
    assert forall i :: 0 <= i < |installed| ==> more[i] == installed[i];
    if Lowered(f.path) in KeysOf(installed) {
      var i :| 0 <= i < |installed| && Lowered(installed[i].path) == Lowered(f.path);
      assert Lowered(more[i].path) == Lowered(more[|installed|].path);
    }
  }

  lemma KeysDistinct(installed: seq<InstalledFile>)
    requires DistinctKeys(installed)
    ensures Distinct(installed)
  {
    hide Lowered;
    forall i, j | 0 <= i < j < |installed|
      ensures installed[i].path != installed[j].path
    {
      assert Lowered(installed[i].path) != Lowered(installed[j].path);
    }
  }

  /**
   * `extract_verified_archive`, into an empty staging directory: it succeeds exactly for an archive of the curated
   * size and digest that can be extracted, unless an operation fails, and then leaves exactly its files and their
   * inventory.
   */
  method ExtractVerifiedArchive(codec: Codec, archive: Tree, folder: Folder, spec: ArtifactSpec) returns (ok: bool)
    requires folder.Valid() && folder.tree == EMPTY_DIR && spec.Valid()
    modifies folder, folder.io
    ensures folder.Valid() && folder.io.ticks >= old(folder.io.ticks)
    ensures ok <==>
              && FileMatches(codec, archive, [], spec.size, spec.sha256)
              && codec.unpack(archive[[]].content).Some?
              && Extractable(codec, spec, codec.unpack(archive[[]].content).value)
              && folder.io.Clean(old(folder.io.ticks), folder.io.ticks)
    ensures ok ==>
              var entries := codec.unpack(archive[[]].content).value;
              && Extracted(codec, folder.tree, spec, ArchiveFiles(entries, spec.archiveRoot))
              && Laid(entries, spec.archiveRoot).Some?
              && folder.tree == InstalledTree(codec, spec, entries)
  {
    hide Folder.Valid, ArtifactSpec.Valid, Taken, Extractable, Extracted, WellFormed, ArchiveFiles;
    var genuine := VerifyFile(codec, archive, [], spec.size, spec.sha256, folder.io);
    if !genuine {
      return false;
    }
    var isOpen := folder.io.Try();
    if !isOpen {
      return false;
    }
    var unpacked := codec.unpack(archive[[]].content);
    if unpacked.None? {
      return false;
    }
    ok := ExtractEntries(codec, unpacked.value, folder, spec);
  }

  /** The loop over the entries, and the inventory at its end. */
  method ExtractEntries(codec: Codec, entries: seq<Entry>, folder: Folder, spec: ArtifactSpec) returns (ok: bool)
    requires folder.Valid() && folder.tree == EMPTY_DIR && spec.Valid()
    modifies folder, folder.io
    ensures folder.Valid() && folder.io.ticks >= old(folder.io.ticks)
    ensures ok <==> Extractable(codec, spec, entries) && folder.io.Clean(old(folder.io.ticks), folder.io.ticks)
    ensures ok ==> Extracted(codec, folder.tree, spec, ArchiveFiles(entries, spec.archiveRoot))
    ensures ok ==>
              Laid(entries, spec.archiveRoot).Some? && folder.tree == InstalledTree(codec, spec, entries)
  {
    hide Folder.Valid, ArtifactSpec.Valid, Taken, Extractable, Extracted, WellFormed, ArchiveFiles, Laid;
    var installed: seq<InstalledFile> := [];
    var seen: set<string> := {};
    var total := 0;
    NothingTaken(codec, spec);
    for index := 0 to |entries|
      invariant folder.Valid()
      invariant folder.io.ticks >= old(folder.io.ticks) && folder.io.Clean(old(folder.io.ticks), folder.io.ticks)
      invariant Taken(codec, spec, entries[..index], folder.tree, installed, seen, total) && index <= MAX_ARCHIVE_ENTRIES
    {
      var isRead := folder.io.Try();
      if !isRead {
        return false;
      }
      if index >= MAX_ARCHIVE_ENTRIES {
        TooMany(codec, spec, entries);
        return false;
      }
      assert entries[..index + 1] == entries[..index] + [entries[index]];
      var more;
      more, installed, seen, total := ExtractEntry(codec, entries[..index], entries[index], folder, spec, installed,
                                                   seen, total);
      if !more {
        if folder.io.Clean(old(folder.io.ticks), folder.io.ticks) {
          PrefixRefuses(codec, spec, entries, index + 1);
        }
        return false;
      }
    }
    assert entries[..|entries|] == entries;
    ok := folder.io.Try();
    if !ok {
      return;
    }
    ok := WriteMarker(codec, folder, spec, entries, installed, seen, total);
  }

  lemma TooMany(codec: Codec, spec: ArtifactSpec, entries: seq<Entry>)
    requires |entries| > MAX_ARCHIVE_ENTRIES
    ensures !Extractable(codec, spec, entries)
  {
  }

  /** One entry. */
  method ExtractEntry(codec: Codec, ghost before: seq<Entry>, entry: Entry, folder: Folder, spec: ArtifactSpec,
                      installed: seq<InstalledFile>, seen: set<string>, total: nat)
    returns (more: bool, nowInstalled: seq<InstalledFile>, nowSeen: set<string>, nowTotal: nat)
    requires folder.Valid() && spec.Valid()
    requires Taken(codec, spec, before, folder.tree, installed, seen, total)
    modifies folder, folder.io
    ensures folder.Valid() && folder.io.ticks >= old(folder.io.ticks)
    ensures more ==>
              && folder.io.Clean(old(folder.io.ticks), folder.io.ticks)
              && Taken(codec, spec, before + [entry], folder.tree, nowInstalled, nowSeen, nowTotal)
    ensures !more && folder.io.Clean(old(folder.io.ticks), folder.io.ticks) ==>
              var files := ArchiveFiles(before + [entry], spec.archiveRoot);
              || Laid(before + [entry], spec.archiveRoot).None?
              || !DistinctKeys(Records(codec, files))
              || TotalSize(files) > spec.maxUnpackedBytes
  {
    hide Folder.Valid, ArtifactSpec.Valid, Taken, WellFormed, ArchiveFiles, Laid, StripArchiveRoot, DisplayName, Lowered,
         MkdirAll, WithFile, AreNames, DistinctKeys, Records, TotalSize;
    more, nowInstalled, nowSeen, nowTotal := false, installed, seen, total;
    LaidBefore(codec, spec, before, folder.tree, installed, seen, total);
    OneMoreEntry(before, entry, spec.archiveRoot);
    if entry.Malformed? {
      return;
    }
    var stripped := StripArchiveRoot(entry.path, spec.archiveRoot);
    if stripped.None? {
      return;
    }
    var relative := stripped.value;
    StrippedNames(entry.path, spec.archiveRoot);
    ValidFolder(folder);
    ghost var tree := folder.tree;
    if |relative| == 0 {
      TookNothing(codec, spec, before, entry, tree, installed, seen, total, tree);
      more := true;
    } else if entry.kind.DirectoryEntry? {
      more := folder.CreateDirAll(relative);
      if more {
        TookNothing(codec, spec, before, entry, tree, installed, seen, total, folder.tree);
      }
    } else if entry.kind.FileEntry? {
      more, nowInstalled, nowSeen, nowTotal := ExtractFile(codec, before, entry, relative, folder, spec, installed, seen,
                                                           total);
    }
  }

  lemma LaidBefore(codec: Codec, spec: ArtifactSpec, entries: seq<Entry>, t: Tree, installed: seq<InstalledFile>,
                   seen: set<string>, total: nat)
    requires Taken(codec, spec, entries, t, installed, seen, total)
    ensures Laid(entries, spec.archiveRoot) == Some(t) && total <= spec.maxUnpackedBytes && DistinctKeys(installed)
  {
  }

  /** One file entry. */
  method ExtractFile(codec: Codec, ghost before: seq<Entry>, entry: Entry, relative: Path, folder: Folder,
                     spec: ArtifactSpec, installed: seq<InstalledFile>, seen: set<string>, total: nat)
    returns (more: bool, nowInstalled: seq<InstalledFile>, nowSeen: set<string>, nowTotal: nat)
    requires folder.Valid() && spec.Valid() && entry.Entry? && entry.kind.FileEntry?
    requires Taken(codec, spec, before, folder.tree, installed, seen, total)
    requires StripArchiveRoot(entry.path, spec.archiveRoot) == Some(relative) && |relative| > 0 && AreNames(relative)
    modifies folder, folder.io
    ensures folder.Valid() && folder.io.ticks >= old(folder.io.ticks)
    ensures more ==>
              && folder.io.Clean(old(folder.io.ticks), folder.io.ticks)
              && Taken(codec, spec, before + [entry], folder.tree, nowInstalled, nowSeen, nowTotal)
    ensures !more && folder.io.Clean(old(folder.io.ticks), folder.io.ticks) ==>
              var files := ArchiveFiles(before + [entry], spec.archiveRoot);
              || Laid(before + [entry], spec.archiveRoot).None?
              || !DistinctKeys(Records(codec, files))
              || TotalSize(files) > spec.maxUnpackedBytes
  {
    hide Folder.Valid, ArtifactSpec.Valid, Taken, WellFormed, ArchiveFiles, Laid, StripArchiveRoot, DisplayName, Lowered,
         WithFile, AreNames, DistinctKeys, Records, TotalSize, Flatten;
    more, nowInstalled, nowSeen, nowTotal := false, installed, seen, total;
    LaidBefore(codec, spec, before, folder.tree, installed, seen, total);
    OneMoreEntry(before, entry, spec.archiveRoot);
    ValidFolder(folder);
    ghost var tree := folder.tree;
    ghost var file := (relative, Flatten(entry.pieces));
    var key := Lowered(DisplayName(relative));
    if key in seen {
      Collides(codec, spec, before, entry, tree, installed, seen, total);
      return;
    }
    var record, newTotal := WriteExtractedFile(codec, folder, entry.pieces, entry.broken, relative,
                                               DisplayName(relative), total, spec.maxUnpackedBytes);
    if !entry.broken && WithFile(tree, relative, Flatten(entry.pieces)).Some? {
      TookFile(codec, spec, before, entry, tree, installed, seen, total,
               WithFile(tree, relative, Flatten(entry.pieces)).value, file);
    }
    if record.Some? {
      more, nowInstalled, nowSeen, nowTotal := true, installed + [record.value], seen + {key}, newTotal;
    }
  }

  /** The last step: the inventory, sorted, in a new file. */
  method WriteMarker(codec: Codec, folder: Folder, spec: ArtifactSpec, ghost entries: seq<Entry>,
                     installed: seq<InstalledFile>, ghost seen: set<string>, ghost total: nat)
    returns (ok: bool)
    requires folder.Valid() && Taken(codec, spec, entries, folder.tree, installed, seen, total)
    requires |entries| <= MAX_ARCHIVE_ENTRIES
    modifies folder, folder.io
    ensures folder.Valid() && folder.io.ticks >= old(folder.io.ticks)
    ensures ok <==> Extractable(codec, spec, entries) && folder.io.Clean(old(folder.io.ticks), folder.io.ticks)
    ensures ok ==> Extracted(codec, folder.tree, spec, ArchiveFiles(entries, spec.archiveRoot))
    ensures ok ==>
              Laid(entries, spec.archiveRoot).Some? && folder.tree == InstalledTree(codec, spec, entries)
  {
    hide Folder.Valid, AreNames, SortByPath, TotalSize, Taken, Extracted, Extractable, HoldsExactly, WellFormed,
         ArchiveFiles;
    ghost var tree := folder.tree;
    ValidFolder(folder);
    TakenIsExtractable(codec, spec, entries, tree, installed, seen, total);
    if |installed| == 0 {
      return false;
    }
    MarkerIsAName();
    ok := folder.CreateFile(MARKER);
    if !ok {
      return;
    }
    var content := codec.encode(Installation(1, spec.id, spec.sha256, SortByPath(installed)));
    ok := folder.Append(MARKER, content);
    assert [] + content == content;
    if ok {
      ok := folder.io.Try();
    }
    if ok {
      TakenIsExtracted(codec, spec, entries, tree, installed, seen, total);
      assert tree[MARKER := File([])][MARKER := File(content)] == tree[MARKER := File(content)];
    }
  }

  lemma TakenIsExtractable(codec: Codec, spec: ArtifactSpec, entries: seq<Entry>, t: Tree, installed: seq<InstalledFile>,
                           seen: set<string>, total: nat)
    requires Taken(codec, spec, entries, t, installed, seen, total) && WellFormed(t) && |entries| <= MAX_ARCHIVE_ENTRIES
    requires t[[]] == Dir
    ensures Extractable(codec, spec, entries) <==> |installed| > 0 && CreateNew(t, MARKER).Some?
  {
    hide HoldsExactly, DistinctKeys, KeysOf, TotalSize, Laid, ArchiveFiles, RecordOf;
    assert Parent(MARKER) == [];
    RecordCount(codec, ArchiveFiles(entries, spec.archiveRoot));
  }

  lemma TakenIsExtracted(codec: Codec, spec: ArtifactSpec, entries: seq<Entry>, t: Tree, installed: seq<InstalledFile>,
                         seen: set<string>, total: nat)
    requires Taken(codec, spec, entries, t, installed, seen, total) && |installed| > 0 && MARKER !in t
    ensures var content := codec.encode(Installation(1, spec.id, spec.sha256, SortByPath(installed)));
            && Extracted(codec, t[MARKER := File(content)], spec, ArchiveFiles(entries, spec.archiveRoot))
            && Laid(entries, spec.archiveRoot) == Some(t)
            && t[MARKER := File(content)] == InstalledTree(codec, spec, entries)
  {
    hide DistinctKeys, KeysOf, TotalSize, Laid, ArchiveFiles, RecordOf, SortByPath, AreNames, Lowered;
    var files := ArchiveFiles(entries, spec.archiveRoot);
    var content := codec.encode(Installation(1, spec.id, spec.sha256, SortByPath(installed)));
    var after := t[MARKER := File(content)];
    RecordCount(codec, files);
    KeysDistinct(installed);
    assert |MARKER| == 1;
    forall i | 0 <= i < |files|
      ensures Holds(after, files[i]) && files[i].0 !in {MARKER}
    {
      assert Holds(t, files[i]);
    }
  }

  lemma ValidFolder(folder: Folder)
    requires folder.Valid()
    ensures WellFormed(folder.tree) && [] in folder.tree && folder.tree[[]] == Dir
  {
  }

  // ---- What a successful extraction is good for

  predicate HasBackslash(p: Path) {
    exists k :: 0 <= k < |p| && '\\' in p[k]
  }

  /** A display name is the marker's only for the marker itself. */
  lemma OnlyMarker(p: Path)
    requires |p| > 0 && AreNames(p) && p != MARKER
    ensures DisplayName(p) != INSTALLATION_FILE
  {
    hide AreNames, Components, Join;
    MarkerIsAName();
    NoBackslash(MARKER);
    JoinInjective(p, MARKER);
    var path := Join(p);
    if '\\' in path {
      var i :| 0 <= i < |path| && path[i] == '\\';
      assert Slashed(path)[i] == '/';
      assert DisplayName(p) == INSTALLATION_FILE ==> '/' in INSTALLATION_FILE;
      NoSlashInMarker();
    }
  }

  lemma NoSlashInMarker()
    ensures '/' !in INSTALLATION_FILE
  {
    MarkerIsAName();
    assert IsName(MARKER[0]);
  }

  lemma ExtractedNames(codec: Codec, t: Tree, files: seq<(Path, seq<Byte>)>)
    requires HoldsExactly(t, files, {MARKER})
    ensures FileNames(t) == PathsOf(Records(codec, files))
  {
    hide AreNames, DisplayName;
    MarkerIsAName();
    var records := Records(codec, files);
    forall i | 0 <= i < |files|
      ensures DisplayName(files[i].0) != INSTALLATION_FILE && DisplayName(files[i].0) in FileNames(t)
    {
      assert Holds(t, files[i]);
      OnlyMarker(files[i].0);
    }
    forall name | name in FileNames(t)
      ensures name in PathsOf(records)
    {
      var p :| p in t && t[p].File? && DisplayName(p) != INSTALLATION_FILE && name == DisplayName(p);
      var i :| 0 <= i < |files| && files[i].0 == p;
      assert records[i].path == name;
    }
  }

  ghost predicate AllMatch(codec: Codec, t: Tree, records: seq<InstalledFile>) {
    forall f :: f in records ==> EntryMatches(codec, t, f)
  }

  lemma VerifiedIfMatching(codec: Codec, t: Tree, spec: ArtifactSpec, files: seq<(Path, seq<Byte>)>)
    requires Extracted(codec, t, spec, files) && codec.Faithful()
    ensures Verified(codec, t, spec) <==> RequiredExist(t, spec) && AllMatch(codec, t, Records(codec, files))
  {
    hide HoldsExactly, Records, EntryMatches, FileNames, PathsOf, Distinct, SortByPath, RequiredExist, AllPlain;
    var records := Records(codec, files);
    var sorted := SortByPath(records);
    SortDistinct(records);
    ExtractedNames(codec, t, files);
    PlainTree(t, files);
    RecordCount(codec, files);
    forall f
      ensures f in sorted <==> f in records
    {
      assert f in sorted <==> f in multiset(sorted);
      assert f in records <==> f in multiset(records);
    }
    assert HasInventory(codec, t, spec, sorted);
    assert InventoryMatches(codec, t, sorted) <==> AllMatch(codec, t, records) by {
      MatchesSorted(codec, t, records, sorted);
    }
  }

  lemma MatchesSorted(codec: Codec, t: Tree, records: seq<InstalledFile>, sorted: seq<InstalledFile>)
    requires forall f :: f in sorted <==> f in records
    requires |sorted| > 0 && Distinct(sorted) && FileNames(t) == PathsOf(sorted)
    ensures InventoryMatches(codec, t, sorted) <==> AllMatch(codec, t, records)
  {
    hide EntryMatches, FileNames, PathsOf, Distinct;
    if InventoryMatches(codec, t, sorted) {
      forall f | f in records
        ensures EntryMatches(codec, t, f)
      {
        var i :| 0 <= i < |sorted| && sorted[i] == f;
      }
    }
  }

  lemma RecordCount(codec: Codec, files: seq<(Path, seq<Byte>)>)
    ensures |Records(codec, files)| == |files|
  {
  }

  lemma PlainTree(t: Tree, files: seq<(Path, seq<Byte>)>)
    requires HoldsExactly(t, files, {MARKER})
    ensures AllPlain(t)
  {
  }

  /** Everything an extraction installs: the archive's files and the inventory. */
  function InstalledBy(codec: Codec, spec: ArtifactSpec, files: seq<(Path, seq<Byte>)>): seq<(Path, seq<Byte>)> {
    files + [(MARKER, MarkerContent(codec, spec, files))]
  }

  /** The path recorded for a file names a file of the archive, or the inventory, with the recorded size and digest. */
  predicate FoundAsRecorded(codec: Codec, spec: ArtifactSpec, files: seq<(Path, seq<Byte>)>, f: (Path, seq<Byte>)) {
    var path, all := DisplayName(f.0), InstalledBy(codec, spec, files);
    && NamesFile(path)
    && exists i :: 0 <= i < |all| && all[i].0 == Names(Components(path))
                   && |all[i].1| == |f.1| && codec.digest(all[i].1) == codec.digest(f.1)
  }

  lemma InstalledHere(codec: Codec, t: Tree, spec: ArtifactSpec, files: seq<(Path, seq<Byte>)>, p: Path)
    requires Extracted(codec, t, spec, files)
    ensures var all := InstalledBy(codec, spec, files);
            && (FileAt(t, p) <==> exists i :: 0 <= i < |all| && all[i].0 == p)
            && (forall i :: 0 <= i < |all| && all[i].0 == p ==> FileAt(t, p) && t[p].content == all[i].1)
  {
    hide AreNames, Distinct, TotalSize, MarkerContent, Records;
    var all := InstalledBy(codec, spec, files);
    forall i | 0 <= i < |all|
      ensures FileAt(t, all[i].0) && t[all[i].0].content == all[i].1
    {
      if i < |files| {
        assert Holds(t, files[i]);
      }
    }
    if FileAt(t, p) {
      if p == MARKER {
        assert all[|files|].0 == p;
      } else {
        var i :| 0 <= i < |files| && files[i].0 == p;
        assert all[i].0 == p;
      }
    }
  }

  lemma MatchesIffFound(codec: Codec, t: Tree, spec: ArtifactSpec, files: seq<(Path, seq<Byte>)>, f: (Path, seq<Byte>))
    requires Extracted(codec, t, spec, files)
    ensures EntryMatches(codec, t, RecordOf(codec, f)) <==> FoundAsRecorded(codec, spec, files, f)
  {
    hide Extracted, Components, DisplayName, InstalledBy;
    if NamesFile(DisplayName(f.0)) {
      InstalledHere(codec, t, spec, files, Names(Components(DisplayName(f.0))));
    }
  }

  /** A file whose path has no backslash is found under the path recorded for it. */
  lemma FoundWithoutBackslash(codec: Codec, spec: ArtifactSpec, files: seq<(Path, seq<Byte>)>, i: nat)
    requires i < |files| && |files[i].0| > 0 && AreNames(files[i].0) && !HasBackslash(files[i].0)
    ensures FoundAsRecorded(codec, spec, files, files[i])
  {
    hide AreNames, Components, Join, MarkerContent;
    var p := files[i].0;
    NoBackslash(p);
    ComponentsOfJoin(p);
    assert InstalledBy(codec, spec, files)[i] == files[i];
  }

  /**
   * Whether an extraction passes verification can be told from the archive: exactly if every required path exists and
   * every file with a backslash in its path, which is recorded with slashes instead, is found as recorded.
   */
  lemma VerifiedIff(codec: Codec, t: Tree, spec: ArtifactSpec, files: seq<(Path, seq<Byte>)>)
    requires Extracted(codec, t, spec, files) && codec.Faithful()
    ensures Verified(codec, t, spec) <==>
            && RequiredExist(t, spec)
            && forall i :: 0 <= i < |files| && HasBackslash(files[i].0) ==> FoundAsRecorded(codec, spec, files, files[i])
  {
    hide Extracted, EntryMatches, FoundAsRecorded, HasBackslash, RequiredExist, Verified, RecordOf, AreNames;
    VerifiedIfMatching(codec, t, spec, files);
    ExtractedFiles(codec, t, spec, files);
    var records := Records(codec, files);
    forall i | 0 <= i < |files|
      ensures EntryMatches(codec, t, records[i]) <==> FoundAsRecorded(codec, spec, files, files[i])
      ensures !HasBackslash(files[i].0) ==> FoundAsRecorded(codec, spec, files, files[i])
    {
      assert records[i] == RecordOf(codec, files[i]);
      MatchesIffFound(codec, t, spec, files, files[i]);
      if !HasBackslash(files[i].0) {
        FoundWithoutBackslash(codec, spec, files, i);
      }
    }
    if forall i :: 0 <= i < |files| && HasBackslash(files[i].0) ==> FoundAsRecorded(codec, spec, files, files[i]) {
      assert AllMatch(codec, t, records);
    } else {
      var i :| 0 <= i < |files| && !FoundAsRecorded(codec, spec, files, files[i]);
      assert records[i] in records;
    }
  }

  lemma ExtractedFiles(codec: Codec, t: Tree, spec: ArtifactSpec, files: seq<(Path, seq<Byte>)>)
    requires Extracted(codec, t, spec, files)
    ensures forall i :: 0 <= i < |files| ==> |files[i].0| > 0 && AreNames(files[i].0)
  {
    hide AreNames, Distinct;
    forall i | 0 <= i < |files|
      ensures |files[i].0| > 0 && AreNames(files[i].0)
    {
      assert Holds(t, files[i]);
    }
  }

  /** Where no name has a backslash, the required paths alone decide. */
  lemma ExtractedIsVerified(codec: Codec, t: Tree, spec: ArtifactSpec, files: seq<(Path, seq<Byte>)>)
    requires Extracted(codec, t, spec, files) && codec.Faithful()
    requires forall i :: 0 <= i < |files| ==> !HasBackslash(files[i].0)
    ensures Verified(codec, t, spec) <==> RequiredExist(t, spec)
  {
    hide Extracted, Verified, RequiredExist, HasBackslash, FoundAsRecorded;
    VerifiedIff(codec, t, spec, files);
  }

  // ---- What extraction refuses

  lemma LaidAt(entries: seq<Entry>, root: string, k: nat)
    requires k < |entries| && Laid(entries, root).Some?
    ensures Laid(entries[..k], root).Some? && LayEntry(Laid(entries[..k], root).value, entries[k], root).Some?
  {
    hide LayEntry;
    LaidPrefix(entries, root, k);
    LaidPrefix(entries, root, k + 1);
    assert entries[..k + 1] == entries[..k] + [entries[k]];
    OneMoreEntry(entries[..k], entries[k], root);
  }

  /** An entry of any archive that can be extracted: readable, below the root, and a plain file or a directory. */
  lemma EntriesAreSafe(codec: Codec, spec: ArtifactSpec, entries: seq<Entry>, k: nat)
    requires k < |entries| && Extractable(codec, spec, entries)
    ensures var entry := entries[k];
            && !entry.Malformed?
            && StripArchiveRoot(entry.path, spec.archiveRoot).Some?
            && (StripArchiveRoot(entry.path, spec.archiveRoot) != Some([]) ==>
                  entry.kind.DirectoryEntry? || (entry.kind.FileEntry? && !entry.broken))
  {
    hide Laid, ArchiveFiles, StripArchiveRoot, MkdirAll, WithFile;
    LaidAt(entries, spec.archiveRoot, k);
  }

  /** Two files of an archive that can be extracted, and all of them together. */
  lemma FilesAreApart(codec: Codec, spec: ArtifactSpec, entries: seq<Entry>)
    requires Extractable(codec, spec, entries)
    ensures var files := ArchiveFiles(entries, spec.archiveRoot);
            && |entries| <= 16384 && |files| > 0
            && TotalSize(files) <= spec.maxUnpackedBytes
            && (forall i, j :: 0 <= i < j < |files| ==>
                  !(|DisplayName(files[i].0)| == |DisplayName(files[j].0)|
                    && forall n :: 0 <= n < |DisplayName(files[i].0)| ==>
                         SameLetter(DisplayName(files[i].0)[n], DisplayName(files[j].0)[n])))
  {
    hide Laid, ArchiveFiles, DisplayName, SameLetter, Lowered;
    var files := ArchiveFiles(entries, spec.archiveRoot);
    forall i, j | 0 <= i < j < |files|
      ensures !(|DisplayName(files[i].0)| == |DisplayName(files[j].0)|
                && forall n :: 0 <= n < |DisplayName(files[i].0)| ==>
                     SameLetter(DisplayName(files[i].0)[n], DisplayName(files[j].0)[n]))
    {
      LoweredIff(DisplayName(files[i].0), DisplayName(files[j].0));
      assert Records(codec, files)[i].path == DisplayName(files[i].0);
      assert Records(codec, files)[j].path == DisplayName(files[j].0);
    }
  }

  /** A file never replaces anything: what was there before it still is. */
  lemma NothingIsReplaced(t: Tree, p: Path, content: seq<Byte>)
    requires WellFormed(t) && |p| > 0 && AreNames(p) && WithFile(t, p, content).Some?
    ensures p !in t && forall q :: q in t ==> q in WithFile(t, p, content).value && WithFile(t, p, content).value[q] == t[q]
    ensures forall q :: q in WithFile(t, p, content).value && q !in t && q != p ==> WithFile(t, p, content).value[q] == Dir
  {
    hide MkdirAll, WellFormed, AreNames;
    ParentNames(p);
    MkdirAllAdds(t, Parent(p));
  }

  // ---- Which archives can be installed

  lemma {:induction false} LaidHolds(entries: seq<Entry>, root: string)
    ensures Laid(entries, root).Some? ==>
              && WellFormed(Laid(entries, root).value) && Laid(entries, root).value[[]] == Dir
              && HoldsExactly(Laid(entries, root).value, ArchiveFiles(entries, root), {})
  {
    hide LayEntry, FileOf, HoldsExactly, WellFormed;
    if |entries| == 0 {
      EmptyIsLaid(root);
    } else {
      var init, last := entries[..|entries| - 1], entries[|entries| - 1];
      LaidHolds(init, root);
      if Laid(init, root).Some? && LayEntry(Laid(init, root).value, last, root).Some? {
        LayHolds(Laid(init, root).value, ArchiveFiles(init, root), last, root);
      }
    }
  }

  lemma EmptyIsLaid(root: string)
    ensures Laid([], root) == Some(EMPTY_DIR) && ArchiveFiles([], root) == []
    ensures WellFormed(EMPTY_DIR) && EMPTY_DIR[[]] == Dir && HoldsExactly(EMPTY_DIR, [], {})
  {
  }

  lemma LayHolds(t: Tree, files: seq<(Path, seq<Byte>)>, entry: Entry, root: string)
    requires WellFormed(t) && t[[]] == Dir && HoldsExactly(t, files, {}) && LayEntry(t, entry, root).Some?
    ensures var after := LayEntry(t, entry, root).value;
            WellFormed(after) && after[[]] == Dir && HoldsExactly(after, files + FileOf(entry, root), {})
  {
    hide HoldsExactly, MkdirAll, StripArchiveRoot, WellFormed, AreNames, Flatten;
    StrippedNames(entry.path, root);
    var relative := StripArchiveRoot(entry.path, root).value;
    assert files + [] == files;
    if |relative| > 0 {
      if entry.kind.DirectoryEntry? {
        MkdirHolds(t, files, relative);
        MkdirAllAdds(t, relative);
      } else {
        WithFileHolds(t, files, (relative, Flatten(entry.pieces)));
        WithFileWellFormed(t, relative, Flatten(entry.pieces));
      }
    }
  }

  lemma WithFileWellFormed(t: Tree, p: Path, content: seq<Byte>)
    requires WellFormed(t) && t[[]] == Dir && |p| > 0 && AreNames(p) && WithFile(t, p, content).Some?
    ensures WellFormed(WithFile(t, p, content).value) && WithFile(t, p, content).value[[]] == Dir
  {
    hide MkdirAll;
    ParentNames(p);
    MkdirAllAdds(t, Parent(p));
  }

  /** What can be extracted leaves, when extracted, the archive's files and their inventory. */
  lemma ExtractableExtracts(codec: Codec, spec: ArtifactSpec, entries: seq<Entry>)
    requires Extractable(codec, spec, entries)
    ensures Extracted(codec, InstalledTree(codec, spec, entries), spec, ArchiveFiles(entries, spec.archiveRoot))
  {
    hide Laid, ArchiveFiles, HoldsExactly, DistinctKeys, Lowered, WellFormed, TotalSize, SortByPath;
    LaidHolds(entries, spec.archiveRoot);
    var t, files := Laid(entries, spec.archiveRoot).value, ArchiveFiles(entries, spec.archiveRoot);
    KeysDistinct(Records(codec, files));
    TakenIsExtracted(codec, spec, entries, t, Records(codec, files), KeysOf(Records(codec, files)), TotalSize(files));
  }

  /** An archive of which an installation is verified. */
  ghost predicate Installable(codec: Codec, spec: ArtifactSpec, content: seq<Byte>) {
    var unpacked := codec.unpack(content);
    && unpacked.Some?
    && Extractable(codec, spec, unpacked.value)
    && Verified(codec, InstalledTree(codec, spec, unpacked.value), spec)
  }

  /**
   * Whether an archive can be installed, told from its entries: it can be extracted, every required path exists in
   * what that gives, and every file with a backslash in its path is found under the path recorded for it.
   */
  lemma InstallableIff(codec: Codec, spec: ArtifactSpec, content: seq<Byte>)
    requires codec.Faithful()
    ensures Installable(codec, spec, content) <==>
              && codec.unpack(content).Some?
              && var entries := codec.unpack(content).value;
                 var files := ArchiveFiles(entries, spec.archiveRoot);
                 && Extractable(codec, spec, entries)
                 && RequiredExist(InstalledTree(codec, spec, entries), spec)
                 && forall i :: 0 <= i < |files| && HasBackslash(files[i].0) ==>
                      FoundAsRecorded(codec, spec, files, files[i])
  {
    hide Extracted, FoundAsRecorded, HasBackslash, RequiredExist, Verified, Laid, ArchiveFiles;
    var unpacked := codec.unpack(content);
    if unpacked.Some? && Extractable(codec, spec, unpacked.value) {
      var entries := unpacked.value;
      ExtractableExtracts(codec, spec, entries);
      VerifiedIff(codec, InstalledTree(codec, spec, entries), spec, ArchiveFiles(entries, spec.archiveRoot));
    }
  }
}
