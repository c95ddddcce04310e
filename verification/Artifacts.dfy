/** Curated artifacts: the installation inventory of an object, and its verification. */
module Artifacts {
  import opened Prelude
  import opened Paths
  import opened Trees

  datatype InstalledFile = InstalledFile(path: string, size: nat, digest: string)

  datatype Installation = Installation(
    schemaVersion: nat,
    artifactId: string,
    archiveDigest: string,
    files: seq<InstalledFile>)

  /** A `read` that returns something; one that returns nothing is the end of the file. */
  type Piece = s: seq<Byte> | |s| > 0 witness [0]

  datatype EntryKind = DirectoryEntry | FileEntry | OtherEntry

  /** An archive entry; reading a file gives its pieces one after the other, and then fails if it is broken. */
  datatype Entry = Malformed | Entry(path: string, kind: EntryKind, pieces: seq<Piece>, broken: bool)

  /** What the store takes from its libraries: JSON, SHA-256 and the archive format, as functions of bytes. */
  datatype Codec = Codec(
    encode: Installation -> seq<Byte>,
    decode: seq<Byte> -> Option<Installation>,
    digest: seq<Byte> -> string,
    unpack: seq<Byte> -> Option<seq<Entry>>)
  {
    /** An encoded inventory decodes to itself. */
    ghost predicate Faithful() {
      forall i :: decode(encode(i)) == Some(i)
    }
  }

  datatype ArtifactSpec = ArtifactSpec(
    id: string,
    kind: string,
    platforms: seq<string>,
    size: nat,
    sha256: string,
    archiveRoot: string,
    maxUnpackedBytes: nat,
    requiredPaths: seq<string>)
  {
    /** `validate_artifact`, without licenses. */
    predicate Valid(): (valid: bool)
      ensures valid ==> |sha256| == 64 && maxUnpackedBytes <= U64_MAX && size <= U64_MAX
    {
      && |id| > 0
      && (forall i :: 0 <= i < |id| ==> IsIdChar(id[i]))
      && kind in {"runtime", "stt-model", "tts-model"}
      && 0 < size <= U64_MAX
      && 0 < maxUnpackedBytes <= U64_MAX
      && |sha256| == 64
      && (forall i :: 0 <= i < |sha256| ==> IsHexDigit(sha256[i]))
      && |archiveRoot| > 0
      && |requiredPaths| > 0
      && (forall i :: 0 <= i < |requiredPaths| ==> SafeRelative(requiredPaths[i]))
    }
  }

  predicate IsIdChar(c: char) {
    'a' <= c <= 'z' || 'A' <= c <= 'Z' || '0' <= c <= '9' || c in "-_."
  }

  predicate IsHexDigit(c: char) {
    'a' <= c <= 'f' || 'A' <= c <= 'F' || '0' <= c <= '9'
  }

  const MARKER: Path := [INSTALLATION_FILE]

  lemma MarkerIsAName()
    ensures AreNames(MARKER) && DisplayName(MARKER) == INSTALLATION_FILE && '\\' !in INSTALLATION_FILE
  {
    assert |INSTALLATION_FILE| == 35 && |MARKER| == 1;
    assert NoSlash(INSTALLATION_FILE);
  }

  // ---- Verification

  /** The path is a file of this size and digest. */
  predicate FileMatches(codec: Codec, t: Tree, p: Path, size: nat, digest: string) {
    FileAt(t, p) && |t[p].content| == size && codec.digest(t[p].content) == digest
  }

  /** `verify_archive_file`: it accepts a matching file, unless a read fails. */
  method VerifyFile(codec: Codec, t: Tree, p: Path, size: nat, digest: string, io: Io) returns (ok: bool)
    modifies io
    ensures io.ticks >= old(io.ticks)
    ensures ok <==> FileMatches(codec, t, p, size, digest) && io.Clean(old(io.ticks), io.ticks)
  {
    var inspected := io.Try();
    if !inspected || !FileAt(t, p) || |t[p].content| != size {
      return false;
    }
    var isOpen := io.Try();
    if !isOpen {
      return false;
    }
    var read := io.ReadAll(t[p].content);
    ok := read.Some? && codec.digest(read.value) == digest;
  }

  predicate EntryMatches(codec: Codec, t: Tree, f: InstalledFile) {
    NamesFile(f.path) && FileMatches(codec, t, Names(Components(f.path)), f.size, f.digest)
  }

  function PathsOf(files: seq<InstalledFile>): set<string> {
    set i | 0 <= i < |files| :: files[i].path
  }

  predicate Distinct(files: seq<InstalledFile>) {
    forall i, j :: 0 <= i < j < |files| ==> files[i].path != files[j].path
  }

  /** Something has this path, and if the path can only name a directory, a directory has. */
  predicate PathExists(t: Tree, path: string) {
    && SafeRelative(path)
    && Names(Components(path)) in t
    && (NamesFile(path) || t[Names(Components(path))] == Dir)
  }

  predicate RequiredExist(t: Tree, spec: ArtifactSpec) {
    forall i :: 0 <= i < |spec.requiredPaths| ==> PathExists(t, spec.requiredPaths[i])
  }

  predicate HasInventory(codec: Codec, t: Tree, spec: ArtifactSpec, files: seq<InstalledFile>) {
    FileAt(t, MARKER) && codec.decode(t[MARKER].content) == Some(Installation(1, spec.id, spec.sha256, files))
  }

  /**
   * An object is as its artifact demands: its inventory is this artifact's, names existing files of the recorded
   * size and digest, each once, and names every file there is; nothing but files and directories is present; and
   * every required path exists.
   */
  ghost predicate Verified(codec: Codec, t: Tree, spec: ArtifactSpec) {
    && AllPlain(t)
    && RequiredExist(t, spec)
    && exists files :: HasInventory(codec, t, spec, files) && InventoryMatches(codec, t, files)
  }

  ghost predicate InventoryMatches(codec: Codec, t: Tree, files: seq<InstalledFile>) {
    && |files| > 0
    && Distinct(files)
    && (forall i :: 0 <= i < |files| ==> EntryMatches(codec, t, files[i]))
    && FileNames(t) == PathsOf(files)
  }

  /** The inventory of this artifact, if the marker holds it and can be read. */
  method ReadInventory(codec: Codec, t: Tree, spec: ArtifactSpec, io: Io) returns (r: Option<seq<InstalledFile>>)
    modifies io
    ensures io.ticks > old(io.ticks)
    ensures r.Some? ==> HasInventory(codec, t, spec, r.value) && |r.value| > 0 && io.Clean(old(io.ticks), io.ticks)
    ensures r.None? && io.Clean(old(io.ticks), io.ticks) ==>
              forall files :: HasInventory(codec, t, spec, files) ==> |files| == 0
  {
    var isOpen := io.Try();
    if !isOpen || !FileAt(t, MARKER) {
      return None;
    }
    var marker := io.ReadAll(t[MARKER].content);
    if marker.None? {
      return None;
    }
    var decoded := codec.decode(marker.value);
    if decoded.None? {
      return None;
    }
    var installation := decoded.value;
    if installation.schemaVersion != 1 || installation.artifactId != spec.id
       || installation.archiveDigest != spec.sha256 || |installation.files| == 0 {
      return None;
    }
    r := Some(installation.files);
  }

  /** The loop over the inventory: every entry is new, safe and present as recorded. */
  method CheckEntries(codec: Codec, t: Tree, files: seq<InstalledFile>, io: Io) returns (r: Option<set<string>>)
    modifies io
    ensures io.ticks >= old(io.ticks)
    ensures r.Some? <==>
              && Distinct(files)
              && (forall i :: 0 <= i < |files| ==> EntryMatches(codec, t, files[i]))
              && io.Clean(old(io.ticks), io.ticks)
    ensures r.Some? ==> r.value == PathsOf(files)
  {
    hide Components, PathsOf, Distinct, FileMatches;
    var expected: set<string> := {};
    NoPaths(files);
    for i := 0 to |files|
      invariant expected == PathsOf(files[..i]) && Distinct(files[..i])
      invariant forall j :: 0 <= j < i ==> EntryMatches(codec, t, files[j])
      invariant io.ticks >= old(io.ticks) && io.Clean(old(io.ticks), io.ticks)
    {
      if !SafeRelative(files[i].path) {
        return None;
      }
      OneMorePath(files, i);
      if files[i].path in expected {
        return None;
      }
      expected := expected + {files[i].path};
      if !NamesFile(files[i].path) {
        return None;
      }
      var matches := VerifyFile(codec, t, Names(Components(files[i].path)), files[i].size, files[i].digest, io);
      if !matches {
        return None;
      }
    }
    assert files[..|files|] == files;
    return Some(expected);
  }

  /**
   * `verify_object`: an object passes exactly if it is verified and every read succeeded. A read that fails makes it
   * refuse a good object.
   */
  method VerifyObject(codec: Codec, t: Tree, spec: ArtifactSpec, io: Io) returns (ok: bool)
    requires WellFormed(t)
    modifies io
    ensures io.ticks > old(io.ticks)
    ensures ok <==> Verified(codec, t, spec) && io.Clean(old(io.ticks), io.ticks)
  {
    hide WellFormed, EntryMatches, FileNames, AllPlain, RequiredExist, PathsOf, Distinct, HasInventory;
    var files := ReadInventory(codec, t, spec, io);
    if files.None? {
      return false;
    }
    OneInventory(codec, t, spec, files.value);
    var expected := CheckEntries(codec, t, files.value, io);
    if expected.None? {
      return false;
    }
    var actual := InventoryFiles(t, io);
    if actual != Some(expected.value) {
      return false;
    }
    assert InventoryMatches(codec, t, files.value);
    ok := CheckRequired(t, spec, io);
  }

  method CheckRequired(t: Tree, spec: ArtifactSpec, io: Io) returns (ok: bool)
    modifies io
    ensures io.ticks >= old(io.ticks)
    ensures ok <==> RequiredExist(t, spec) && io.Clean(old(io.ticks), io.ticks)
  {
    hide PathExists;
    for i := 0 to |spec.requiredPaths|
      invariant forall j :: 0 <= j < i ==> PathExists(t, spec.requiredPaths[j])
      invariant io.ticks >= old(io.ticks) && io.Clean(old(io.ticks), io.ticks)
    {
      var seen := io.Exists(PathExists(t, spec.requiredPaths[i]));
      if !seen {
        return false;
      }
    }
    return true;
  }

  lemma OneInventory(codec: Codec, t: Tree, spec: ArtifactSpec, files: seq<InstalledFile>)
    requires HasInventory(codec, t, spec, files)
    ensures forall other :: HasInventory(codec, t, spec, other) ==> other == files
  {
  }

  lemma NoPaths(files: seq<InstalledFile>)
    ensures PathsOf(files[..0]) == {} && Distinct(files[..0])
  {
  }

  lemma OneMorePath(files: seq<InstalledFile>, i: nat)
    requires i < |files|
    ensures PathsOf(files[..i + 1]) == PathsOf(files[..i]) + {files[i].path}
    ensures Distinct(files[..i]) && files[i].path !in PathsOf(files[..i]) ==> Distinct(files[..i + 1])
    ensures files[i].path in PathsOf(files[..i]) ==> !Distinct(files)
  {
    var longer := files[..i + 1];
    assert longer[i] == files[i];
    assert forall j :: 0 <= j < i ==> longer[j] == files[..i][j] == files[j];
  }

  // ---- What verification detects

  /** The file that an inventory entry of this name is about. */
  predicate SameFile(codec: Codec, t: Tree, u: Tree, name: string) {
    NamesFile(name) && var p := Names(Components(name));
    && FileAt(t, p)
    && FileAt(u, p)
    && |u[p].content| == |t[p].content|
    && codec.digest(u[p].content) == codec.digest(t[p].content)
  }

  /**
   * What may happen to a verified object without being noticed, as long as its inventory is not rewritten: it is still
   * verified exactly if it holds nothing but files and directories, has the same file names and the required paths, and
   * every file has a content of the same size and digest.
   */
  lemma VerifiedMeansUntouched(codec: Codec, t: Tree, u: Tree, spec: ArtifactSpec)
    requires Verified(codec, t, spec) && FileAt(u, MARKER) && u[MARKER].content == t[MARKER].content
    ensures Verified(codec, u, spec) <==>
              && AllPlain(u)
              && RequiredExist(u, spec)
              && FileNames(u) == FileNames(t)
              && forall name :: name in FileNames(t) ==> SameFile(codec, t, u, name)
  {
    hide AllPlain, RequiredExist, FileNames, Components, Distinct, NamesFile;
    var files :| HasInventory(codec, t, spec, files) && InventoryMatches(codec, t, files);
    assert HasInventory(codec, u, spec, files);
    OneInventory(codec, u, spec, files);
    if FileNames(u) == FileNames(t) {
      SameFilesMatch(codec, t, u, files);
    }
  }

  lemma SameFilesMatch(codec: Codec, t: Tree, u: Tree, files: seq<InstalledFile>)
    requires forall i :: 0 <= i < |files| ==> EntryMatches(codec, t, files[i])
    ensures (forall i :: 0 <= i < |files| ==> EntryMatches(codec, u, files[i])) <==>
              forall name :: name in PathsOf(files) ==> SameFile(codec, t, u, name)
  {
    hide Components, NamesFile;
    if forall i :: 0 <= i < |files| ==> EntryMatches(codec, u, files[i]) {
      forall name | name in PathsOf(files)
        ensures SameFile(codec, t, u, name)
      {
        var i :| 0 <= i < |files| && files[i].path == name;
        assert EntryMatches(codec, t, files[i]) && EntryMatches(codec, u, files[i]);
      }
    }
    if forall name :: name in PathsOf(files) ==> SameFile(codec, t, u, name) {
      forall i | 0 <= i < |files|
        ensures EntryMatches(codec, u, files[i])
      {
        assert files[i].path in PathsOf(files) && EntryMatches(codec, t, files[i]);
      }
    }
  }

  /** A file that the inventory does not list. */
  lemma AddedFileIsRefused(codec: Codec, t: Tree, spec: ArtifactSpec, p: Path, content: seq<Byte>)
    requires Verified(codec, t, spec)
    requires DisplayName(p) !in FileNames(t) && DisplayName(p) != INSTALLATION_FILE
    ensures !Verified(codec, t[p := File(content)], spec)
  {
    hide AllPlain, RequiredExist, Components, Distinct, NamesFile, DisplayName, EntryMatches, Verified;
    MarkerIsAName();
    var u := t[p := File(content)];
    VerifiedMarker(codec, t, spec);
    VerifiedMeansUntouched(codec, t, u, spec);
    assert DisplayName(p) in FileNames(u);
  }

  /** A listed file that is missing. */
  lemma RemovedFileIsRefused(codec: Codec, t: Tree, spec: ArtifactSpec, name: string)
    requires Verified(codec, t, spec) && name in FileNames(t)
    ensures NamesFile(name) && !Verified(codec, t - {Names(Components(name))}, spec)
  {
    hide AllPlain, RequiredExist, Components, Distinct, DisplayName, FileNames, Verified;
    ListedFile(codec, t, spec, name);
    VerifiedMarker(codec, t, spec);
    var u := t - {Names(Components(name))};
    if FileAt(u, MARKER) {
      VerifiedMeansUntouched(codec, t, u, spec);
    } else {
      MarkerNeeded(codec, u, spec);
    }
  }

  /** A listed file whose content has another size or digest. */
  lemma ChangedFileIsRefused(codec: Codec, t: Tree, spec: ArtifactSpec, name: string, content: seq<Byte>)
    requires Verified(codec, t, spec) && name in FileNames(t)
    ensures NamesFile(name) && FileAt(t, Names(Components(name)))
    ensures var p := Names(Components(name));
            Verified(codec, t[p := File(content)], spec) <==>
              |content| == |t[p].content| && codec.digest(content) == codec.digest(t[p].content)
  {
    hide AllPlain, RequiredExist, Components, Distinct, DisplayName, FileNames, Verified;
    ListedIsNotMarker(t, name);
    ListedFile(codec, t, spec, name);
    VerifiedMarker(codec, t, spec);
    var p := Names(Components(name));
    var u := t[p := File(content)];
    VerifiedMeansUntouched(codec, t, u, spec);
    SameShape(t, p, content, spec);
    EveryListedFile(codec, t, spec);
  }

  lemma ListedIsNotMarker(t: Tree, name: string)
    requires name in FileNames(t)
    ensures NamesFile(name) ==> Names(Components(name)) != MARKER
  {
    hide Components;
    if NamesFile(name) && |Components(name)| == 1 {
      OneComponent(name);
    }
  }

  /** Anything that is neither a file nor a directory, a symbolic link above all. */
  lemma LinkIsRefused(codec: Codec, t: Tree, spec: ArtifactSpec, p: Path, node: Node)
    requires !Plain(node)
    ensures !Verified(codec, t[p := node], spec)
  {
    hide RequiredExist, InventoryMatches, HasInventory;
    var u := t[p := node];
    assert p in u && u[p] == node;
  }

  /** An object is one artifact's, and of one archive. */
  lemma OneArtifact(codec: Codec, t: Tree, a: ArtifactSpec, b: ArtifactSpec)
    requires Verified(codec, t, a) && Verified(codec, t, b)
    ensures a.id == b.id && a.sha256 == b.sha256
  {
    hide AllPlain, RequiredExist, InventoryMatches;
  }

  lemma VerifiedMarker(codec: Codec, t: Tree, spec: ArtifactSpec)
    requires Verified(codec, t, spec)
    ensures FileAt(t, MARKER) && AllPlain(t) && RequiredExist(t, spec)
  {
    hide AllPlain, RequiredExist, InventoryMatches;
  }

  lemma MarkerNeeded(codec: Codec, t: Tree, spec: ArtifactSpec)
    requires !FileAt(t, MARKER)
    ensures !Verified(codec, t, spec)
  {
    hide AllPlain, RequiredExist, InventoryMatches;
  }

  lemma ListedFile(codec: Codec, t: Tree, spec: ArtifactSpec, name: string)
    requires Verified(codec, t, spec) && name in FileNames(t)
    ensures SameFile(codec, t, t, name)
  {
    hide AllPlain, RequiredExist, FileNames, Components, Distinct, NamesFile;
    VerifiedMarker(codec, t, spec);
    VerifiedMeansUntouched(codec, t, t, spec);
  }

  lemma EveryListedFile(codec: Codec, t: Tree, spec: ArtifactSpec)
    requires Verified(codec, t, spec)
    ensures forall name :: name in FileNames(t) ==> SameFile(codec, t, t, name)
  {
    hide Verified, FileNames, SameFile;
    forall name | name in FileNames(t)
      ensures SameFile(codec, t, t, name)
    {
      ListedFile(codec, t, spec, name);
    }
  }

  /** Other content for a file changes no name and no kind. */
  lemma SameShape(t: Tree, p: Path, content: seq<Byte>, spec: ArtifactSpec)
    requires FileAt(t, p)
    ensures var u := t[p := File(content)];
            && FileNames(u) == FileNames(t)
            && (AllPlain(t) ==> AllPlain(u))
            && (RequiredExist(t, spec) ==> RequiredExist(u, spec))
  {
    hide DisplayName, Components, NamesFile;
    var u := t[p := File(content)];
    assert u.Keys == t.Keys;
    forall i | 0 <= i < |spec.requiredPaths| && PathExists(t, spec.requiredPaths[i])
      ensures PathExists(u, spec.requiredPaths[i])
    {
    }
  }

  /** An object without something required. */
  lemma MissingPathIsRefused(codec: Codec, t: Tree, spec: ArtifactSpec, i: nat)
    requires i < |spec.requiredPaths| && SafeRelative(spec.requiredPaths[i])
    ensures !Verified(codec, t - {Names(Components(spec.requiredPaths[i]))}, spec)
  {
    hide Components, InventoryMatches, AllPlain, HasInventory;
    var u := t - {Names(Components(spec.requiredPaths[i]))};
    assert !PathExists(u, spec.requiredPaths[i]);
  }

  /** A path that ends in a slash is not that of a file. */
  lemma SlashNeedsDirectory(t: Tree, path: string)
    requires SafeRelative(path) && path[|path| - 1] == '/' && FileAt(t, Names(Components(path)))
    ensures !PathExists(t, path) && !NamesFile(path)
  {
    hide Components;
    SplitLast(path);
  }

  /** An object with an inventory of another schema. */
  lemma OtherSchemaIsRefused(codec: Codec, t: Tree, spec: ArtifactSpec, inventory: Installation)
    requires FileAt(t, MARKER) && codec.decode(t[MARKER].content) == Some(inventory) && inventory.schemaVersion != 1
    ensures !Verified(codec, t, spec)
  {
    hide InventoryMatches, AllPlain, RequiredExist;
  }

  /** An artifact description that lacks something, or names something outside the object. */
  lemma BadArtifactIsRefused(spec: ArtifactSpec)
    ensures spec.id == "" || (exists i :: 0 <= i < |spec.id| && spec.id[i] in {'/', '\\', ' ', '\0'}) ==> !spec.Valid()
    ensures spec.kind !in {"runtime", "stt-model", "tts-model"} ==> !spec.Valid()
    ensures spec.size == 0 || spec.maxUnpackedBytes == 0 || spec.archiveRoot == "" ==> !spec.Valid()
    ensures |spec.sha256| != 64 || (exists i :: 0 <= i < |spec.sha256| && spec.sha256[i] in {'g', '-', '/'}) ==> !spec.Valid()
    ensures spec.requiredPaths == [] ==> !spec.Valid()
    ensures (exists i :: 0 <= i < |spec.requiredPaths| && ".." in Split(spec.requiredPaths[i])) ==> !spec.Valid()
  {
    forall i | 0 <= i < |spec.requiredPaths| && ".." in Split(spec.requiredPaths[i])
      ensures !SafeRelative(spec.requiredPaths[i])
    {
      SafeIff(spec.requiredPaths[i]);
    }
  }
}
