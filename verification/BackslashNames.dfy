/** Two archives with a backslash in a name: one that extracts and never verifies, and one that does verify. */
module BackslashNames {
  import opened Prelude
  import opened Paths
  import opened Trees
  import opened Artifacts
  import opened Extraction

  /** An archive entry for a file below the root. */
  function FileBelow(root: string, names: seq<string>, content: Piece): Entry {
    Entry.Entry(Join([root] + names), FileEntry, [content], false)
  }

  lemma Below(root: string, names: seq<string>, content: Piece)
    requires IsName(root) && |names| > 0 && AreNames(names)
    ensures StripArchiveRoot(FileBelow(root, names, content).path, root) == Some(names)
    ensures FileOf(FileBelow(root, names, content), root) == [(names, content)]
    ensures forall t :: LayEntry(t, FileBelow(root, names, content), root) == WithFile(t, names, content)
  {
    hide Components, Join, IsName;
    ComponentsOfJoin([root] + names);
    AllNames(root, names);
    assert ([root] + names)[1..] == names;
    assert [content][..0] == [] && Flatten<Byte>([content]) == content by {
      FlattenCons<Byte>(content, []);
      assert [content] + [] == [content];
    }
  }

  lemma AllNames(root: string, names: seq<string>)
    requires IsName(root) && |names| > 0 && AreNames(names)
    ensures AreNames([root] + names)
    ensures var components := Components(Join([root] + names));
            AllNormal(components) && |components| == |names| + 1 && components[0] == Normal(root)
            && AllNormal(components[1..]) && Names(components[1..]) == names
  {
    hide Components, Join, IsName;
    ComponentsOfJoin([root] + names);
    var components := Components(Join([root] + names));
    assert Names(components) == [root] + names;
    assert components[0].name == Names(components)[0] == root;
    forall i | 0 <= i < |names|
      ensures components[1..][i].name == names[i]
    {
      assert components[i + 1].name == Names(components)[i + 1] == names[i];
    }
  }

  const ONE: Path := ["a\\b"]
  const TWO: Path := ["a\\\\b"]
  const NESTED: Path := ["a", "b"]

  lemma OneName()
    ensures AreNames(ONE) && HasBackslash(ONE) && DisplayName(ONE) == "a/b"
  {
    hide Components, Split;
    assert '\\' in ONE[0] && ONE[0] == "a\\b" && |ONE[0]| == 3;
    assert Join(ONE) == "a\\b" && Slashed("a\\b") == "a/b";
  }

  lemma TwoName()
    ensures AreNames(TWO) && HasBackslash(TWO) && DisplayName(TWO) == "a//b"
  {
    hide Components, Split;
    assert '\\' in TWO[0] && TWO[0] == "a\\\\b" && |TWO[0]| == 4;
    assert Join(TWO) == "a\\\\b" && Slashed("a\\\\b") == "a//b";
  }

  lemma NestedName()
    ensures AreNames(NESTED) && !HasBackslash(NESTED) && DisplayName(NESTED) == "a/b"
    ensures NamesFile("a/b") && Names(Components("a/b")) == NESTED
  {
    hide Components, Split, NamesFile;
    assert NESTED[0] == "a" && NESTED[1] == "b" && NESTED[1..] == ["b"];
    assert Join(NESTED) == "a/b" && Slashed("a/b") == "a/b";
    ComponentsOfJoin(NESTED);
  }

  lemma DoubledSlash()
    ensures NamesFile("a//b") && Names(Components("a//b")) == NESTED
  {
    SplitDoubled();
    var parts := ["a", "", "b"];
    assert parts[1..] == ["", "b"] && parts[1..][1..] == ["b"] && parts[1..][1..][1..] == [];
    assert Classify(["b"]) == [Normal("b")];
    assert Classify(["", "b"]) == [Normal("b")];
    assert Classify(parts) == [Normal("a"), Normal("b")];
  }

  lemma SplitDoubled()
    ensures Split("a//b") == ["a", "", "b"]
  {
    SplitWithout("b");
    SplitFirst("", "b");
    assert "" + "/" + "b" == "/b";
    SplitFirst("a", "/b");
    assert "a" + "/" + "/b" == "a//b";
  }

  // ---- The archive that never verifies

  lemma OneFile(root: string, content: Piece)
    requires IsName(root)
    ensures var entries := [FileBelow(root, ONE, content)];
            ArchiveFiles(entries, root) == [(ONE, content)] && Laid(entries, root) == WithFile(EMPTY_DIR, ONE, content)
  {
    hide IsName, FileBelow, LayEntry, FileOf, WithFile;
    OneName();
    Below(root, ONE, content);
    var entry := FileBelow(root, ONE, content);
    OneMoreEntry([], entry, root);
    var none: seq<Entry> := [];
    assert none + [entry] == [entry] && ArchiveFiles(none, root) == [] && Laid(none, root) == Some(EMPTY_DIR);
    assert ArchiveFiles([entry], root) == [(ONE, content)];
  }

  lemma OneExtracts(codec: Codec, spec: ArtifactSpec, content: Piece)
    requires IsName(spec.archiveRoot) && |content| <= spec.maxUnpackedBytes
    ensures Extractable(codec, spec, [FileBelow(spec.archiveRoot, ONE, content)])
  {
    hide IsName, FileBelow, ArchiveFiles, Laid, RecordOf;
    OneFile(spec.archiveRoot, content);
    var files: seq<(Path, seq<Byte>)> := [(ONE, content)];
    assert Parent(ONE) == [] && |MARKER[0]| == 35 && |ONE[0]| == 3;
    assert MARKER[0] != ONE[0];
    assert files[..0] == [] && TotalSize(files[..0]) == 0;
  }

  lemma OneIsLost(codec: Codec, spec: ArtifactSpec, content: seq<Byte>)
    ensures !FoundAsRecorded(codec, spec, [(ONE, content)], (ONE, content))
  {
    hide Components, DisplayName, MarkerContent, NamesFile;
    OneName();
    NestedName();
    assert |NESTED| == 2 && |ONE| == 1 && |MARKER| == 1;
  }

  /**
   * A single file whose name has a backslash: the archive can be extracted, and no extraction of it is ever verified,
   * because the path recorded for the file names nothing.
   */
  lemma NeverVerified(codec: Codec, spec: ArtifactSpec, content: Piece)
    requires codec.Faithful() && IsName(spec.archiveRoot) && |content| <= spec.maxUnpackedBytes
    ensures var entries := [FileBelow(spec.archiveRoot, ONE, content)];
            && Extractable(codec, spec, entries)
            && forall t :: Extracted(codec, t, spec, ArchiveFiles(entries, spec.archiveRoot)) ==> !Verified(codec, t, spec)
  {
    hide *;
    OneName();
    OneFile(spec.archiveRoot, content);
    OneExtracts(codec, spec, content);
    OneIsLost(codec, spec, content);
    var files: seq<(Path, seq<Byte>)> := [(ONE, content)];
    forall t | Extracted(codec, t, spec, files)
      ensures !Verified(codec, t, spec)
    {
      VerifiedIff(codec, t, spec, files);
      assert HasBackslash(files[0].0) && !FoundAsRecorded(codec, spec, files, files[0]);
    }
  }

  // ---- The archive that does

  lemma TwoFiles(root: string, content: Piece)
    requires IsName(root)
    ensures var entries := [FileBelow(root, TWO, content), FileBelow(root, NESTED, content)];
            && ArchiveFiles(entries, root) == [(TWO, content), (NESTED, content)]
            && Laid(entries, root) ==
               match WithFile(EMPTY_DIR, TWO, content) case None => None case Some(t) => WithFile(t, NESTED, content)
  {
    hide IsName, FileBelow, LayEntry, FileOf, WithFile, ArchiveFiles, Laid;
    assert AreNames(TWO) && AreNames(NESTED) && |TWO| > 0 && |NESTED| > 0 by {
      TwoName();
      NestedName();
    }
    hide AreNames, TWO, NESTED;
    Below(root, TWO, content);
    Below(root, NESTED, content);
    var first, second := FileBelow(root, TWO, content), FileBelow(root, NESTED, content);
    NoEntries(root);
    OneMoreEntry([], first, root);
    OneMoreEntry([first], second, root);
    var none: seq<Entry> := [];
    var noFile: seq<(Path, seq<Byte>)> := [];
    assert none + [first] == [first] && [first] + [second] == [first, second];
    assert noFile + [(TWO, content)] == [(TWO, content)];
    assert ArchiveFiles([first], root) == [(TWO, content)];
  }

  lemma NoEntries(root: string)
    ensures ArchiveFiles([], root) == [] && Laid([], root) == Some(EMPTY_DIR)
  {
  }

  lemma TwoExtract(codec: Codec, spec: ArtifactSpec, content: Piece)
    requires IsName(spec.archiveRoot) && 2 * |content| <= spec.maxUnpackedBytes
    ensures Extractable(codec, spec, [FileBelow(spec.archiveRoot, TWO, content), FileBelow(spec.archiveRoot, NESTED, content)])
  {
    hide IsName, FileBelow, ArchiveFiles, Laid, DisplayName, WithFile, Lowered;
    TwoFiles(spec.archiveRoot, content);
    TwoName();
    NestedName();
    Placed(content);
    var files: seq<(Path, seq<Byte>)> := [(TWO, content), (NESTED, content)];
    assert files[..1] == [(TWO, content)] && files[..1][..0] == [];
    assert TotalSize(files[..1][..0]) == 0;
    assert TotalSize(files[..1]) == |content| && TotalSize(files) == 2 * |content|;
    var records := Records(codec, files);
    assert records[0].path == "a//b" && records[1].path == "a/b";
    assert |Lowered("a//b")| == 4 && |Lowered("a/b")| == 3;
    assert DistinctKeys(records);
  }

  lemma FoundAt(codec: Codec, spec: ArtifactSpec, files: seq<(Path, seq<Byte>)>, f: (Path, seq<Byte>), i: nat)
    requires NamesFile(DisplayName(f.0)) && i < |InstalledBy(codec, spec, files)|
    requires InstalledBy(codec, spec, files)[i].0 == Names(Components(DisplayName(f.0)))
    requires InstalledBy(codec, spec, files)[i].1 == f.1
    ensures FoundAsRecorded(codec, spec, files, f)
  {
    hide Components, DisplayName, InstalledBy;
  }

  lemma TwoIsFound(codec: Codec, spec: ArtifactSpec, content: seq<Byte>)
    ensures FoundAsRecorded(codec, spec, [(TWO, content), (NESTED, content)], (TWO, content))
  {
    hide Components, DisplayName, MarkerContent;
    TwoName();
    DoubledSlash();
    var files: seq<(Path, seq<Byte>)> := [(TWO, content), (NESTED, content)];
    var all := InstalledBy(codec, spec, files);
    assert all[1] == (NESTED, content);
    FoundAt(codec, spec, files, files[0], 1);
  }

  /**
   * With a doubled backslash the recorded path has a doubled slash, which the file system reads as one: if the archive
   * also has the file it then names, with the same content, every extraction of it that has the required paths is
   * verified. So a backslash alone does not decide.
   */
  lemma StillVerified(codec: Codec, spec: ArtifactSpec, content: Piece)
    requires codec.Faithful() && IsName(spec.archiveRoot) && 2 * |content| <= spec.maxUnpackedBytes
    ensures var entries := [FileBelow(spec.archiveRoot, TWO, content), FileBelow(spec.archiveRoot, NESTED, content)];
            && Extractable(codec, spec, entries)
            && forall t :: Extracted(codec, t, spec, ArchiveFiles(entries, spec.archiveRoot)) ==>
                 (Verified(codec, t, spec) <==> RequiredExist(t, spec))
  {
    hide *;
    NestedName();
    TwoFiles(spec.archiveRoot, content);
    TwoExtract(codec, spec, content);
    TwoIsFound(codec, spec, content);
    var files: seq<(Path, seq<Byte>)> := [(TWO, content), (NESTED, content)];
    forall t | Extracted(codec, t, spec, files)
      ensures Verified(codec, t, spec) <==> RequiredExist(t, spec)
    {
      VerifiedIff(codec, t, spec, files);
      assert forall i :: 0 <= i < |files| && HasBackslash(files[i].0) ==> i == 0;
    }
  }

  /** Both files fit into an empty directory. */
  lemma Placed(content: seq<Byte>)
    ensures WithFile(EMPTY_DIR, TWO, content).Some?
    ensures WithFile(WithFile(EMPTY_DIR, TWO, content).value, NESTED, content).Some?
    ensures MARKER !in WithFile(WithFile(EMPTY_DIR, TWO, content).value, NESTED, content).value
  {
    assert Parent(TWO) == [] && Parent(NESTED) == ["a"] && Parent(["a"]) == [];
    assert |TWO[0]| == 4 && |"a"| == 1 && |MARKER[0]| == 35 && |NESTED| == 2;
    var t := WithFile(EMPTY_DIR, TWO, content).value;
    assert ["a"] !in t && MkdirAll(t, []) == Some(t);
  }
}
