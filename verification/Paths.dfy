/** Path strings and their components, by the Unix rules of `std::path`. */
module Paths {
  import opened Prelude

  datatype Component = RootDir | CurDir | ParentDir | Normal(name: string)

  predicate NoSlash(s: string) {
    '/' !in s
  }

  /** A file name: not empty, not a special component, and without separators. */
  predicate IsName(s: string) {
    |s| > 0 && s != "." && s != ".." && NoSlash(s)
  }

  predicate AreNames(names: seq<string>) {
    forall i :: 0 <= i < |names| ==> IsName(names[i])
  }

  function Split(s: string): (parts: seq<string>)
    ensures |parts| > 0 && forall i :: 0 <= i < |parts| ==> NoSlash(parts[i])
  {
    if |s| == 0 then [""]
    else
      var rest := Split(s[1..]);
      if s[0] == '/' then [""] + rest else [[s[0]] + rest[0]] + rest[1..]
  }

  function Join(names: seq<string>): string {
    if |names| == 0 then ""
    else if |names| == 1 then names[0]
    else names[0] + "/" + Join(names[1..])
  }

  /** The components after the first: empty ones and `.` are dropped. */
  function Classify(parts: seq<string>): (c: seq<Component>)
    ensures forall i :: 0 <= i < |c| ==>
              c[i] == ParentDir || (c[i].Normal? && c[i].name in parts && c[i].name !in ["", ".", ".."])
  {
    if |parts| == 0 then []
    else
      var rest := Classify(parts[1..]);
      if parts[0] == "" || parts[0] == "." then rest
      else if parts[0] == ".." then [ParentDir] + rest
      else [Normal(parts[0])] + rest
  }

  /** `Path::components`. */
  function Components(path: string): seq<Component> {
    var parts := Split(path);
    if |path| > 0 && path[0] == '/' then [RootDir] + Classify(parts)
    else if parts[0] == "." then [CurDir] + Classify(parts[1..])
    else Classify(parts)
  }

  predicate AllNormal(components: seq<Component>) {
    forall i :: 0 <= i < |components| ==> components[i].Normal?
  }

  function Names(components: seq<Component>): (names: seq<string>)
    requires AllNormal(components)
  {
    seq(|components|, i requires 0 <= i < |components| => components[i].name)
  }

  /** `safe_relative_path`. */
  predicate SafeRelative(path: string) {
    |path| > 0 && AllNormal(Components(path))
  }

  /** A safe path that can name a file: one that ends in a slash or a dot can only name a directory. */
  predicate NamesFile(path: string) {
    SafeRelative(path) && Split(path)[|Split(path)| - 1] !in ["", "."]
  }

  /** `str::replace('\\', "/")`. */
  function Slashed(s: string): (r: string)
    ensures |r| == |s|
    ensures '\\' !in s ==> r == s
  {
    seq(|s|, i requires 0 <= i < |s| => if s[i] == '\\' then '/' else s[i])
  }

  /** `strip_archive_root`: the names below the root, unless the path escapes it. */
  function StripArchiveRoot(path: string, root: string): Option<seq<string>> {
    var components := Components(path);
    if |components| > 0 && components[0] == Normal(root) && AllNormal(components[1..])
    then Some(Names(components[1..])) else None
  }

  lemma {:induction false} SplitWithout(s: string)
    requires NoSlash(s)
    ensures Split(s) == [s]
  {
    if |s| > 0 {
      SplitWithout(s[1..]);
      assert [s[0]] + s[1..] == s;
    }
  }

  lemma {:induction false} SplitFirst(first: string, rest: string)
    requires NoSlash(first)
    ensures Split(first + "/" + rest) == [first] + Split(rest)
  {
    var s := first + "/" + rest;
    if |first| == 0 {
      assert s[1..] == rest;
    } else {
      SplitFirst(first[1..], rest);
      assert s[1..] == first[1..] + "/" + rest;
      assert [first[0]] + first[1..] == first;
      assert ([first[1..]] + Split(rest))[1..] == Split(rest);
    }
  }

  lemma {:induction false} SplitJoin(names: seq<string>)
    requires |names| > 0 && AreNames(names)
    ensures Split(Join(names)) == names
  {
    if |names| == 1 {
      SplitWithout(names[0]);
    } else {
      SplitJoin(names[1..]);
      SplitFirst(names[0], Join(names[1..]));
    }
  }

  lemma {:induction false} ClassifyNames(names: seq<string>)
    requires AreNames(names)
    ensures var c := Classify(names); AllNormal(c) && Names(c) == names
  {
    if |names| > 0 {
      ClassifyNames(names[1..]);
    }
  }

  /** Joining names and taking the components apart again gives the names back. */
  lemma ComponentsOfJoin(names: seq<string>)
    requires |names| > 0 && AreNames(names)
    ensures NamesFile(Join(names)) && Names(Components(Join(names))) == names
  {
    SplitJoin(names);
    ClassifyNames(names);
    var path := Join(names);
    assert path[0] == names[0][0];
    assert IsName(names[0]) && IsName(names[|names| - 1]);
  }

  lemma JoinInjective(a: seq<string>, b: seq<string>)
    requires |a| > 0 && |b| > 0 && AreNames(a) && AreNames(b)
    ensures Join(a) == Join(b) ==> a == b
  {
    ComponentsOfJoin(a);
    ComponentsOfJoin(b);
  }

  /** Whatever a path string says, its components are names, so nothing stripped of its root leaves the root. */
  lemma StrippedNames(path: string, root: string)
    ensures StripArchiveRoot(path, root).Some? ==> AreNames(StripArchiveRoot(path, root).value)
    ensures SafeRelative(path) ==> AreNames(Names(Components(path)))
  {
    var parts := Split(path);
    assert forall i :: 0 <= i < |Classify(parts)| ==> Classify(parts)[i].Normal? ==> IsName(Classify(parts)[i].name);
    var tail := parts[1..];
    assert forall i :: 0 <= i < |Classify(tail)| ==> Classify(tail)[i].Normal? ==> IsName(Classify(tail)[i].name);
  }

  /** What of a path string counts: everything but repeated separators and dots. */
  lemma {:induction false} ClassifyPlain(parts: seq<string>)
    ensures AllNormal(Classify(parts)) <==> ".." !in parts
  {
    if |parts| > 0 {
      ClassifyPlain(parts[1..]);
      assert parts == [parts[0]] + parts[1..];
      var rest := Classify(parts[1..]);
      if parts[0] == ".." {
        assert !Classify(parts)[0].Normal?;
      } else if parts[0] != "" && parts[0] != "." {
        assert Classify(parts)[1..] == rest;
      }
    }
  }

  /** A path is safe exactly if it is relative, does not start with a dot, and nowhere goes up. */
  lemma SafeIff(path: string)
    ensures SafeRelative(path) <==> |path| > 0 && path[0] != '/' && Split(path)[0] != "." && ".." !in Split(path)
  {
    var parts := Split(path);
    ClassifyPlain(parts);
    assert |path| > 0 && path[0] == '/' ==> !Components(path)[0].Normal?;
    assert |path| > 0 && path[0] != '/' && parts[0] == "." ==> !Components(path)[0].Normal?;
  }

  lemma FirstComponent(path: string)
    ensures path == "" ==> Components(path) == []
    ensures path != "" ==>
              var first := Split(path)[0];
              && (path[0] == '/' || first == "." || first == ".." ==>
                    |Components(path)| > 0 && !Components(path)[0].Normal?)
              && (path[0] != '/' ==> first != "")
              && (path[0] != '/' && first != "." && first != ".." ==>
                    Components(path) == [Normal(first)] + Classify(Split(path)[1..]))
  {
    assert Split("") == [""];
    assert path != "" && path[0] != '/' ==> Split(path)[0] != "";
    hide Split;
  }

  /** An archive path is refused unless it starts with the root's name, and if it anywhere goes up. */
  lemma EscapesAreRefused(path: string, root: string)
    requires IsName(root)
    ensures StripArchiveRoot(path, root).Some? <==>
              |path| > 0 && path[0] != '/' && Split(path)[0] == root && ".." !in Split(path)
  {
    hide Split, Components, Classify;
    FirstComponent(path);
    if path != "" {
      var parts := Split(path);
      assert parts == [parts[0]] + parts[1..];
      ClassifyPlain(parts[1..]);
      if path[0] != '/' && parts[0] !in [".", ".."] {
        assert Components(path)[1..] == Classify(parts[1..]);
      }
    }
  }

  lemma SplitExample()
    ensures Split("r/a/.//b") == ["r", "a", ".", "", "b"]
  {
    hide Split;
    SplitWithout("b");
    SplitFirst("", "b");
    assert "" + "/" + "b" == "/b";
    SplitFirst(".", "/b");
    assert "." + "/" + "/b" == ".//b";
    SplitFirst("a", ".//b");
    assert "a" + "/" + ".//b" == "a/.//b";
    SplitFirst("r", "a/.//b");
    assert "r" + "/" + "a/.//b" == "r/a/.//b";
  }

  /** Repeated separators and dots inside a path do not count. */
  lemma PathExample()
    ensures StripArchiveRoot("r/a/.//b", "r") == Some(["a", "b"])
  {
    hide Split;
    SplitExample();
    ClassifyExample();
    var path := "r/a/.//b";
    assert ["r", "a", ".", "", "b"][1..] == ["a", ".", "", "b"];
    assert path[0] == 'r' && Components(path) == [Normal("r"), Normal("a"), Normal("b")] by {
      hide Names, StripArchiveRoot;
      assert Classify(Split(path)) == [Normal("r")] + Classify(["a", ".", "", "b"]);
    }
    assert Components(path)[1..] == [Normal("a"), Normal("b")];
    assert Names(Components(path)[1..]) == ["a", "b"];
  }

  lemma ClassifyExample()
    ensures Classify(["a", ".", "", "b"]) == [Normal("a"), Normal("b")] && Classify([]) == []
  {
    assert ["a", ".", "", "b"][1..] == [".", "", "b"] && [".", "", "b"][1..] == ["", "b"] && ["", "b"][1..] == ["b"];
    assert ["b"][1..] == [];
    assert Classify(["b"]) == [Normal("b")];
    assert Classify(["", "b"]) == [Normal("b")];
    assert Classify([".", "", "b"]) == [Normal("b")];
  }

  lemma {:induction false} SplitOne(s: string)
    ensures |Split(s)| == 1 ==> Split(s)[0] == s
  {
    if |s| > 0 {
      SplitOne(s[1..]);
      assert [s[0]] + s[1..] == s;
    }
  }

  lemma {:induction false} SplitLast(s: string)
    ensures Split(s)[|Split(s)| - 1] == "" <==> s == "" || s[|s| - 1] == '/'
  {
    if |s| == 1 {
      assert s[1..] == "" && Split("") == [""];
    } else if |s| > 1 {
      SplitLast(s[1..]);
      assert s[1..][|s[1..]| - 1] == s[|s| - 1];
    }
  }

  lemma {:induction false} ClassifyLength(parts: seq<string>)
    requires |parts| > 0 && parts[|parts| - 1] !in ["", "."]
    ensures |Classify(parts)| >= 1
    ensures |parts| > 1 && parts[0] !in ["", "."] ==> |Classify(parts)| >= 2
  {
    if |parts| > 1 {
      ClassifyLength(parts[1..]);
    }
  }

  /** Only a name itself is a path to a file of that name. */
  lemma OneComponent(path: string)
    requires NamesFile(path) && |Components(path)| == 1
    ensures path == Names(Components(path))[0]
  {
    var parts := Split(path);
    ClassifyLength(parts);
    SplitOne(path);
    SafeIff(path);
    assert parts[0] != "";
    if |parts| == 1 {
      assert Classify(parts) == [Normal(parts[0])] + Classify(parts[1..]);
    }
  }

  /** Names without a backslash join to a string without one. */
  lemma {:induction false} NoBackslash(names: seq<string>)
    requires forall i :: 0 <= i < |names| ==> '\\' !in names[i]
    ensures '\\' !in Join(names)
  {
    if |names| > 1 {
      NoBackslash(names[1..]);
    }
  }
}
