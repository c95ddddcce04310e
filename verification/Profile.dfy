/** The curated profile: what is selected for a platform, a whole setup run, and the verified profile it leaves. */
module Profile {
  import opened Prelude
  import opened Trees
  import opened Artifacts
  import Extraction
  import opened ArtifactStore

  datatype Manifest = Manifest(schemaVersion: nat, profile: string, artifacts: seq<ArtifactSpec>) {
    /** `parse_manifest` accepts it. */
    predicate Valid() {
      && schemaVersion == 1
      && profile == "impossible-voice-en-cpu-v1"
      && AllValid(artifacts)
      && DistinctIds(artifacts)
    }
  }

  /** A manifest of another schema or profile, or with an artifact twice, is refused. */
  lemma BadManifestIsRefused(m: Manifest, i: nat, j: nat)
    ensures m.schemaVersion != 1 || m.profile != "impossible-voice-en-cpu-v1" ==> !m.Valid()
    ensures i < j < |m.artifacts| && m.artifacts[i].id == m.artifacts[j].id ==> !m.Valid()
    ensures i < |m.artifacts| && !m.artifacts[i].Valid() ==> !m.Valid()
  {
    hide ArtifactSpec.Valid;
  }

  predicate AllValid(specs: seq<ArtifactSpec>) {
    forall i :: 0 <= i < |specs| ==> specs[i].Valid()
  }

  function ForPlatform(specs: seq<ArtifactSpec>, platform: string): seq<ArtifactSpec> {
    if |specs| == 0 then []
    else
      var last := specs[|specs| - 1];
      ForPlatform(specs[..|specs| - 1], platform) + (if platform in last.platforms then [last] else [])
  }

  function CountKind(specs: seq<ArtifactSpec>, kind: string): nat {
    if |specs| == 0 then 0
    else CountKind(specs[..|specs| - 1], kind) + (if specs[|specs| - 1].kind == kind then 1 else 0)
  }

  const KINDS: seq<string> := ["runtime", "stt-model", "tts-model"]

  /** `select_artifacts`: exactly one artifact of each kind. */
  function SelectArtifacts(m: Manifest, platform: string): Option<seq<ArtifactSpec>> {
    var selected := ForPlatform(m.artifacts, platform);
    if |selected| == 3 && CountKind(selected, KINDS[0]) == 1 && CountKind(selected, KINDS[1]) == 1
       && CountKind(selected, KINDS[2]) == 1
    then Some(selected) else None
  }

  /** One more artifact with an id of its own. */
  lemma OneMoreSpec(specs: seq<ArtifactSpec>, last: ArtifactSpec)
    requires AllValid(specs) && DistinctIds(specs) && last.Valid()
    requires forall i :: 0 <= i < |specs| ==> specs[i].id != last.id
    ensures AllValid(specs + [last]) && DistinctIds(specs + [last])
  {
    hide ArtifactSpec.Valid;
  }

  lemma {:induction false} SelectedFrom(specs: seq<ArtifactSpec>, platform: string, s: ArtifactSpec)
    requires s in ForPlatform(specs, platform)
    ensures s in specs
  {
    if |specs| > 0 && s != specs[|specs| - 1] {
      SelectedFrom(specs[..|specs| - 1], platform, s);
    }
  }

  lemma {:induction false} ForPlatformKeeps(specs: seq<ArtifactSpec>, platform: string)
    requires AllValid(specs) && DistinctIds(specs)
    ensures AllValid(ForPlatform(specs, platform)) && DistinctIds(ForPlatform(specs, platform))
  {
    hide ArtifactSpec.Valid;
    if |specs| > 0 {
      var init, last := specs[..|specs| - 1], specs[|specs| - 1];
      ForPlatformKeeps(init, platform);
      var selected := ForPlatform(init, platform);
      forall i | 0 <= i < |selected|
        ensures selected[i].id != last.id
      {
        SelectedFrom(init, platform, selected[i]);
        var k :| 0 <= k < |init| && init[k] == selected[i];
        assert specs[k] == selected[i];
      }
      OneMoreSpec(selected, last);
      assert selected + [] == selected;
    }
  }

  lemma InSnoc<X>(init: seq<X>, last: X, x: X)
    ensures x in init + [last] <==> x in init || x == last
  {
  }

  lemma {:induction false} SelectedMembers(specs: seq<ArtifactSpec>, platform: string, s: ArtifactSpec)
    ensures s in ForPlatform(specs, platform) <==> s in specs && platform in s.platforms
  {
    if |specs| > 0 {
      var init, last := specs[..|specs| - 1], specs[|specs| - 1];
      SelectedMembers(init, platform, s);
      assert init + [last] == specs;
      InSnoc(init, last, s);
      InSnoc(ForPlatform(init, platform), last, s);
      assert ForPlatform(init, platform) + [] == ForPlatform(init, platform);
    }
  }

  lemma {:induction false} SelectedAll(specs: seq<ArtifactSpec>, platform: string)
    requires forall i :: 0 <= i < |specs| ==> platform in specs[i].platforms
    ensures ForPlatform(specs, platform) == specs
  {
    if |specs| > 0 {
      SelectedAll(specs[..|specs| - 1], platform);
    }
  }

  lemma {:induction false} SelectedAppend(a: seq<ArtifactSpec>, b: seq<ArtifactSpec>, platform: string)
    ensures ForPlatform(a + b, platform) == ForPlatform(a, platform) + ForPlatform(b, platform)
  {
    if |b| == 0 {
      assert a + b == a;
    } else {
      assert (a + b)[..|a + b| - 1] == a + b[..|b| - 1];
      SelectedAppend(a, b[..|b| - 1], platform);
    }
  }

  /** What is selected are the artifacts for the platform, each as often as it is there, and in their order. */
  lemma SelectedExactly(a: seq<ArtifactSpec>, b: seq<ArtifactSpec>, platform: string, s: ArtifactSpec)
    ensures s in ForPlatform(a, platform) <==> s in a && platform in s.platforms
    ensures ForPlatform(a + b, platform) == ForPlatform(a, platform) + ForPlatform(b, platform)
    ensures (forall i :: 0 <= i < |a| ==> platform in a[i].platforms) ==> ForPlatform(a, platform) == a
  {
    SelectedMembers(a, platform, s);
    SelectedAppend(a, b, platform);
    if forall i :: 0 <= i < |a| ==> platform in a[i].platforms {
      SelectedAll(a, platform);
    }
  }

  predicate HasKind(specs: seq<ArtifactSpec>, kind: string) {
    exists i :: 0 <= i < |specs| && specs[i].kind == kind
  }

  predicate AtMostOne(specs: seq<ArtifactSpec>, kind: string) {
    forall i, j :: 0 <= i < j < |specs| ==> !(specs[i].kind == kind && specs[j].kind == kind)
  }

  lemma OneMoreOfKind(init: seq<ArtifactSpec>, last: ArtifactSpec, kind: string)
    ensures HasKind(init + [last], kind) <==> HasKind(init, kind) || last.kind == kind
    ensures AtMostOne(init + [last], kind) <==>
              AtMostOne(init, kind) && (last.kind == kind ==> !HasKind(init, kind))
  {
    var all := init + [last];
    assert all[|init|] == last;
    assert forall i :: 0 <= i < |init| ==> all[i] == init[i];
  }

  lemma {:induction false} CountsOfKind(specs: seq<ArtifactSpec>, kind: string)
    ensures CountKind(specs, kind) > 0 <==> HasKind(specs, kind)
    ensures CountKind(specs, kind) <= 1 <==> AtMostOne(specs, kind)
  {
    hide HasKind, AtMostOne;
    if |specs| > 0 {
      var init, last := specs[..|specs| - 1], specs[|specs| - 1];
      CountsOfKind(init, kind);
      OneMoreOfKind(init, last, kind);
      assert init + [last] == specs;
    } else {
      NoneOfKind(specs, kind);
    }
  }

  lemma NoneOfKind(specs: seq<ArtifactSpec>, kind: string)
    requires |specs| == 0
    ensures !HasKind(specs, kind) && AtMostOne(specs, kind)
  {
  }

  /** A profile is complete for a platform with exactly one runtime, one speech and one voice model, and nothing else. */
  lemma SelectionIsComplete(m: Manifest, platform: string)
    ensures var selected := ForPlatform(m.artifacts, platform);
            && (SelectArtifacts(m, platform).Some? ==> SelectArtifacts(m, platform).value == selected)
            && (SelectArtifacts(m, platform).Some? <==>
                  && |selected| == 3
                  && (forall kind :: kind in {"runtime", "stt-model", "tts-model"} ==>
                        HasKind(selected, kind) && AtMostOne(selected, kind)))
  {
    hide ForPlatform, CountKind, HasKind, AtMostOne;
    CountsOfKind(ForPlatform(m.artifacts, platform), "runtime");
    CountsOfKind(ForPlatform(m.artifacts, platform), "stt-model");
    CountsOfKind(ForPlatform(m.artifacts, platform), "tts-model");
  }

  /** `find` by kind. */
  function Find(specs: seq<ArtifactSpec>, kind: string): (r: Option<ArtifactSpec>)
    ensures r.Some? ==> r.value in specs && r.value.kind == kind
  {
    if |specs| == 0 then None
    else if specs[0].kind == kind then Some(specs[0])
    else Find(specs[1..], kind)
  }

  lemma {:induction false} FindFinds(specs: seq<ArtifactSpec>, kind: string, i: nat)
    requires i < |specs| && specs[i].kind == kind
    ensures Find(specs, kind).Some?
  {
    if specs[0].kind != kind {
      FindFinds(specs[1..], kind, i - 1);
    }
  }

  ghost predicate AllReady(codec: Codec, disk: Disk, specs: seq<ArtifactSpec>)
    requires AllValid(specs)
  {
    forall i :: 0 <= i < |specs| ==> IsReady(codec, disk, specs[i])
  }

  ghost predicate AllVerified(states: seq<State>) {
    forall i :: 0 <= i < |states| ==> states[i] == AlreadyVerified
  }

  /** This artifact is ready, or can be made ready. */
  ghost predicate CanBeReady(run: SetupRun, disk: Disk, spec: ArtifactSpec, offline: bool)
    requires spec.Valid()
  {
    IsReady(run.codec, disk, spec) || (!offline && Obtainable(run.codec, disk, spec, run.fetch(spec)))
  }

  /**
   * `setup` for the selected artifacts. Success means that every object is verified, and if no operation fails, it
   * comes exactly if every artifact is ready or, online, can be made ready. A setup that finds everything verified
   * already is one on a ready store in which no operation failed, and it changes nothing; offline no other setup
   * succeeds, and nothing is downloaded or staged.
   */
  method Setup(run: SetupRun, offline: bool) returns (r: Result<seq<State>, ()>)
    requires run.Valid() && AllValid(run.specs) && DistinctIds(run.specs)
    modifies run`disk, run`past, run.io
    ensures run.Valid() && old(run.past) <= run.past && run.io.ticks >= old(run.io.ticks)
    ensures r.Success? ==> AllReady(run.codec, run.disk, run.specs) && |r.value| == |run.specs|
    ensures r.Success? && AllVerified(r.value) <==>
              AllReady(run.codec, old(run.disk), run.specs) && run.io.Clean(old(run.io.ticks), run.io.ticks)
    ensures run.io.Clean(old(run.io.ticks), run.io.ticks) ==>
              (r.Success? <==>
                 forall i :: 0 <= i < |run.specs| ==> CanBeReady(run, old(run.disk), run.specs[i], offline))
    ensures r.Success? && AllVerified(r.value) ==> run.disk == old(run.disk) && run.past == old(run.past)
    ensures offline ==>
              && (r.Success? ==> AllVerified(r.value))
              && run.disk.downloads == old(run.disk).downloads && run.disk.staging == old(run.disk).staging
  {
    hide SetupRun.Valid, IsReady, OnlyObject, OnlyArchive, Obtainable, CanBeReady, ArtifactSpec.Valid, Safe;
    ghost var before, start := run.disk, run.io.ticks;
    var prepared := Prepare(run);
    if !prepared {
      return Failure(());
    }
    var results: seq<State> := [];
    for i := 0 to |run.specs|
      invariant run.Valid() && old(run.past) <= run.past && |results| == i && run.io.ticks >= start
      invariant forall j :: 0 <= j < i ==> IsReady(run.codec, run.disk, run.specs[j])
      invariant forall j :: i <= j < |run.specs| ==>
                  (IsReady(run.codec, run.disk, run.specs[j]) <==> IsReady(run.codec, before, run.specs[j]))
      invariant AllVerified(results) <==>
                  && (forall j :: 0 <= j < i ==> IsReady(run.codec, before, run.specs[j]))
                  && run.io.Clean(start, run.io.ticks)
      invariant run.io.Clean(start, run.io.ticks) ==>
                  forall j :: 0 <= j < i ==> CanBeReady(run, before, run.specs[j], offline)
      invariant forall j :: i <= j < |run.specs| ==>
                  (CanBeReady(run, run.disk, run.specs[j], offline) <==> CanBeReady(run, before, run.specs[j], offline))
      invariant AllVerified(results) ==> run.disk == before && run.past == old(run.past)
      invariant offline ==> AllVerified(results)
    {
      ghost var now, ticks := run.disk, run.io.ticks;
      CanBeReadyIs(run, now, run.specs[i], offline);
      var state, _, _ := run.EnsureArtifact(run.specs[i], offline);
      forall j | 0 <= j < |run.specs| && j != i
        ensures IsReady(run.codec, run.disk, run.specs[j]) <==> IsReady(run.codec, now, run.specs[j])
        ensures CanBeReady(run, run.disk, run.specs[j], offline) <==> CanBeReady(run, now, run.specs[j], offline)
      {
        OthersStayReady(run.codec, now, run.disk, run.specs[i], run.specs[j]);
        OthersStayObtainable(run.codec, now, run.disk, run.specs[i], run.specs[j], run.fetch(run.specs[j]));
        CanBeReadyIs(run, run.disk, run.specs[j], offline);
        CanBeReadyIs(run, now, run.specs[j], offline);
      }
      if state.Failure? {
        return Failure(());
      }
      VerifiedSnoc(results, state.value);
      results := results + [state.value];
    }
    r := Success(results);
  }

  lemma VerifiedSnoc(states: seq<State>, last: State)
    ensures AllVerified(states + [last]) <==> AllVerified(states) && last == AlreadyVerified
  {
    var more := states + [last];
    assert more[|states|] == last;
    assert forall i :: 0 <= i < |states| ==> more[i] == states[i];
  }

  /** The four directories and the lock. */
  method Prepare(run: SetupRun) returns (ok: bool)
    requires run.Valid()
    modifies run.io
    ensures run.Valid() && run.io.ticks >= old(run.io.ticks)
    ensures ok <==> run.io.Clean(old(run.io.ticks), run.io.ticks)
  {
    hide SetupRun.ValidAt;
    for i := 0 to 6
      invariant run.Valid() && run.io.ticks >= old(run.io.ticks)
      invariant run.io.Clean(old(run.io.ticks), run.io.ticks)
    {
      ok := run.Look();
      if !ok {
        return;
      }
    }
    ok := true;
  }

  /** Work on one artifact does not touch the object of another. */
  lemma OthersStayReady(codec: Codec, before: Disk, after: Disk, spec: ArtifactSpec, other: ArtifactSpec)
    requires spec.Valid() && other.Valid() && OnlyObject(before, after, spec) && spec.id != other.id
    ensures IsReady(codec, after, other) <==> IsReady(codec, before, other)
  {
    hide Verified, ArtifactSpec.Valid, ObjectName;
    if ObjectName(spec) == ObjectName(other) {
      ObjectNamesDiffer(spec, other);
    }
  }

  /** Nor its archive. */
  lemma OthersStayObtainable(codec: Codec, before: Disk, after: Disk, spec: ArtifactSpec, other: ArtifactSpec,
                             reply: Fetch)
    requires spec.Valid() && other.Valid() && OnlyArchive(before, after, spec) && spec.id != other.id
    ensures Obtainable(codec, after, other, reply) <==> Obtainable(codec, before, other, reply)
  {
    hide Extraction.Installable, ArtifactSpec.Valid, ArchiveName, IsPartial, IsArchive, Delivers;
    ArchiveIsNotPartial(other);
    if ArchiveName(spec) == ArchiveName(other) {
      ArchiveNamesDiffer(spec, other);
    }
  }

  lemma CanBeReadyIs(run: SetupRun, disk: Disk, spec: ArtifactSpec, offline: bool)
    requires spec.Valid()
    ensures CanBeReady(run, disk, spec, offline) <==>
              IsReady(run.codec, disk, spec) || (!offline && Obtainable(run.codec, disk, spec, run.fetch(spec)))
  {
  }

  datatype VerifiedProfile = VerifiedProfile(runtime: string, stt: string, tts: string)

  /** `verified_kind_path`. */
  method VerifiedKindPath(codec: Codec, disk: Disk, selected: seq<ArtifactSpec>, kind: string, io: Io)
    returns (r: Option<string>)
    requires disk.Valid() && AllValid(selected)
    modifies io
    ensures io.ticks >= old(io.ticks)
    ensures r.Some? <==>
              && Find(selected, kind).Some? && IsReady(codec, disk, Find(selected, kind).value)
              && io.Clean(old(io.ticks), io.ticks)
    ensures r.Some? ==> r.value == ObjectName(Find(selected, kind).value)
  {
    hide Verified, WellFormed, ArtifactSpec.Valid;
    var found := Find(selected, kind);
    if found.None? || ObjectName(found.value) !in disk.objects {
      return None;
    }
    var ok := VerifyObject(codec, disk.objects[ObjectName(found.value)], found.value, io);
    r := if ok then Some(ObjectName(found.value)) else None;
  }

  /** The object path of the artifact of this kind. */
  predicate Located(selected: seq<ArtifactSpec>, kind: string, path: string)
    requires AllValid(selected)
  {
    Find(selected, kind).Some? && path == ObjectName(Find(selected, kind).value)
  }

  /** `verified_profile`: it succeeds exactly if the object of every selected artifact is verified and can be read. */
  method LoadVerifiedProfile(codec: Codec, disk: Disk, manifest: Manifest, platform: string, io: Io)
    returns (r: Option<VerifiedProfile>)
    requires disk.Valid() && manifest.Valid()
    modifies io
    ensures io.ticks >= old(io.ticks)
    ensures var selected := SelectArtifacts(manifest, platform);
            && (r.Some? <==>
                  && selected.Some? && AllValid(selected.value) && AllReady(codec, disk, selected.value)
                  && io.Clean(old(io.ticks), io.ticks))
            && (r.Some? ==> Located(selected.value, KINDS[0], r.value.runtime)
                            && Located(selected.value, KINDS[1], r.value.stt)
                            && Located(selected.value, KINDS[2], r.value.tts))
  {
    hide IsReady, ArtifactSpec.Valid;
    var selected := SelectArtifacts(manifest, platform);
    if selected.None? {
      return None;
    }
    ForPlatformKeeps(manifest.artifacts, platform);
    EveryKindReady(codec, disk, selected.value);
    var runtime := VerifiedKindPath(codec, disk, selected.value, KINDS[0], io);
    if runtime.None? {
      return None;
    }
    var stt := VerifiedKindPath(codec, disk, selected.value, KINDS[1], io);
    if stt.None? {
      return None;
    }
    var tts := VerifiedKindPath(codec, disk, selected.value, KINDS[2], io);
    if tts.None? {
      return None;
    }
    r := Some(VerifiedProfile(runtime.value, stt.value, tts.value));
  }

  lemma KindIsFound(selected: seq<ArtifactSpec>, kind: string)
    requires CountKind(selected, kind) == 1
    ensures Find(selected, kind).Some?
  {
    CountsOfKind(selected, kind);
    var i :| 0 <= i < |selected| && selected[i].kind == kind;
    FindFinds(selected, kind, i);
  }

  lemma KindsDiffer()
    ensures KINDS[0] != KINDS[1] && KINDS[0] != KINDS[2] && KINDS[1] != KINDS[2]
  {
    assert KINDS[0][0] == 'r' && KINDS[1][0] == 's' && KINDS[2][0] == 't';
  }

  /** The three kinds find three different artifacts, which are all there are. */
  lemma EveryKindReady(codec: Codec, disk: Disk, selected: seq<ArtifactSpec>)
    requires AllValid(selected) && |selected| == 3
    requires CountKind(selected, KINDS[0]) == 1 && CountKind(selected, KINDS[1]) == 1
    requires CountKind(selected, KINDS[2]) == 1
    ensures var f0, f1, f2 := Find(selected, KINDS[0]), Find(selected, KINDS[1]), Find(selected, KINDS[2]);
            && f0.Some? && f1.Some? && f2.Some?
            && (AllReady(codec, disk, selected) <==>
                  IsReady(codec, disk, f0.value) && IsReady(codec, disk, f1.value) && IsReady(codec, disk, f2.value))
  {
    hide IsReady, ArtifactSpec.Valid, CountKind, Find;
    KindIsFound(selected, KINDS[0]);
    KindIsFound(selected, KINDS[1]);
    KindIsFound(selected, KINDS[2]);
    KindsDiffer();
    var f0, f1, f2 := Find(selected, KINDS[0]).value, Find(selected, KINDS[1]).value, Find(selected, KINDS[2]).value;
    ThreeOfThree(selected, f0, f1, f2);
    forall i | 0 <= i < |selected|
      ensures selected[i] in {f0, f1, f2}
    {
      assert selected[i] in selected;
    }
  }

  /** Three different members of a sequence of three are all of them. */
  lemma ThreeOfThree(selected: seq<ArtifactSpec>, a: ArtifactSpec, b: ArtifactSpec, c: ArtifactSpec)
    requires |selected| == 3 && a in selected && b in selected && c in selected
    requires a.kind != b.kind && a.kind != c.kind && b.kind != c.kind
    ensures forall s :: s in selected ==> s in {a, b, c}
  {
  }

  /**
   * A setup that succeeds makes the profile loadable, and an offline setup after it succeed without changing anything:
   * each exactly if no file system operation in it fails.
   */
  method SetupTwice(run: SetupRun, manifest: Manifest, platform: string)
    returns (first: Result<seq<State>, ()>, profile: Option<VerifiedProfile>, second: Result<seq<State>, ()>,
             ghost between: Disk, ghost loaded: nat, ghost begun: nat)
    requires manifest.Valid() && SelectArtifacts(manifest, platform) == Some(run.specs)
    requires run.Valid()
    modifies run`disk, run`past, run.io
    ensures run.Valid() && begun <= loaded <= run.io.ticks
    ensures first.Success? ==>
              && (profile.Some? <==> run.io.Clean(begun, loaded))
              && (second.Success? <==> run.io.Clean(loaded, run.io.ticks))
              && (second.Success? ==> AllVerified(second.value) && run.disk == between)
  {
    hide SetupRun.ValidAt, ArtifactSpec.Valid, IsReady;
    ForPlatformKeeps(manifest.artifacts, platform);
    first := Setup(run, false);
    between, begun := run.disk, run.io.ticks;
    run.Now();
    profile := LoadVerifiedProfile(run.codec, run.disk, manifest, platform, run.io);
    loaded := run.io.ticks;
    run.Later(begun, loaded);
    second := Setup(run, true);
  }

  // ---- One failing read

  /**
   * On any store, for any verified object: if the only operation that ever fails is the first read of its verification,
   * an offline setup of it moves it to recovery.
   */
  method OneFailureDisplaces(codec: Codec, clock: Clock, fetch: ArtifactSpec -> Fetch, disk: Disk, start: nat,
                             spec: ArtifactSpec)
    returns (r: Result<State, ()>, last: Disk)
    requires disk.Valid() && Ticking(clock) && Unused(clock, disk, start)
    requires spec.Valid() && IsReady(codec, disk, spec)
    ensures r.Failure?
    ensures ObjectName(spec) !in last.objects && disk.objects[ObjectName(spec)] in last.recovery.Values
  {
    hide Safe, Unused, Ticking, Disk.Valid, ArtifactSpec.Valid, ObjectName, OnlyObject, OnlyArchive, Verified;
    var io := new Io(n => n == start + 1, start);
    var run := new SetupRun(codec, [spec], clock, fetch, io, disk);
    ghost var t, displaced;
    r, t, displaced := run.EnsureArtifact(spec, true);
    assert io.fails(start + 1);
    last := run.disk;
  }

  /** If everything fails from then on, the object stays where it is. */
  method LastingFailureKeeps(codec: Codec, clock: Clock, fetch: ArtifactSpec -> Fetch, disk: Disk, start: nat,
                             spec: ArtifactSpec)
    returns (r: Result<State, ()>, last: Disk)
    requires disk.Valid() && Ticking(clock) && Unused(clock, disk, start)
    requires spec.Valid() && IsReady(codec, disk, spec)
    ensures r.Failure? && IsReady(codec, last, spec)
  {
    hide Safe, Unused, Ticking, Disk.Valid, ArtifactSpec.Valid, ObjectName, OnlyObject, OnlyArchive, Verified;
    var io := new Io(n => n > start, start);
    var run := new SetupRun(codec, [spec], clock, fetch, io, disk);
    ghost var t, displaced;
    r, t, displaced := run.EnsureArtifact(spec, true);
    assert io.fails(start + 1) && (t.verified < t.recovered ==> io.fails(t.verified));
    last := run.disk;
  }

  // ---- Crashes

  /** One attempt at a setup: its network and its faults, and the step after which a crash cuts it off, if any. */
  datatype Attempt = Attempt(fetch: ArtifactSpec -> Fetch, fails: nat -> bool, offline: bool, cut: Option<nat>)

  /** The artifact's archive, known by size and digest alone, is one of which an installation is verified. */
  ghost predicate Sound(codec: Codec, spec: ArtifactSpec) {
    forall content :: |content| == spec.size && codec.digest(content) == spec.sha256 ==>
      Extraction.Installable(codec, spec, content)
  }

  /** An online run that is not cut, in which nothing fails, and to which the server gives every archive. */
  ghost predicate Undisturbed(codec: Codec, specs: seq<ArtifactSpec>, attempt: Attempt) {
    && !attempt.offline
    && attempt.cut.None?
    && (forall n :: !attempt.fails(n))
    && (forall i :: 0 <= i < |specs| ==>
          Sound(codec, specs[i]) && Delivers(codec, specs[i], attempt.fetch(specs[i])))
  }

  lemma SoundIsObtainable(codec: Codec, disk: Disk, spec: ArtifactSpec, reply: Fetch)
    requires Sound(codec, spec) && Delivers(codec, spec, reply)
    ensures Obtainable(codec, disk, spec, reply)
  {
    hide Extraction.Installable, ArchiveName;
  }

  /**
   * Any number of setup runs, each completed, failed, or cut off by a crash after any step and followed by a new run on
   * the disk the crash left: every object under a curated name that was verified is verified or replaced by one that
   * is, every object there ever was is in place or in recovery, and the disk is always one a new run can start from.
   * Whatever came before, one undisturbed run is enough to make the whole profile ready.
   */
  method SurviveCrashes(codec: Codec, specs: seq<ArtifactSpec>, clock: Clock, disk: Disk, start: nat,
                        attempts: seq<Attempt>)
    returns (last: Disk, now: nat)
    requires disk.Valid() && Ticking(clock) && Unused(clock, disk, start)
    requires AllValid(specs) && DistinctIds(specs)
    ensures last.Valid() && now >= start && Unused(clock, last, now)
    ensures Safe(codec, specs, disk, last)
    ensures Trusted(codec, specs, disk) ==> Trusted(codec, specs, last)
    ensures |attempts| > 0 && Undisturbed(codec, specs, attempts[|attempts| - 1]) ==> AllReady(codec, last, specs)
  {
    hide Safe, Unused, Ticking, Disk.Valid, Trusted, ArtifactSpec.Valid, IsReady, Obtainable, Sound, Delivers;
    last, now := disk, start;
    SafeRefl(codec, specs, disk);
    for i := 0 to |attempts|
      invariant last.Valid() && now >= start && Unused(clock, last, now)
      invariant Safe(codec, specs, disk, last)
      invariant Trusted(codec, specs, disk) ==> Trusted(codec, specs, last)
      invariant i > 0 && Undisturbed(codec, specs, attempts[i - 1]) ==> AllReady(codec, last, specs)
    {
      var attempt := attempts[i];
      var io := new Io(attempt.fails, now);
      var run := new SetupRun(codec, specs, clock, attempt.fetch, io, last);
      ghost var origin := last;
      var result := Setup(run, attempt.offline);
      if Undisturbed(codec, specs, attempt) {
        forall j | 0 <= j < |specs|
          ensures CanBeReady(run, origin, specs[j], attempt.offline)
        {
          SoundIsObtainable(codec, origin, specs[j], attempt.fetch(specs[j]));
        }
        assert result.Success?;
      }
      var k := if attempt.cut.Some? && attempt.cut.value < |run.past| then attempt.cut.value else |run.past| - 1;
      last, now := run.past[k], io.ticks;
      SafeTrans(codec, specs, disk, origin, last);
      if Trusted(codec, specs, origin) {
        TrustStays(codec, specs, origin, last);
      }
    }
  }
}
