/** The artifact store: what one setup run does to the disk, one step at a time, and what survives a crash. */
module ArtifactStore {
  import opened Prelude
  import opened Trees
  import opened Artifacts
  import opened Extraction

  /** The store's four directories, each a map from entry name to what is there. */
  datatype Disk = Disk(
    objects: map<string, Tree>,
    downloads: map<string, Tree>,
    staging: map<string, Tree>,
    recovery: map<string, Tree>)
  {
    ghost predicate Valid() {
      && (forall n :: n in objects ==> WellFormed(objects[n]))
      && (forall n :: n in downloads ==> WellFormed(downloads[n]))
      && (forall n :: n in staging ==> WellFormed(staging[n]))
      && (forall n :: n in recovery ==> WellFormed(recovery[n]))
    }
  }

  function FileTree(content: seq<Byte>): Tree {
    map[[] := File(content)]
  }

  // ---- Names

  /** `object_path`: the artifact id and the first 16 digits of the archive digest. */
  function ObjectName(spec: ArtifactSpec): string
    requires |spec.sha256| >= 16
  {
    spec.id + "-" + spec.sha256[..16]
  }

  function ArchiveName(spec: ArtifactSpec): string {
    spec.id + "-" + spec.sha256 + ".tar." + "bz2"
  }

  /** A name made up for the moment: a prefix, the process id and the time. */
  function Stamped(prefix: string, stamp: string): string {
    prefix + ("-" + stamp)
  }

  predicate IsDigit(c: char) {
    '0' <= c <= '9'
  }

  /** Two numbers with a dash between them. */
  ghost predicate IsStamp(s: string) {
    exists k :: 0 < k < |s| - 1 && s[k] == '-' && forall i :: 0 <= i < |s| && i != k ==> IsDigit(s[i])
  }

  function PartialName(spec: ArtifactSpec, stamp: string): string {
    Stamped(spec.id + "-" + spec.sha256 + ".tar.partial", stamp)
  }

  function StagingName(spec: ArtifactSpec, stamp: string): string {
    Stamped(spec.id, stamp)
  }

  ghost predicate IsPartial(name: string) {
    exists spec, stamp :: IsStamp(stamp) && name == PartialName(spec, stamp)
  }

  /** A stamp has one dash, so the stamp of a name can be told from the name. */
  lemma SameStamp(a: string, s: string, b: string, t: string)
    requires IsStamp(s) && IsStamp(t) && Stamped(a, s) == Stamped(b, t)
    ensures s == t
  {
    var name := Stamped(a, s);
    if |s| < |t| {
      ShorterStamp(a, s, b, t);
    } else if |t| < |s| {
      ShorterStamp(b, t, a, s);
    }
    assert s == name[|name| - |s|..] == t;
  }

  lemma ShorterStamp(a: string, s: string, b: string, t: string)
    requires IsStamp(s) && IsStamp(t) && Stamped(a, s) == Stamped(b, t)
    ensures |t| <= |s|
  {
    hide Stamped;
    StampEnd(a, s, b, t);
    OneDash(t);
    var k :| 0 < k < |s| - 1 && s[k] == '-';
  }

  lemma StampEnd(a: string, s: string, b: string, t: string)
    requires Stamped(a, s) == Stamped(b, t)
    ensures |s| < |t| ==>
              t[|t| - |s| - 1] == '-' && forall i :: 0 <= i < |s| ==> t[|t| - |s| + i] == s[i]
  {
    var name := Stamped(a, s);
    assert name == a + "-" + s == b + "-" + t;
    if |s| < |t| {
      var from := |name| - |t|;
      assert t == name[from..];
      assert s == name[|name| - |s|..];
      assert name[|a|] == '-';
    }
  }

  lemma OneDash(t: string)
    requires IsStamp(t)
    ensures forall i, j :: 0 <= i < |t| && 0 <= j < |t| && t[i] == '-' && t[j] == '-' ==> i == j
  {
  }

  /** The name of an archive has no stamp. */
  lemma ArchiveHasNoStamp(spec: ArtifactSpec, prefix: string, stamp: string)
    requires IsStamp(stamp)
    ensures ArchiveName(spec) != Stamped(prefix, stamp)
  {
    hide IsStamp, Stamped, ArchiveName;
    StampTail(prefix, stamp);
    ArchiveTail(spec);
  }

  lemma ArchiveTail(spec: ArtifactSpec)
    ensures var name := ArchiveName(spec); |name| >= 2 && name[|name| - 2] == 'z'
  {
  }

  lemma StampTail(prefix: string, stamp: string)
    requires IsStamp(stamp)
    ensures var name := Stamped(prefix, stamp);
            |name| >= 2 && (IsDigit(name[|name| - 2]) || name[|name| - 2] == '-')
  {
    var name := Stamped(prefix, stamp);
    assert name[|name| - 2] == stamp[|stamp| - 2];
  }

  lemma ArchiveIsNotPartial(spec: ArtifactSpec)
    ensures !IsPartial(ArchiveName(spec))
  {
    hide IsStamp, ArchiveName, Stamped;
    if IsPartial(ArchiveName(spec)) {
      var other, stamp :| IsStamp(stamp) && ArchiveName(spec) == PartialName(other, stamp);
      ArchiveHasNoStamp(spec, other.id + "-" + other.sha256 + ".tar.partial", stamp);
    }
  }

  /** Artifacts with different ids never share an archive. */
  lemma ArchiveNamesDiffer(a: ArtifactSpec, b: ArtifactSpec)
    requires a.Valid() && b.Valid() && ArchiveName(a) == ArchiveName(b)
    ensures a.id == b.id
  {
    var name := ArchiveName(a);
    assert |a.id| == |name| - 73 == |b.id|;
    assert a.id == name[..|name| - 73] == b.id;
  }

  /** The names of an artifact's object, archive and partial download. */
  lemma NamesExample(spec: ArtifactSpec, digest: string)
    requires spec.id == "stt" && |digest| == 64 && spec.sha256 == digest && digest[..16] == "0123456789abcdef"
    ensures ObjectName(spec) == "stt-0123456789abcdef"
    ensures ArchiveName(spec) == "stt-" + digest + ".tar.bz2"
    ensures PartialName(spec, "7-9") == "stt-" + digest + ".tar.partial-7-9"
    ensures StagingName(spec, "7-9") == "stt-7-9" && IsStamp("7-9")
  {
    assert "7-9"[1] == '-';
  }

  /** Artifacts with different ids never share an object path. */
  lemma ObjectNamesDiffer(a: ArtifactSpec, b: ArtifactSpec)
    requires a.Valid() && b.Valid() && ObjectName(a) == ObjectName(b)
    ensures a.id == b.id
  {
    var name := ObjectName(a);
    assert |a.id| == |name| - 17 == |b.id|;
    assert a.id == name[..|name| - 17] == b.id;
  }

  datatype Label = ObjectLabel | ArchiveLabel | StagingLabel | DownloadLabel

  function LabelText(what: Label): string {
    match what
    case ObjectLabel => "object"
    case ArchiveLabel => "archive"
    case StagingLabel => "staging"
    case DownloadLabel => "download"
  }

  function RecoveryName(what: Label, stamp: string): string {
    Stamped(LabelText(what), stamp)
  }

  // ---- What a setup may do to the disk

  ghost predicate IsObjectOf(specs: seq<ArtifactSpec>, n: string, spec: ArtifactSpec) {
    spec in specs && spec.Valid() && n == ObjectName(spec)
  }

  /** An object is untouched, or is a verified object of a curated artifact. */
  ghost predicate ObjectsTrusted(codec: Codec, specs: seq<ArtifactSpec>, before: Disk, after: Disk) {
    forall n :: n in after.objects ==>
      || (n in before.objects && after.objects[n] == before.objects[n])
      || (exists spec :: IsObjectOf(specs, n, spec) && Verified(codec, after.objects[n], spec))
  }

  /** What was there is still there, or it has been moved to recovery; only an empty directory may be replaced. */
  ghost predicate ObjectsKept(before: Disk, after: Disk) {
    forall n :: n in before.objects ==>
      || (n in after.objects && after.objects[n] == before.objects[n])
      || before.objects[n] in after.recovery.Values
      || before.objects[n] == EMPTY_DIR
  }

  /** The curated archive itself. */
  predicate IsArchive(codec: Codec, spec: ArtifactSpec, t: Tree) {
    FileMatches(codec, t, [], spec.size, spec.sha256)
  }

  /** The curated archive of this name is there, or has been moved to recovery. */
  ghost predicate Superseded(codec: Codec, specs: seq<ArtifactSpec>, n: string, after: Disk) {
    exists spec :: spec in specs && n == ArchiveName(spec)
      && ((n in after.downloads && IsArchive(codec, spec, after.downloads[n]))
          || exists t :: t in after.recovery.Values && IsArchive(codec, spec, t))
  }

  /** A downloaded archive is still there, or in recovery, or the curated one has replaced it. */
  ghost predicate DownloadsKept(codec: Codec, specs: seq<ArtifactSpec>, before: Disk, after: Disk) {
    forall n :: n in before.downloads && !IsPartial(n) ==>
      || (n in after.downloads && after.downloads[n] == before.downloads[n])
      || before.downloads[n] in after.recovery.Values
      || Superseded(codec, specs, n, after)
  }

  ghost predicate RecoveryKept(before: Disk, after: Disk) {
    forall r :: r in before.recovery ==> r in after.recovery && after.recovery[r] == before.recovery[r]
  }

  ghost predicate Safe(codec: Codec, specs: seq<ArtifactSpec>, before: Disk, after: Disk) {
    && ObjectsTrusted(codec, specs, before, after)
    && ObjectsKept(before, after)
    && DownloadsKept(codec, specs, before, after)
    && RecoveryKept(before, after)
  }

  lemma SafeRefl(codec: Codec, specs: seq<ArtifactSpec>, disk: Disk)
    ensures Safe(codec, specs, disk, disk)
  {
    hide Verified, IsObjectOf, IsPartial, Superseded;
  }

  lemma RecoveryIsKept(codec: Codec, specs: seq<ArtifactSpec>, before: Disk, after: Disk)
    requires Safe(codec, specs, before, after)
    ensures RecoveryKept(before, after)
  {
    hide ObjectsTrusted, ObjectsKept, DownloadsKept;
  }

  lemma ValuesKept(before: Disk, after: Disk, t: Tree)
    requires RecoveryKept(before, after) && t in before.recovery.Values
    ensures t in after.recovery.Values
  {
    var r :| r in before.recovery && before.recovery[r] == t;
    assert after.recovery[r] == t;
  }

  lemma TrustedTrans(codec: Codec, specs: seq<ArtifactSpec>, a: Disk, b: Disk, c: Disk)
    requires ObjectsTrusted(codec, specs, a, b) && ObjectsTrusted(codec, specs, b, c)
    ensures ObjectsTrusted(codec, specs, a, c)
  {
    hide Verified, IsObjectOf;
  }

  lemma ObjectsKeptTrans(a: Disk, b: Disk, c: Disk)
    requires ObjectsKept(a, b) && ObjectsKept(b, c) && RecoveryKept(b, c)
    ensures ObjectsKept(a, c)
  {
    forall n | n in a.objects && !(n in c.objects && c.objects[n] == a.objects[n]) && a.objects[n] != EMPTY_DIR
      ensures a.objects[n] in c.recovery.Values
    {
      if !(n in b.objects && b.objects[n] == a.objects[n]) {
        ValuesKept(b, c, a.objects[n]);
      }
    }
  }

  lemma SupersededStays(codec: Codec, specs: seq<ArtifactSpec>, n: string, b: Disk, c: Disk)
    requires Superseded(codec, specs, n, b) && DownloadsKept(codec, specs, b, c) && RecoveryKept(b, c) && !IsPartial(n)
    ensures Superseded(codec, specs, n, c)
  {
    hide IsArchive, IsPartial, ArchiveName;
    var spec :| spec in specs && n == ArchiveName(spec)
                && ((n in b.downloads && IsArchive(codec, spec, b.downloads[n]))
                    || exists t :: t in b.recovery.Values && IsArchive(codec, spec, t));
    if n in b.downloads && IsArchive(codec, spec, b.downloads[n]) {
    } else {
      var t :| t in b.recovery.Values && IsArchive(codec, spec, t);
      ValuesKept(b, c, t);
    }
  }

  lemma DownloadsKeptTrans(codec: Codec, specs: seq<ArtifactSpec>, a: Disk, b: Disk, c: Disk)
    requires DownloadsKept(codec, specs, a, b) && DownloadsKept(codec, specs, b, c) && RecoveryKept(b, c)
    ensures DownloadsKept(codec, specs, a, c)
  {
    hide Superseded, IsPartial;
    forall n | n in a.downloads && !IsPartial(n) && !(n in c.downloads && c.downloads[n] == a.downloads[n])
      ensures a.downloads[n] in c.recovery.Values || Superseded(codec, specs, n, c)
    {
      if n in b.downloads && b.downloads[n] == a.downloads[n] {
      } else if a.downloads[n] in b.recovery.Values {
        ValuesKept(b, c, a.downloads[n]);
      } else {
        SupersededStays(codec, specs, n, b, c);
      }
    }
  }

  /** Safe steps compose, so a crash between them, and any number of later runs, are safe too. */
  lemma SafeTrans(codec: Codec, specs: seq<ArtifactSpec>, a: Disk, b: Disk, c: Disk)
    requires Safe(codec, specs, a, b) && Safe(codec, specs, b, c)
    ensures Safe(codec, specs, a, c)
  {
    hide ObjectsTrusted, ObjectsKept, DownloadsKept;
    TrustedTrans(codec, specs, a, b, c);
    ObjectsKeptTrans(a, b, c);
    DownloadsKeptTrans(codec, specs, a, b, c);
  }

  /** Every object under a curated name is a verified one. */
  ghost predicate Trusted(codec: Codec, specs: seq<ArtifactSpec>, disk: Disk) {
    forall n, spec :: n in disk.objects && IsObjectOf(specs, n, spec) ==> Verified(codec, disk.objects[n], spec)
  }

  predicate DistinctIds(specs: seq<ArtifactSpec>) {
    forall i, j :: 0 <= i < j < |specs| ==> specs[i].id != specs[j].id
  }

  /** Safe steps keep a store trusted. */
  lemma TrustStays(codec: Codec, specs: seq<ArtifactSpec>, before: Disk, after: Disk)
    requires DistinctIds(specs) && Trusted(codec, specs, before) && Safe(codec, specs, before, after)
    ensures Trusted(codec, specs, after)
  {
    hide Verified, ObjectsKept, DownloadsKept, RecoveryKept, ArtifactSpec.Valid, ObjectName;
    forall n, spec | n in after.objects && IsObjectOf(specs, n, spec)
      ensures Verified(codec, after.objects[n], spec)
    {
      if !(n in before.objects && after.objects[n] == before.objects[n]) {
        var other :| IsObjectOf(specs, n, other) && Verified(codec, after.objects[n], other);
        ObjectNamesDiffer(other, spec);
      }
    }
  }

  // ---- Single steps

  lemma KeepsObjects(codec: Codec, specs: seq<ArtifactSpec>, before: Disk, after: Disk)
    requires after.objects == before.objects && after.recovery == before.recovery
    requires forall n :: n in before.downloads && !IsPartial(n) ==>
               || (n in after.downloads && after.downloads[n] == before.downloads[n])
               || Superseded(codec, specs, n, after)
    ensures Safe(codec, specs, before, after)
  {
    hide Verified, IsObjectOf, IsPartial, Superseded;
  }

  /** Moving an object, a download or a staging directory into recovery, under a name not in use. */
  lemma RecoversSafely(codec: Codec, specs: seq<ArtifactSpec>, before: Disk, after: Disk, name: string, moved: Tree)
    requires name !in before.recovery && after.recovery == before.recovery[name := moved]
    requires forall n :: n in after.objects ==> n in before.objects && after.objects[n] == before.objects[n]
    requires forall n :: n in before.objects && n !in after.objects ==> moved == before.objects[n]
    requires forall n :: n in after.downloads ==> n in before.downloads && after.downloads[n] == before.downloads[n]
    requires forall n :: n in before.downloads && n !in after.downloads ==> moved == before.downloads[n]
    ensures Safe(codec, specs, before, after)
    ensures moved in after.recovery.Values
  {
    hide Verified, IsObjectOf, IsPartial, Superseded;
    assert after.recovery[name] == moved;
  }

  lemma ActivatesSafely(codec: Codec, specs: seq<ArtifactSpec>, before: Disk, after: Disk, spec: ArtifactSpec)
    requires spec in specs && spec.Valid()
    requires ObjectName(spec) in before.objects ==> before.objects[ObjectName(spec)] == EMPTY_DIR
    requires ObjectName(spec) in after.objects && Verified(codec, after.objects[ObjectName(spec)], spec)
    requires after.objects == before.objects[ObjectName(spec) := after.objects[ObjectName(spec)]]
    requires after.downloads == before.downloads && after.recovery == before.recovery
    ensures Safe(codec, specs, before, after)
  {
    hide Verified, IsPartial, Superseded, ArtifactSpec.Valid;
    assert IsObjectOf(specs, ObjectName(spec), spec);
  }

  // ---- One setup run

  /** What the server answers to a run's request for an archive, and how the transfer goes. */
  datatype Fetch = Refused | Body(contentLength: Option<nat>, pieces: seq<seq<Byte>>, completes: bool)

  /** The answer is the curated archive. */
  predicate Delivers(codec: Codec, spec: ArtifactSpec, reply: Fetch) {
    && reply.Body?
    && reply.completes
    && (reply.contentLength.Some? ==> reply.contentLength.value == spec.size)
    && |Flatten(reply.pieces)| == spec.size
    && codec.digest(Flatten(reply.pieces)) == spec.sha256
  }

  /** A transfer that is refused, cut short, announced with another size, or not the curated bytes, delivers nothing. */
  lemma BadTransfers(codec: Codec, spec: ArtifactSpec, reply: Fetch)
    ensures reply.Refused? ==> !Delivers(codec, spec, reply)
    ensures reply.Body? && !reply.completes ==> !Delivers(codec, spec, reply)
    ensures reply.Body? && reply.contentLength.Some? && reply.contentLength.value != spec.size ==>
              !Delivers(codec, spec, reply)
    ensures reply.Body? && (|Flatten(reply.pieces)| != spec.size || codec.digest(Flatten(reply.pieces)) != spec.sha256) ==>
              !Delivers(codec, spec, reply)
  {
  }

  /** The archive to install: the one in place if it is the curated one, else the one delivered, if it is. */
  function Source(codec: Codec, disk: Disk, spec: ArtifactSpec, reply: Fetch): Option<seq<Byte>> {
    if ArchiveName(spec) in disk.downloads && IsArchive(codec, spec, disk.downloads[ArchiveName(spec)])
    then Some(disk.downloads[ArchiveName(spec)][[]].content)
    else if Delivers(codec, spec, reply) then Some(Flatten(reply.pieces))
    else None
  }

  /** There is an archive to install, of which an installation is verified. */
  ghost predicate Obtainable(codec: Codec, disk: Disk, spec: ArtifactSpec, reply: Fetch) {
    var source := Source(codec, disk, spec, reply);
    source.Some? && Installable(codec, spec, source.value)
  }

  lemma ObtainableStays(codec: Codec, before: Disk, after: Disk, spec: ArtifactSpec, reply: Fetch)
    requires before.downloads == after.downloads
    ensures Obtainable(codec, before, spec, reply) <==> Obtainable(codec, after, spec, reply)
  {
  }

  predicate Unpacks(codec: Codec, spec: ArtifactSpec, content: seq<Byte>): (yes: bool)
    ensures yes ==> codec.unpack(content).Some? && Laid(codec.unpack(content).value, spec.archiveRoot).Some?
  {
    codec.unpack(content).Some? && Extractable(codec, spec, codec.unpack(content).value)
  }

  lemma InstallableIs(codec: Codec, spec: ArtifactSpec, content: seq<Byte>)
    ensures Installable(codec, spec, content) <==>
              && Unpacks(codec, spec, content)
              && Verified(codec, InstalledTree(codec, spec, codec.unpack(content).value), spec)
  {
    hide Verified, Laid, ArchiveFiles;
  }

  /** Of the downloads, at most the archive of this artifact and partial ones differ. */
  ghost predicate OnlyArchive(before: Disk, after: Disk, spec: ArtifactSpec) {
    forall n :: n != ArchiveName(spec) && !IsPartial(n) ==>
      (n in before.downloads <==> n in after.downloads)
      && (n in before.downloads ==> before.downloads[n] == after.downloads[n])
  }

  /** The archive in place has this content. */
  predicate InPlace(codec: Codec, disk: Disk, spec: ArtifactSpec, content: seq<Byte>) {
    && ArchiveName(spec) in disk.downloads
    && IsArchive(codec, spec, disk.downloads[ArchiveName(spec)])
    && disk.downloads[ArchiveName(spec)][[]].content == content
  }

  lemma SourceIs(codec: Codec, disk: Disk, spec: ArtifactSpec, reply: Fetch)
    ensures ArchiveName(spec) in disk.downloads && IsArchive(codec, spec, disk.downloads[ArchiveName(spec)]) ==>
              var source := Source(codec, disk, spec, reply);
              source.Some? && InPlace(codec, disk, spec, source.value)
    ensures !(ArchiveName(spec) in disk.downloads && IsArchive(codec, spec, disk.downloads[ArchiveName(spec)])) ==>
              Source(codec, disk, spec, reply) ==
                if Delivers(codec, spec, reply) then Some(Flatten(reply.pieces)) else None
  {
  }

  lemma DeliveredIsInPlace(codec: Codec, disk: Disk, spec: ArtifactSpec, reply: Fetch)
    requires Delivers(codec, spec, reply) && ArchiveName(spec) in disk.downloads
    requires disk.downloads[ArchiveName(spec)] == FileTree(Flatten(reply.pieces))
    ensures InPlace(codec, disk, spec, Flatten(reply.pieces))
  {
    hide Flatten, ArchiveName;
  }

  lemma OnlyArchiveAfter(before: Disk, after: Disk, spec: ArtifactSpec, n: string)
    requires n == ArchiveName(spec) || IsPartial(n)
    requires forall m :: m != n ==>
               (m in before.downloads <==> m in after.downloads)
               && (m in before.downloads ==> before.downloads[m] == after.downloads[m])
    ensures OnlyArchive(before, after, spec)
  {
    hide IsPartial, ArchiveName;
  }

  lemma OnlyArchiveTrans(a: Disk, b: Disk, c: Disk, spec: ArtifactSpec)
    requires OnlyArchive(a, b, spec) && OnlyArchive(b, c, spec)
    ensures OnlyArchive(a, c, spec)
  {
    hide IsPartial, ArchiveName;
  }

  lemma DownloadsSame(before: Disk, after: Disk, spec: ArtifactSpec)
    requires before.downloads == after.downloads
    ensures OnlyArchive(before, after, spec)
  {
    hide IsPartial, ArchiveName;
  }

  /** Process id and clock, read at each operation; they never show the same twice. */
  type Clock = nat -> string

  ghost predicate Ticking(clock: Clock) {
    && (forall i :: IsStamp(clock(i)))
    && (forall i, j :: i < j ==> clock(i) != clock(j))
  }

  /** No name that will still be made up is taken. */
  ghost predicate Free(clock: Clock, entries: map<string, Tree>, from: nat) {
    forall prefix, n: nat :: n >= from ==> Stamped(prefix, clock(n)) !in entries
  }

  ghost predicate Unused(clock: Clock, disk: Disk, from: nat) {
    Free(clock, disk.recovery, from) && Free(clock, disk.downloads, from) && Free(clock, disk.staging, from)
  }

  lemma UnusedLater(clock: Clock, disk: Disk, now: nat, later: nat)
    requires Unused(clock, disk, now) && now <= later
    ensures Unused(clock, disk, later)
  {
  }

  lemma UnusedKept(clock: Clock, before: Disk, after: Disk, now: nat)
    requires Unused(clock, before, now)
    requires after.recovery == before.recovery && after.downloads == before.downloads
    requires after.staging.Keys <= before.staging.Keys
    ensures Unused(clock, after, now)
  {
  }

  /** A name made up now, or that of an archive. */
  ghost predicate NamedNow(clock: Clock, name: string, now: nat) {
    || (exists prefix :: name == Stamped(prefix, clock(now)))
    || (exists spec :: name == ArchiveName(spec))
  }

  ghost predicate Grows(clock: Clock, before: map<string, Tree>, after: map<string, Tree>, now: nat) {
    forall name :: name in after ==> name in before || NamedNow(clock, name, now)
  }

  lemma FreeAfter(clock: Clock, before: map<string, Tree>, after: map<string, Tree>, now: nat)
    requires Ticking(clock) && Free(clock, before, now) && Grows(clock, before, after, now)
    ensures Free(clock, after, now + 1)
  {
    hide Stamped, IsStamp, ArchiveName;
    forall prefix, n: nat | n >= now + 1
      ensures Stamped(prefix, clock(n)) !in after
    {
      var name := Stamped(prefix, clock(n));
      if exists other :: name == Stamped(other, clock(now)) {
        var other :| name == Stamped(other, clock(now));
        SameStamp(prefix, clock(n), other, clock(now));
      }
      if exists spec :: name == ArchiveName(spec) {
        var spec :| name == ArchiveName(spec);
        ArchiveHasNoStamp(spec, prefix, clock(n));
      }
    }
  }

  lemma UnusedAfter(clock: Clock, before: Disk, after: Disk, now: nat)
    requires Ticking(clock) && Unused(clock, before, now)
    requires Grows(clock, before.recovery, after.recovery, now)
    requires Grows(clock, before.downloads, after.downloads, now)
    requires Grows(clock, before.staging, after.staging, now)
    ensures Unused(clock, after, now + 1)
  {
    hide Ticking, Free, Grows;
    FreeAfter(clock, before.recovery, after.recovery, now);
    FreeAfter(clock, before.downloads, after.downloads, now);
    FreeAfter(clock, before.staging, after.staging, now);
  }

  lemma FreeNow(clock: Clock, disk: Disk, prefix: string, now: nat)
    requires Unused(clock, disk, now)
    ensures Stamped(prefix, clock(now)) !in disk.recovery
  {
  }

  lemma NewName(clock: Clock, prefix: string, now: nat)
    ensures NamedNow(clock, Stamped(prefix, clock(now)), now)
  {
  }

  datatype State = AlreadyVerified | Installed

  /** When `ensure_artifact` has looked for the object, verified it and moved it to recovery. */
  datatype Times = Times(seen: nat, verified: nat, recovered: nat)

  /** A disk a crash may leave at this time: intact, safe, and with future recovery names free. */
  ghost predicate Restartable(codec: Codec, specs: seq<ArtifactSpec>, clock: Clock, origin: Disk, disk: Disk, now: nat) {
    disk.Valid() && Safe(codec, specs, origin, disk) && Unused(clock, disk, now)
  }

  class SetupRun {
    const codec: Codec
    const specs: seq<ArtifactSpec>
    const clock: Clock
    const fetch: ArtifactSpec -> Fetch
    const io: Io
    ghost const origin: Disk
    var disk: Disk
    var past: seq<Disk>

    /** Every disk a crash could have left since the run began is one that setup can restart from. */
    ghost predicate Valid()
      reads this, io
    {
      ValidAt(io.ticks)
    }

    ghost predicate ValidAt(now: nat)
      reads this
    {
      && Ticking(clock)
      && |past| > 0 && past[|past| - 1] == disk
      && forall i :: 0 <= i < |past| ==> Restartable(codec, specs, clock, origin, past[i], now)
    }

    constructor (codec: Codec, specs: seq<ArtifactSpec>, clock: Clock, fetch: ArtifactSpec -> Fetch, io: Io, disk: Disk)
      requires disk.Valid() && Ticking(clock) && Unused(clock, disk, io.ticks)
      ensures Valid()
      ensures this.codec == codec && this.specs == specs && this.clock == clock && this.io == io && this.fetch == fetch
      ensures this.disk == disk == origin && past == [disk]
    {
      hide Safe, Unused, Ticking, Disk.Valid;
      this.codec, this.specs, this.clock, this.fetch, this.io, this.origin := codec, specs, clock, fetch, io, disk;
      this.disk, past := disk, [disk];
      new;
      SafeRefl(codec, specs, disk);
    }

    lemma Later(now: nat, later: nat)
      requires ValidAt(now) && now <= later
      ensures ValidAt(later)
    {
      hide Safe, Unused, Ticking, Disk.Valid;
      forall i | 0 <= i < |past|
        ensures Restartable(codec, specs, clock, origin, past[i], later)
      {
        UnusedLater(clock, past[i], now, later);
      }
    }

    lemma Now()
      requires Valid()
      ensures disk.Valid() && Ticking(clock) && Unused(clock, disk, io.ticks) && Safe(codec, specs, disk, disk)
    {
      hide Safe, Unused, Ticking, Disk.Valid;
      SafeRefl(codec, specs, disk);
    }

    /** One atomic change of the disk, which may fail. */
    method Change(next: Disk) returns (ok: bool)
      requires Valid() && next.Valid() && Safe(codec, specs, disk, next) && Unused(clock, next, io.ticks + 1)
      modifies `disk, `past, io
      ensures Valid() && old(past) <= past && io.ticks == old(io.ticks) + 1
      ensures ok <==> io.Clean(old(io.ticks), io.ticks)
      ensures disk == if ok then next else old(disk)
      ensures Safe(codec, specs, old(disk), disk)
    {
      hide Safe, Unused, Ticking, Disk.Valid;
      Now();
      ghost var start := io.ticks;
      ok := io.Try();
      Later(start, io.ticks);
      if ok {
        SafeTrans(codec, specs, origin, disk, next);
        disk := next;
        past := past + [next];
      }
    }

    /** An operation that changes nothing on the disk. */
    method Look() returns (ok: bool)
      requires Valid()
      modifies io
      ensures Valid() && io.ticks >= old(io.ticks)
      ensures ok <==> io.Clean(old(io.ticks), io.ticks)
    {
      hide ValidAt;
      ghost var start := io.ticks;
      ok := io.Try();
      Later(start, io.ticks);
    }

    method Exists(present: bool) returns (seen: bool)
      requires Valid()
      modifies io
      ensures Valid() && io.ticks == old(io.ticks) + 1
      ensures seen <==> present && io.Clean(old(io.ticks), io.ticks)
    {
      hide ValidAt;
      ghost var start := io.ticks;
      seen := io.Exists(present);
      Later(start, io.ticks);
    }

    method CheckObject(t: Tree, spec: ArtifactSpec) returns (ok: bool)
      requires Valid() && WellFormed(t)
      modifies io
      ensures Valid() && io.ticks > old(io.ticks)
      ensures ok <==> Verified(codec, t, spec) && io.Clean(old(io.ticks), io.ticks)
    {
      hide ValidAt, Verified, WellFormed;
      ghost var start := io.ticks;
      ok := VerifyObject(codec, t, spec, io);
      Later(start, io.ticks);
    }

    method CheckArchive(t: Tree, spec: ArtifactSpec) returns (ok: bool)
      requires Valid()
      modifies io
      ensures Valid() && io.ticks >= old(io.ticks)
      ensures ok <==> IsArchive(codec, spec, t) && io.Clean(old(io.ticks), io.ticks)
    {
      hide ValidAt, FileMatches;
      ghost var start := io.ticks;
      ok := VerifyFile(codec, t, [], spec.size, spec.sha256, io);
      Later(start, io.ticks);
    }

    /**
     * `recover_path` of an object: it is moved to recovery whole, or stays where it is. It is moved exactly if no
     * operation fails.
     */
    method RecoverObject(spec: ArtifactSpec) returns (ok: bool)
      requires Valid() && spec in specs && spec.Valid() && ObjectName(spec) in disk.objects
      modifies `disk, `past, io
      ensures Valid() && old(past) <= past && io.ticks >= old(io.ticks)
      ensures Safe(codec, specs, old(disk), disk) && OnlyObject(old(disk), disk, spec)
      ensures disk.downloads == old(disk).downloads && disk.staging == old(disk).staging
      ensures io.ticks > old(io.ticks) && (io.Clean(old(io.ticks), io.ticks) ==> ok)
      ensures if io.Clean(old(io.ticks), io.ticks)
              then ObjectName(spec) !in disk.objects && old(disk).objects[ObjectName(spec)] in disk.recovery.Values
              else disk == old(disk)
    {
      hide Safe, Unused, ArtifactSpec.Valid, RecoveryName, Stamped, Ticking, Disk.Valid, ObjectName, OnlyObject, ValidAt;
      Now();
      ObjectOnly(disk, disk, spec);
      var seen := Exists(true);
      if !seen {
        return true;
      }
      ok := Look();
      if !ok {
        return;
      }
      Now();
      ObjectMoves(codec, specs, clock, disk, spec, io.ticks);
      ok := Change(WithoutObject(disk, ObjectName(spec), RecoveryName(ObjectLabel, clock(io.ticks))));
    }

    /** `recover_path` of a downloaded archive or a partial download. */
    method RecoverDownload(n: string, what: Label) returns (ok: bool)
      requires Valid() && n in disk.downloads
      modifies `disk, `past, io
      ensures Valid() && old(past) <= past && io.ticks >= old(io.ticks)
      ensures Safe(codec, specs, old(disk), disk)
      ensures disk.objects == old(disk).objects && disk.staging == old(disk).staging
      ensures disk == old(disk) || (disk.downloads == old(disk).downloads - {n}
                                    && old(disk).downloads[n] in disk.recovery.Values)
      ensures io.Clean(old(io.ticks), io.ticks) ==> ok && n !in disk.downloads
    {
      hide Safe, Unused, RecoveryName, Ticking, Disk.Valid, ValidAt;
      Now();
      var seen := Exists(true);
      if !seen {
        return true;
      }
      ok := Look();
      if !ok {
        return;
      }
      Now();
      DownloadMoves(codec, specs, clock, disk, n, what, io.ticks);
      ok := Change(WithoutDownload(disk, n, RecoveryName(what, clock(io.ticks))));
    }

    /** `recover_path` of a staging directory. */
    method RecoverStaging(n: string) returns (ok: bool)
      requires Valid() && n in disk.staging
      modifies `disk, `past, io
      ensures Valid() && old(past) <= past && io.ticks >= old(io.ticks)
      ensures Safe(codec, specs, old(disk), disk)
      ensures disk.objects == old(disk).objects && disk.downloads == old(disk).downloads
      ensures disk == old(disk) || (disk.staging == old(disk).staging - {n}
                                    && old(disk).staging[n] in disk.recovery.Values)
      ensures io.Clean(old(io.ticks), io.ticks) ==> ok && n !in disk.staging
    {
      hide Safe, Unused, RecoveryName, Ticking, Disk.Valid, ValidAt;
      Now();
      var seen := Exists(true);
      if !seen {
        return true;
      }
      ok := Look();
      if !ok {
        return;
      }
      Now();
      StagingMoves(codec, specs, clock, disk, n, io.ticks);
      ok := Change(WithoutStaging(disk, n, RecoveryName(StagingLabel, clock(io.ticks))));
    }

    /** A change that touches neither objects nor recovery, and keeps or supersedes complete downloads. */
    method Scratch(next: Disk) returns (ok: bool)
      requires Valid() && next.Valid()
      requires next.objects == disk.objects && next.recovery == disk.recovery
      requires Grows(clock, disk.downloads, next.downloads, io.ticks) && Grows(clock, disk.staging, next.staging, io.ticks)
      requires forall n :: n in disk.downloads && !IsPartial(n) ==>
                 || (n in next.downloads && next.downloads[n] == disk.downloads[n])
                 || Superseded(codec, specs, n, next)
      modifies `disk, `past, io
      ensures Valid() && old(past) <= past && io.ticks >= old(io.ticks)
      ensures Safe(codec, specs, old(disk), disk)
      ensures ok <==> io.Clean(old(io.ticks), io.ticks)
      ensures disk == if ok then next else old(disk)
    {
      hide Safe, Ticking, Disk.Valid, IsPartial, Superseded, Unused, ValidAt, NamedNow;
      Now();
      KeepsObjects(codec, specs, disk, next);
      UnusedAfter(clock, disk, next, io.ticks);
      ok := Change(next);
    }

    /**
     * `download`: when it succeeds, the archive in place is the one delivered, of the curated size and digest. If no
     * operation fails and no archive is in place, it succeeds exactly if that is delivered.
     */
    method Download(spec: ArtifactSpec) returns (ok: bool)
      requires Valid() && spec in specs && spec.Valid()
      modifies `disk, `past, io
      ensures Valid() && old(past) <= past && io.ticks >= old(io.ticks)
      ensures Safe(codec, specs, old(disk), disk) && OnlyArchive(old(disk), disk, spec)
      ensures disk.objects == old(disk).objects && disk.staging == old(disk).staging
      ensures ok ==>
                && Delivers(codec, spec, fetch(spec))
                && ArchiveName(spec) in disk.downloads
                && disk.downloads[ArchiveName(spec)] == FileTree(Flatten(fetch(spec).pieces))
      ensures io.Clean(old(io.ticks), io.ticks) && ArchiveName(spec) !in old(disk).downloads ==>
                (ok <==> Delivers(codec, spec, fetch(spec)))
    {
      hide Safe, Unused, Ticking, Disk.Valid, IsPartial, IsStamp, RecoveryName, ArchiveName, PartialName, Valid,
           OnlyArchive, Flatten, FileTree, ArtifactSpec.Valid;
      Now();
      DownloadsSame(disk, disk, spec);
      var reply := fetch(spec);
      if reply.Refused? || (reply.contentLength.Some? && reply.contentLength.value != spec.size) {
        return false;
      }
      ghost var stamp := clock(io.ticks);
      var partial := PartialName(spec, clock(io.ticks));
      StampNow(io.ticks);
      PartialIsPartial(spec, stamp);
      PartialIsFree(spec);
      ArchiveIsNotPartial(spec);
      var written;
      ok, written := Receive(spec, partial, reply.pieces);
      if !ok || !reply.completes {
        return false;
      }
      ghost var received := disk;
      if |written| != spec.size || codec.digest(written) != spec.sha256 {
        var _ := RecoverDownload(partial, DownloadLabel);
        SafeTrans(codec, specs, old(disk), received, disk);
        OnlyArchiveAfter(received, disk, spec, partial);
        OnlyArchiveTrans(old(disk), received, disk, spec);
        return false;
      }
      ok := ActivateDownload(spec, partial, written);
      SafeTrans(codec, specs, old(disk), received, disk);
      OnlyArchiveTrans(old(disk), received, disk, spec);
    }

    lemma StampNow(now: nat)
      requires Valid()
      ensures IsStamp(clock(now))
    {
      hide Safe, Unused, Disk.Valid, IsStamp;
    }

    lemma PartialIsFree(spec: ArtifactSpec)
      requires Valid()
      ensures PartialName(spec, clock(io.ticks)) !in disk.downloads
    {
      hide Safe, Disk.Valid, Ticking, Stamped;
      Now();
    }

    lemma StagingIsFree(spec: ArtifactSpec)
      requires Valid()
      ensures StagingName(spec, clock(io.ticks)) !in disk.staging
    {
      hide Safe, Disk.Valid, Ticking, Stamped;
      Now();
    }

    /** The transfer into a new partial file, flushed at its end. */
    method Receive(spec: ArtifactSpec, partial: string, pieces: seq<seq<Byte>>) returns (ok: bool, written: seq<Byte>)
      requires Valid() && spec.Valid()
      requires partial == PartialName(spec, clock(io.ticks)) && IsPartial(partial) && partial !in disk.downloads
      modifies `disk, `past, io
      ensures Valid() && old(past) <= past && io.ticks >= old(io.ticks)
      ensures Safe(codec, specs, old(disk), disk) && OnlyArchive(old(disk), disk, spec)
      ensures disk.objects == old(disk).objects && disk.staging == old(disk).staging
      ensures ok ==> written == Flatten(pieces) && disk.downloads == old(disk).downloads[partial := FileTree(written)]
      ensures io.Clean(old(io.ticks), io.ticks) ==> (ok <==> |Flatten(pieces)| <= spec.size)
    {
      hide Safe, Unused, Ticking, Disk.Valid, IsPartial, PartialName, Valid, FileTree, OnlyArchive, Flatten, NamedNow,
           ArtifactSpec.Valid;
      Now();
      DownloadsSame(disk, disk, spec);
      written := [];
      FlattenNil<Byte>(pieces[..0]);
      PartialIsNamed(spec);
      ok := WriteDownload(spec, partial, written);
      if !ok {
        return;
      }
      for i := 0 to |pieces|
        invariant Valid() && old(past) <= past && io.ticks >= old(io.ticks)
        invariant io.Clean(old(io.ticks), io.ticks)
        invariant Safe(codec, specs, old(disk), disk) && OnlyArchive(old(disk), disk, spec)
        invariant disk.objects == old(disk).objects && disk.staging == old(disk).staging
        invariant disk.downloads == old(disk).downloads[partial := FileTree(written)]
        invariant written == Flatten(pieces[..i]) && |written| <= spec.size
      {
        assert pieces[..i + 1] == pieces[..i] + [pieces[i]];
        FlattenSnoc(pieces[..i], pieces[i]);
        FlattenGrows(pieces, i + 1);
        if |written| + |pieces[i]| > U64_MAX || |written| + |pieces[i]| > spec.size {
          return false, written;
        }
        written := written + pieces[i];
        ghost var before := disk;
        ok := WriteDownload(spec, partial, written);
        SafeTrans(codec, specs, old(disk), before, disk);
        OnlyArchiveTrans(old(disk), before, disk, spec);
        if !ok {
          return;
        }
      }
      assert pieces[..|pieces|] == pieces;
      ok := Look();
    }

    lemma PartialIsNamed(spec: ArtifactSpec)
      ensures NamedNow(clock, PartialName(spec, clock(io.ticks)), io.ticks)
    {
      NewName(clock, spec.id + "-" + spec.sha256 + ".tar.partial", io.ticks);
    }

    method WriteDownload(ghost spec: ArtifactSpec, partial: string, content: seq<Byte>) returns (ok: bool)
      requires Valid() && IsPartial(partial) && (partial in disk.downloads || NamedNow(clock, partial, io.ticks))
      modifies `disk, `past, io
      ensures Valid() && old(past) <= past && io.ticks >= old(io.ticks)
      ensures Safe(codec, specs, old(disk), disk) && OnlyArchive(old(disk), disk, spec)
      ensures ok <==> io.Clean(old(io.ticks), io.ticks)
      ensures disk == if ok then old(disk).(downloads := old(disk).downloads[partial := FileTree(content)]) else old(disk)
    {
      hide Safe, Unused, Ticking, IsPartial, Disk.Valid, FileTree, Superseded, ValidAt, NamedNow, OnlyArchive;
      Now();
      DownloadedIsValid(disk, disk.downloads[partial := FileTree(content)], content);
      ok := Scratch(disk.(downloads := disk.downloads[partial := FileTree(content)]));
      OnlyArchiveAfter(old(disk), disk, spec, partial);
    }

    /** Renaming the partial file over the archive's name, which only another file may have. */
    method ActivateDownload(spec: ArtifactSpec, partial: string, content: seq<Byte>) returns (ok: bool)
      requires Valid() && spec in specs && IsPartial(partial)
      requires partial in disk.downloads && disk.downloads[partial] == FileTree(content)
      requires |content| == spec.size && codec.digest(content) == spec.sha256
      modifies `disk, `past, io
      ensures Valid() && old(past) <= past && io.ticks >= old(io.ticks)
      ensures Safe(codec, specs, old(disk), disk) && OnlyArchive(old(disk), disk, spec)
      ensures disk.objects == old(disk).objects && disk.staging == old(disk).staging
      ensures ok ==> ArchiveName(spec) in disk.downloads && disk.downloads[ArchiveName(spec)] == FileTree(content)
      ensures io.Clean(old(io.ticks), io.ticks) && ArchiveName(spec) !in old(disk).downloads ==> ok
    {
      hide Safe, Unused, Ticking, IsPartial, ArchiveName, Disk.Valid, ValidAt;
      Now();
      ArchiveIsNotPartial(spec);
      if ArchiveName(spec) in disk.downloads && !FileAt(disk.downloads[ArchiveName(spec)], []) {
        return false;
      }
      var downloads := (disk.downloads - {partial})[ArchiveName(spec) := FileTree(content)];
      DownloadedIsValid(disk, downloads, content);
      assert IsArchive(codec, spec, downloads[ArchiveName(spec)]);
      ok := Scratch(disk.(downloads := downloads));
    }

    /**
     * The archive in `downloads`: kept if it is the curated one, else recovered, and downloaded if it is missing. If no
     * operation fails, that succeeds exactly if there is an archive to install, and then it is in place.
     */
    method EnsureArchive(spec: ArtifactSpec) returns (ok: bool)
      requires Valid() && spec in specs && spec.Valid()
      modifies `disk, `past, io
      ensures Valid() && old(past) <= past && io.ticks >= old(io.ticks)
      ensures Safe(codec, specs, old(disk), disk) && OnlyArchive(old(disk), disk, spec)
      ensures disk.objects == old(disk).objects && disk.staging == old(disk).staging
      ensures io.Clean(old(io.ticks), io.ticks) ==>
                var source := Source(codec, old(disk), spec, fetch(spec));
                && (ok <==> source.Some?)
                && (ok ==> InPlace(codec, disk, spec, source.value))
    {
      hide Safe, Unused, Ticking, Disk.Valid, ArchiveName, Valid, IsArchive, OnlyArchive, Delivers, Flatten, FileTree,
           ArtifactSpec.Valid, Source, InPlace;
      Now();
      DownloadsSame(disk, disk, spec);
      SourceIs(codec, disk, spec, fetch(spec));
      var seen := Exists(ArchiveName(spec) in disk.downloads);
      if seen {
        var genuine := CheckArchive(disk.downloads[ArchiveName(spec)], spec);
        if !genuine {
          ok := RecoverDownload(ArchiveName(spec), ArchiveLabel);
          OnlyArchiveAfter(old(disk), disk, spec, ArchiveName(spec));
          if !ok {
            return;
          }
        }
      }
      seen := Exists(ArchiveName(spec) in disk.downloads);
      if seen {
        return true;
      }
      ghost var before := disk;
      ok := Download(spec);
      SafeTrans(codec, specs, old(disk), before, disk);
      OnlyArchiveTrans(old(disk), before, disk, spec);
      if ok {
        DeliveredIsInPlace(codec, disk, spec, fetch(spec));
      }
    }

    /**
     * Extracts the archive into a new staging directory; what a crash leaves there is recorded step by step. If no
     * operation fails and the curated archive is in place, that succeeds exactly if it can be extracted.
     */
    method Stage(spec: ArtifactSpec, name: string, ghost content: seq<Byte>) returns (ok: bool)
      requires Valid() && spec.Valid() && name !in disk.staging && NamedNow(clock, name, io.ticks)
      modifies `disk, `past, io
      ensures Valid() && old(past) <= past && io.ticks >= old(io.ticks)
      ensures Safe(codec, specs, old(disk), disk)
      ensures disk.objects == old(disk).objects && disk.downloads == old(disk).downloads
      ensures ok ==> name in disk.staging
      ensures io.Clean(old(io.ticks), io.ticks) && InPlace(codec, old(disk), spec, content) ==>
                && (ok <==> Unpacks(codec, spec, content))
                && (ok ==> disk.staging[name] == InstalledTree(codec, spec, codec.unpack(content).value))
    {
      hide Safe, Unused, Ticking, ArchiveName, Extracted, ArchiveFiles, ArtifactSpec.Valid, WellFormed, Extractable,
           FileMatches, Disk.Valid, Folder.Valid, ValidAt, NamedNow, Laid;
      Now();
      EmptyIsWellFormed();
      StagedIsValid(disk, name, EMPTY_DIR);
      ok := Scratch(disk.(staging := disk.staging[name := EMPTY_DIR]));
      if !ok {
        return;
      }
      if ArchiveName(spec) !in disk.downloads {
        return false;
      }
      var folder := new Folder(io);
      ghost var start := io.ticks;
      ok := ExtractVerifiedArchive(codec, disk.downloads[ArchiveName(spec)], folder, spec);
      Later(start, io.ticks);
      ghost var before := disk;
      RecordStaging(name, folder);
      SafeTrans(codec, specs, old(disk), before, disk);
    }

    /** Every state of the staging directory is a state of the disk. */
    method RecordStaging(name: string, folder: Folder)
      requires Valid() && folder.Valid() && name in disk.staging
      modifies `disk, `past
      ensures Valid() && old(past) <= past
      ensures Safe(codec, specs, old(disk), disk)
      ensures disk == old(disk).(staging := old(disk).staging[name := folder.tree])
    {
      hide Safe, Unused, Ticking, RecoveryName, WellFormed, Disk.Valid, Restartable, Folder.Valid;
      FolderStaysValid(folder);
      var before := disk;
      for i := 0 to |folder.past|
        invariant disk == before && |past| > 0 && old(past) <= past
        invariant forall k :: 0 <= k < |past| ==> Restartable(codec, specs, clock, origin, past[k], io.ticks)
      {
        var crashed := before.(staging := before.staging[name := folder.past[i]]);
        StagedIsRestartable(codec, specs, clock, origin, before, name, folder.past[i], io.ticks);
        past := past + [crashed];
      }
      disk := before.(staging := before.staging[name := folder.tree]);
      StagedIsRestartable(codec, specs, clock, origin, before, name, folder.tree, io.ticks);
      past := past + [disk];
    }

    /**
     * `ensure_artifact`. Success means a verified object in place. "Already verified" is answered exactly if the object
     * was verified and no operation failed, and then nothing has changed. If no operation fails, the call succeeds
     * exactly if the object was verified, or, online, if an archive is to be had of which an installation is verified.
     *
     * A verified object is displaced exactly if a read fails while it is verified, and nothing fails before that or in
     * the recovery after it; then it is in recovery, and otherwise it is where it was. `t` tells when these steps ended.
     *
     * Offline nothing is downloaded or staged, and only an object already verified is accepted.
     */
    method EnsureArtifact(spec: ArtifactSpec, offline: bool)
      returns (r: Result<State, ()>, ghost t: Times, ghost displaced: bool)
      requires Valid() && spec in specs && spec.Valid()
      modifies `disk, `past, io
      ensures Valid() && old(past) <= past && io.ticks >= old(io.ticks)
      ensures Safe(codec, specs, old(disk), disk) && OnlyObject(old(disk), disk, spec) && OnlyArchive(old(disk), disk, spec)
      ensures r.Success? ==> IsReady(codec, disk, spec)
      ensures r == Success(AlreadyVerified) <==> IsReady(codec, old(disk), spec) && io.Clean(old(io.ticks), io.ticks)
      ensures r == Success(AlreadyVerified) ==> disk == old(disk) && past == old(past)
      ensures io.Clean(old(io.ticks), io.ticks) ==>
                (r.Success? <==>
                   IsReady(codec, old(disk), spec) || (!offline && Obtainable(codec, old(disk), spec, fetch(spec))))
      ensures t.seen == old(io.ticks) + 1 && t.seen <= t.verified <= t.recovered <= io.ticks
      ensures offline ==> t.recovered == io.ticks
      ensures ObjectName(spec) in old(disk).objects && io.Clean(old(io.ticks), t.seen) ==>
                t.seen < t.verified && (io.Clean(t.seen, t.verified) || t.verified < t.recovered)
      ensures IsReady(codec, old(disk), spec) ==>
                && (displaced <==>
                      && io.Clean(old(io.ticks), t.seen)
                      && !io.Clean(t.seen, t.verified)
                      && io.Clean(t.verified, t.recovered))
                && (displaced ==> old(disk).objects[ObjectName(spec)] in disk.recovery.Values)
                && (displaced && offline ==> ObjectName(spec) !in disk.objects)
                && (!displaced ==>
                      && ObjectName(spec) in disk.objects
                      && disk.objects[ObjectName(spec)] == old(disk).objects[ObjectName(spec)])
      ensures offline ==>
                && (r.Success? ==> r == Success(AlreadyVerified))
                && disk.downloads == old(disk).downloads && disk.staging == old(disk).staging
    {
      hide Safe, Unused, Ticking, Verified, ArtifactSpec.Valid, RecoveryName, ObjectName, WellFormed, OnlyObject, ValidAt,
           Disk.Valid, OnlyArchive, Obtainable, ArchiveName;
      Now();
      ObjectOnly(disk, disk, spec);
      DownloadsSame(disk, disk, spec);
      ReadyIsNotEmpty(codec, disk, spec);
      displaced := false;
      var seen := Exists(ObjectName(spec) in disk.objects);
      t := Times(io.ticks, io.ticks, io.ticks);
      if seen {
        ObjectTree(ObjectName(spec));
        var verified := CheckObject(disk.objects[ObjectName(spec)], spec);
        t := Times(t.seen, io.ticks, io.ticks);
        if verified {
          return Success(AlreadyVerified), t, displaced;
        }
        var recovered := RecoverObject(spec);
        displaced := io.Clean(t.verified, io.ticks);
        t := t.(recovered := io.ticks);
        DownloadsSame(old(disk), disk, spec);
        if !recovered {
          return Failure(()), t, displaced;
        }
      }
      if offline {
        return Failure(()), t, displaced;
      }
      ghost var cleared := disk;
      ObtainableStays(codec, old(disk), cleared, spec, fetch(spec));
      var installed := Install(spec);
      InstallEffect(old(disk), cleared, spec);
      r := if installed then Success(Installed) else Failure(());
    }

    /** The part of `ensure_artifact` that puts an object in place. */
    method Install(spec: ArtifactSpec) returns (ok: bool)
      requires Valid() && spec in specs && spec.Valid()
      modifies `disk, `past, io
      ensures Valid() && old(past) <= past && io.ticks >= old(io.ticks)
      ensures Safe(codec, specs, old(disk), disk) && OnlyObject(old(disk), disk, spec) && OnlyArchive(old(disk), disk, spec)
      ensures ok ==> IsReady(codec, disk, spec)
      ensures !ok || (ObjectName(spec) in old(disk).objects && old(disk).objects[ObjectName(spec)] != EMPTY_DIR) ==>
                disk.objects == old(disk).objects
      ensures io.Clean(old(io.ticks), io.ticks) && ObjectName(spec) !in old(disk).objects ==>
                (ok <==> Obtainable(codec, old(disk), spec, fetch(spec)))
    {
      hide Safe, Unused, Ticking, Verified, ArtifactSpec.Valid, RecoveryName, ObjectName, WellFormed, OnlyObject,
           Disk.Valid, ArchiveName, ValidAt, OnlyArchive, Obtainable;
      var name;
      ok, name := Prepare(spec);
      ObjectOnly(old(disk), disk, spec);
      if !ok || (ObjectName(spec) in disk.objects && disk.objects[ObjectName(spec)] != EMPTY_DIR) {
        return false;
      }
      Now();
      Activates(codec, specs, clock, disk, name, spec, io.ticks);
      ghost var before := disk;
      ok := Change(Activated(disk, name, spec));
      if ok {
        OnlyObjectTrans(old(disk), before, disk, spec);
      }
      DownloadsSame(before, disk, spec);
      OnlyArchiveTrans(old(disk), before, disk, spec);
      SafeTrans(codec, specs, old(disk), before, disk);
    }

    /** Everything before activation: the object is complete and verified in its staging directory, or in recovery. */
    method Prepare(spec: ArtifactSpec) returns (ok: bool, name: string)
      requires Valid() && spec in specs && spec.Valid()
      modifies `disk, `past, io
      ensures Valid() && old(past) <= past && io.ticks >= old(io.ticks)
      ensures Safe(codec, specs, old(disk), disk) && disk.objects == old(disk).objects && OnlyArchive(old(disk), disk, spec)
      ensures ok ==> name in disk.staging && Verified(codec, disk.staging[name], spec)
      ensures io.Clean(old(io.ticks), io.ticks) ==> (ok <==> Obtainable(codec, old(disk), spec, fetch(spec)))
    {
      hide Safe, Unused, Ticking, Verified, ArtifactSpec.Valid, RecoveryName, WellFormed, Disk.Valid, ArchiveName, Valid,
           OnlyArchive, Source, InPlace, Unpacks, NamedNow, StagingName, Laid;
      name := "";
      ok := EnsureArchive(spec);
      if !ok {
        return;
      }
      name := StagingName(spec, clock(io.ticks));
      StagingIsFree(spec);
      StagingIsNamed(spec);
      ghost var fetched, source := disk, Source(codec, old(disk), spec, fetch(spec));
      ok := Stage(spec, name, if source.Some? then source.value else []);
      SafeTrans(codec, specs, old(disk), fetched, disk);
      DownloadsSame(fetched, disk, spec);
      if ok {
        StagedTree(name);
        ok := CheckObject(disk.staging[name], spec);
      }
      if source.Some? {
        InstallableIs(codec, spec, source.value);
      }
      ghost var staged := disk;
      if !ok && name in disk.staging {
        var _ := RecoverStaging(name);
        SafeTrans(codec, specs, old(disk), staged, disk);
      }
      DownloadsSame(staged, disk, spec);
      OnlyArchiveTrans(old(disk), fetched, staged, spec);
      OnlyArchiveTrans(old(disk), staged, disk, spec);
    }

    lemma StagingIsNamed(spec: ArtifactSpec)
      ensures NamedNow(clock, StagingName(spec, clock(io.ticks)), io.ticks)
    {
      NewName(clock, spec.id, io.ticks);
    }

    /** What clearing the way and installing do together. */
    lemma InstallEffect(before: Disk, cleared: Disk, spec: ArtifactSpec)
      requires spec.Valid() && OnlyObject(before, cleared, spec) && OnlyObject(cleared, disk, spec)
      requires Safe(codec, specs, before, cleared) && Safe(codec, specs, cleared, disk)
      requires OnlyArchive(before, cleared, spec) && OnlyArchive(cleared, disk, spec)
      ensures OnlyObject(before, disk, spec) && Safe(codec, specs, before, disk) && OnlyArchive(before, disk, spec)
      ensures forall tree :: tree in cleared.recovery.Values ==> tree in disk.recovery.Values
    {
      hide Safe, OnlyObject, OnlyArchive, ArtifactSpec.Valid;
      OnlyObjectTrans(before, cleared, disk, spec);
      OnlyArchiveTrans(before, cleared, disk, spec);
      SafeTrans(codec, specs, before, cleared, disk);
      forall tree | tree in cleared.recovery.Values
        ensures tree in disk.recovery.Values
      {
        RecoveryIsKept(codec, specs, cleared, disk);
        ValuesKept(cleared, disk, tree);
      }
    }

    lemma StagedTree(name: string)
      requires Valid() && name in disk.staging
      ensures WellFormed(disk.staging[name])
    {
      hide Safe, WellFormed, Unused;
      Now();
    }

    lemma ObjectTree(name: string)
      requires Valid()
      ensures name in disk.objects ==> WellFormed(disk.objects[name])
    {
      hide Safe, WellFormed, Unused;
      Now();
    }
  }

  /** The verified object of this artifact is in place. */
  ghost predicate IsReady(codec: Codec, disk: Disk, spec: ArtifactSpec)
    requires spec.Valid()
  {
    ObjectName(spec) in disk.objects && Verified(codec, disk.objects[ObjectName(spec)], spec)
  }

  lemma ReadyIsNotEmpty(codec: Codec, disk: Disk, spec: ArtifactSpec)
    requires spec.Valid()
    ensures IsReady(codec, disk, spec) ==> disk.objects[ObjectName(spec)] != EMPTY_DIR
  {
    hide ArtifactSpec.Valid, ObjectName, InventoryMatches, AllPlain, RequiredExist;
    assert |MARKER| == 1;
  }

  /** At most the object of this artifact differs. */
  ghost predicate OnlyObject(before: Disk, after: Disk, spec: ArtifactSpec)
    requires |spec.sha256| >= 16
  {
    forall n :: n != ObjectName(spec) ==>
      (n in before.objects <==> n in after.objects)
      && (n in before.objects ==> before.objects[n] == after.objects[n])
  }

  /** A staging directory renamed to its object path. */
  function Activated(disk: Disk, name: string, spec: ArtifactSpec): Disk
    requires name in disk.staging && |spec.sha256| >= 16
  {
    disk.(objects := disk.objects[ObjectName(spec) := disk.staging[name]], staging := disk.staging - {name})
  }

  lemma Activates(codec: Codec, specs: seq<ArtifactSpec>, clock: Clock, disk: Disk, name: string, spec: ArtifactSpec,
                  now: nat)
    requires disk.Valid() && Unused(clock, disk, now) && spec in specs && spec.Valid()
    requires ObjectName(spec) in disk.objects ==> disk.objects[ObjectName(spec)] == EMPTY_DIR
    requires name in disk.staging && Verified(codec, disk.staging[name], spec)
    ensures var next := Activated(disk, name, spec);
            && next.Valid() && Safe(codec, specs, disk, next) && OnlyObject(disk, next, spec)
            && Unused(clock, next, now + 1) && IsReady(codec, next, spec)
  {
    hide Verified, ArtifactSpec.Valid, Safe, Unused, ObjectName, WellFormed;
    var next := Activated(disk, name, spec);
    ActivatesSafely(codec, specs, disk, next, spec);
    UnusedKept(clock, disk, next, now);
    UnusedLater(clock, next, now, now + 1);
  }

  lemma ObjectOnly(before: Disk, after: Disk, spec: ArtifactSpec)
    requires spec.Valid() && before.objects == after.objects
    ensures OnlyObject(before, after, spec)
  {
    hide ArtifactSpec.Valid, ObjectName;
  }

  lemma OnlyObjectTrans(a: Disk, b: Disk, c: Disk, spec: ArtifactSpec)
    requires spec.Valid() && OnlyObject(a, b, spec) && OnlyObject(b, c, spec)
    ensures OnlyObject(a, c, spec)
  {
    hide ArtifactSpec.Valid, ObjectName;
  }

  lemma StagedIsValid(disk: Disk, name: string, tree: Tree)
    requires disk.Valid() && WellFormed(tree)
    ensures disk.(staging := disk.staging[name := tree]).Valid()
  {
    hide WellFormed;
  }

  lemma StagedIsRestartable(codec: Codec, specs: seq<ArtifactSpec>, clock: Clock, origin: Disk, disk: Disk, name: string,
                            tree: Tree, now: nat)
    requires Restartable(codec, specs, clock, origin, disk, now) && WellFormed(tree) && name in disk.staging
    ensures var next := disk.(staging := disk.staging[name := tree]);
            Restartable(codec, specs, clock, origin, next, now) && Safe(codec, specs, disk, next)
  {
    hide WellFormed, Safe, Unused, Disk.Valid;
    var next := disk.(staging := disk.staging[name := tree]);
    StagedIsValid(disk, name, tree);
    KeepsObjects(codec, specs, disk, next);
    SafeTrans(codec, specs, origin, disk, next);
    UnusedKept(clock, disk, next, now);
  }

  lemma DownloadedIsValid(disk: Disk, downloads: map<string, Tree>, content: seq<Byte>)
    requires disk.Valid()
    requires forall n :: n in downloads ==>
               downloads[n] == FileTree(content) || (n in disk.downloads && downloads[n] == disk.downloads[n])
    ensures disk.(downloads := downloads).Valid()
  {
    hide WellFormed, FileTree;
    FileIsWellFormed(content);
  }

  lemma FileIsWellFormed(content: seq<Byte>)
    ensures WellFormed(FileTree(content))
  {
  }

  lemma EmptyIsWellFormed()
    ensures WellFormed(EMPTY_DIR)
  {
  }

  lemma FolderStaysValid(folder: Folder)
    requires folder.Valid()
    ensures WellFormed(folder.tree) && forall i :: 0 <= i < |folder.past| ==> WellFormed(folder.past[i])
  {
    hide WellFormed;
  }

  /** An object, a download or a staging directory renamed into recovery. */
  function WithoutObject(disk: Disk, n: string, name: string): Disk
    requires n in disk.objects
  {
    disk.(objects := disk.objects - {n}, recovery := disk.recovery[name := disk.objects[n]])
  }

  function WithoutDownload(disk: Disk, n: string, name: string): Disk
    requires n in disk.downloads
  {
    disk.(downloads := disk.downloads - {n}, recovery := disk.recovery[name := disk.downloads[n]])
  }

  function WithoutStaging(disk: Disk, n: string, name: string): Disk
    requires n in disk.staging
  {
    disk.(staging := disk.staging - {n}, recovery := disk.recovery[name := disk.staging[n]])
  }

  lemma ObjectMoves(codec: Codec, specs: seq<ArtifactSpec>, clock: Clock, disk: Disk, spec: ArtifactSpec, now: nat)
    requires disk.Valid() && Ticking(clock) && Unused(clock, disk, now)
    requires spec in specs && spec.Valid() && ObjectName(spec) in disk.objects
    ensures var next := WithoutObject(disk, ObjectName(spec), RecoveryName(ObjectLabel, clock(now)));
            && next.Valid() && Safe(codec, specs, disk, next) && Unused(clock, next, now + 1)
            && OnlyObject(disk, next, spec)
            && disk.objects[ObjectName(spec)] in next.recovery.Values
  {
    hide Safe, ArtifactSpec.Valid, ObjectName, Ticking, WellFormed, Free, NamedNow, Stamped;
    var n, name := ObjectName(spec), RecoveryName(ObjectLabel, clock(now));
    var next := WithoutObject(disk, n, name);
    NewName(clock, LabelText(ObjectLabel), now);
    FreeNow(clock, disk, LabelText(ObjectLabel), now);
    UnusedAfter(clock, disk, next, now);
    RecoversSafely(codec, specs, disk, next, name, disk.objects[n]);
  }

  lemma DownloadMoves(codec: Codec, specs: seq<ArtifactSpec>, clock: Clock, disk: Disk, n: string, what: Label, now: nat)
    requires disk.Valid() && Ticking(clock) && Unused(clock, disk, now) && n in disk.downloads
    ensures var next := WithoutDownload(disk, n, RecoveryName(what, clock(now)));
            && next.Valid() && Safe(codec, specs, disk, next) && Unused(clock, next, now + 1)
            && disk.downloads[n] in next.recovery.Values
  {
    hide Safe, Ticking, WellFormed, Free, NamedNow, Stamped;
    var name := RecoveryName(what, clock(now));
    var next := WithoutDownload(disk, n, name);
    NewName(clock, LabelText(what), now);
    FreeNow(clock, disk, LabelText(what), now);
    UnusedAfter(clock, disk, next, now);
    RecoversSafely(codec, specs, disk, next, name, disk.downloads[n]);
  }

  lemma StagingMoves(codec: Codec, specs: seq<ArtifactSpec>, clock: Clock, disk: Disk, n: string, now: nat)
    requires disk.Valid() && Ticking(clock) && Unused(clock, disk, now) && n in disk.staging
    ensures var next := WithoutStaging(disk, n, RecoveryName(StagingLabel, clock(now)));
            && next.Valid() && Safe(codec, specs, disk, next) && Unused(clock, next, now + 1)
            && disk.staging[n] in next.recovery.Values
  {
    hide Safe, Ticking, WellFormed, Free, NamedNow, Stamped;
    var name := RecoveryName(StagingLabel, clock(now));
    var next := WithoutStaging(disk, n, name);
    NewName(clock, LabelText(StagingLabel), now);
    FreeNow(clock, disk, LabelText(StagingLabel), now);
    UnusedAfter(clock, disk, next, now);
    RecoversSafely(codec, specs, disk, next, name, disk.staging[n]);
  }

  lemma PartialIsPartial(spec: ArtifactSpec, stamp: string)
    requires IsStamp(stamp)
    ensures IsPartial(PartialName(spec, stamp))
  {
  }
}
