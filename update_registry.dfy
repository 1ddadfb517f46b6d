/**
  `main`: scan the artifact files of the upload directory, upsert one entry
  per accepted file, drop the entries no scanned file accounts for, sort, and
  write the registry once.

  The directory listing, file sizes, digests, archive contents, the current
  date and the environment are inputs: each candidate file arrives as a
  FileRecord, in the order the directory listing gives them.
*/
module UpdateRegistry {
  import opened Wrappers
  import opened Json
  import opened Ascii
  import opened MagicFilename
  import opened MagicArchive
  import opened BuildType
  import opened RegistryEntries
  import opened RegistryOrder
  import opened RegistryStore
  import opened CatalogEntry
  import opened RegistryRerun

  /** One `*.magic` file of the upload directory: its name, its content seen
      as an archive, its size (`stat().st_size`) and its SHA-256 hex digest. */
  datatype FileRecord = FileRecord(fileName: string, archive: Archive, sizeBytes: nat, sha256: string)

  /** The uncaught exceptions that end a run before anything is written. */
  datatype Crash =
    | MetadataNotAnObject   // `infos.get` on a decoded list, number, ... (AttributeError)
    | UnhashableKey         // a list or dict as name or version, hashed for the key set (TypeError)
    | UnorderableKey        // a non-string name or version met by the sort (TypeError)

  /** What one invocation does to the registry file. */
  datatype Outcome =
    | NothingToDo                     // the upload directory does not exist: nothing is read or written
    | Crashed(reason: Crash)          // the run stops; the file is not written
    | Written(models: seq<Entry>)     // the "models" list written to the registry file

  datatype SkipReason = UnexpectedName | NotReadable(error: ReadError)

  /** What the loop body does with one file. */
  datatype FileStep =
    | Skipped(why: SkipReason)                 // logged and `continue`d
    | Failed(reason: Crash)
    | Accepted(key: Key, entry: Entry)         // `(name, version)` added to the key set, entry upserted

  /** The body of the loop of `main` for one file, apart from its two state
      updates, which it returns: the pair for `magic_names` and the entry. */
  function ProcessFile(f: FileRecord, cfg: Config, today: string): FileStep
  {
    match ParseFileName(f.fileName)
    case None => Skipped(UnexpectedName)
    case Some((name, buildId)) =>
      match ReadModelInfos(f.archive)
      case Failure(err) => Skipped(NotReadable(err))
      case Success(Undecodable) => Skipped(NotReadable(BadMetadata))   // a successful read never holds this
      case Success(NotAnObject) => Failed(MetadataNotAnObject)
      case Success(Document(infos)) =>
        var version := ResolveVersion(infos);
        if !Hashable(version) then Failed(UnhashableKey)
        else
          var url := DownloadUrl(cfg, f.fileName);
          Accepted((JString(name), version), BuildEntry(infos, name, buildId, f.sizeBytes, f.sha256, url, today))
  }

  /** A file the name pattern rejects is skipped; an accepted file's key
      pairs the logical name taken from its file name with a hashable version. */
  lemma ProcessFileOutcome(f: FileRecord, cfg: Config, today: string)
    ensures ParseFileName(f.fileName).None? ==> ProcessFile(f, cfg, today) == Skipped(UnexpectedName)
    ensures ProcessFile(f, cfg, today).Accepted? ==>
      && ParseFileName(f.fileName).Some?
      && ProcessFile(f, cfg, today).key.0 == JString(ParseFileName(f.fileName).value.0)
      && Hashable(ProcessFile(f, cfg, today).key.1)
  {
  }

  /** The state the loop of `main` updates: `registry["models"]` and `magic_names`. */
  datatype ScanState = ScanState(models: seq<Entry>, seen: set<Key>)

  /** The step of each file, in order. */
  function Steps(files: seq<FileRecord>, cfg: Config, today: string): seq<FileStep>
  {
    seq(|files|, i requires 0 <= i < |files| => ProcessFile(files[i], cfg, today))
  }

  /** The loop of `main` over the files' steps, in order; the first crash ends it. */
  function Scan(st: ScanState, steps: seq<FileStep>): (r: Result<ScanState, Crash>)
    ensures r.Success? ==> st.seen <= r.value.seen && |st.models| <= |r.value.models|
    decreases |steps|
  {
    if steps == [] then Success(st)
    else match steps[0]
      case Skipped(_) => Scan(st, steps[1..])
      case Failed(c) => Failure(c)
      case Accepted(k, e) => Scan(ScanState(Upserted(st.models, e), st.seen + {k}), steps[1..])
  }

  /** What a whole run of `main` produces. */
  function RunSpec(distExists: bool, stored: StoredRegistry, files: seq<FileRecord>, cfg: Config, today: string): Outcome
  {
    RunSteps(distExists, stored, Steps(files, cfg, today))
  }

  /** A run of `main` whose files' steps are `steps`. */
  function RunSteps(distExists: bool, stored: StoredRegistry, steps: seq<FileStep>): Outcome
  {
    if !distExists then NothingToDo
    else match Scan(ScanState(LoadRegistry(stored), {}), steps)
      case Failure(c) => Crashed(c)
      case Success(st) =>
        if !(forall m :: m in st.models ==> KeyHashable(m)) then Crashed(UnhashableKey)
        else
          var kept := Pruned(st.models, st.seen);
          if !AllOrderable(kept) then Crashed(UnorderableKey) else Written(SortByKey(kept))
  }

  /** `main`, step by step, on the in-memory registry. */
  method Run(distExists: bool, stored: StoredRegistry, files: seq<FileRecord>, cfg: Config, today: string)
    returns (out: Outcome)
    ensures out == RunSpec(distExists, stored, files, cfg, today)
  {
    if !distExists {
      return NothingToDo;
    }
    var registry := new Registry(LoadRegistry(stored));
    var magicNames: set<Key> := {};
    ghost var steps := Steps(files, cfg, today);
    ghost var start := ScanState(LoadRegistry(stored), {});
    var i := 0;
    while i < |files|
      invariant 0 <= i <= |files|
      invariant Scan(start, steps) == Scan(ScanState(registry.models, magicNames), steps[i..])
    {
      assert steps[i..][1..] == steps[i + 1..];
      match ProcessFile(files[i], cfg, today) {
        case Skipped(_) =>
        case Failed(c) =>
          return Crashed(c);
        case Accepted(k, e) =>
          magicNames := magicNames + {k};
          registry.Upsert(e);
      }
      i := i + 1;
    }
    var ok := registry.Prune(magicNames);
    if !ok {
      return Crashed(UnhashableKey);
    }
    ok := registry.Save();
    if !ok {
      return Crashed(UnorderableKey);
    }
    return Written(registry.models);
  }

  /** Some accepted file has `k` as its `(file name, resolved version)`. */
  predicate AcceptedKeyOf(files: seq<FileRecord>, cfg: Config, today: string, k: Key)
  {
    exists i :: 0 <= i < |files| && ProcessFile(files[i], cfg, today).Accepted? && ProcessFile(files[i], cfg, today).key == k
  }

  /** The keys the accepted steps add to the key set. */
  function AcceptedKeys(steps: seq<FileStep>): (r: set<Key>)
    ensures forall i :: 0 <= i < |steps| && steps[i].Accepted? ==> steps[i].key in r
    ensures forall k :: k in r ==> exists i :: 0 <= i < |steps| && steps[i].Accepted? && steps[i].key == k
  {
    if steps == [] then {}
    else
      var rest := AcceptedKeys(steps[1..]);
      assert forall i :: 1 <= i < |steps| ==> steps[i] == steps[1..][i - 1];
      if steps[0].Accepted? then {steps[0].key} + rest else rest
  }

  /** The entries the accepted steps upsert, in order. */
  function AcceptedEntries(steps: seq<FileStep>): (r: seq<Entry>)
    ensures forall x :: x in r ==> exists i :: 0 <= i < |steps| && steps[i].Accepted? && steps[i].entry == x
  {
    if steps == [] then []
    else
      var rest := AcceptedEntries(steps[1..]);
      assert forall i :: 1 <= i < |steps| ==> steps[i] == steps[1..][i - 1];
      if steps[0].Accepted? then [steps[0].entry] + rest else rest
  }

  /** Whether the scan completes depends on the steps alone. */
  lemma {:induction false} ScanCompletesAlike(st: ScanState, st': ScanState, steps: seq<FileStep>)
    ensures Scan(st, steps).Success? == Scan(st', steps).Success?
    decreases |steps|
  {
    if steps != [] && !steps[0].Failed? {
      match steps[0]
      case Skipped(_) =>
        ScanCompletesAlike(st, st', steps[1..]);
      case Accepted(k, e) =>
        ScanCompletesAlike(ScanState(Upserted(st.models, e), st.seen + {k}),
          ScanState(Upserted(st'.models, e), st'.seen + {k}), steps[1..]);
    }
  }

  /** A completed scan has upserted the accepted entries, in order. */
  lemma {:induction false} ScanUpsertsAccepted(st: ScanState, steps: seq<FileStep>)
    requires Scan(st, steps).Success?
    ensures Scan(st, steps).value.models == UpsertAll(st.models, AcceptedEntries(steps))
    decreases |steps|
  {
    if steps != [] {
      match steps[0]
      case Skipped(_) =>
        ScanUpsertsAccepted(st, steps[1..]);
      case Accepted(k, e) =>
        ScanUpsertsAccepted(ScanState(Upserted(st.models, e), st.seen + {k}), steps[1..]);
        assert ([e] + AcceptedEntries(steps[1..]))[1..] == AcceptedEntries(steps[1..]);
    }
  }

  /** A scan that completes has added exactly the accepted keys to the key
      set, and keeps the entries' keys unique when they were. */
  lemma {:induction false} ScanSeenKeys(st: ScanState, steps: seq<FileStep>)
    requires Scan(st, steps).Success?
    ensures Scan(st, steps).value.seen == st.seen + AcceptedKeys(steps)
    ensures UniqueKeys(st.models) ==> UniqueKeys(Scan(st, steps).value.models)
    decreases |steps|
  {
    if steps != [] {
      match steps[0]
      case Skipped(_) =>
        ScanSeenKeys(st, steps[1..]);
      case Accepted(k, e) =>
        ScanSeenKeys(ScanState(Upserted(st.models, e), st.seen + {k}), steps[1..]);
        if UniqueKeys(st.models) {
          UpsertPreservesUniqueKeys(st.models, e);
        }
    }
  }

  /** An entry in the registry survives the rest of the scan when no later
      accepted step carries an entry with its key. */
  lemma {:induction false} ScanKeepsEntry(st: ScanState, steps: seq<FileStep>, x: Entry)
    requires Scan(st, steps).Success? && x in st.models
    requires forall j :: 0 <= j < |steps| && steps[j].Accepted? ==> KeyOf(steps[j].entry) != KeyOf(x)
    ensures x in Scan(st, steps).value.models
    decreases |steps|
  {
    if steps != [] {
      assert forall j :: 1 <= j < |steps| ==> steps[j] == steps[1..][j - 1];
      match steps[0]
      case Skipped(_) =>
        ScanKeepsEntry(st, steps[1..], x);
      case Accepted(k, e) =>
        UpsertKeys(st.models, e);
        ScanKeepsEntry(ScanState(Upserted(st.models, e), st.seen + {k}), steps[1..], x);
    }
  }

  /** The entry of accepted step `i` is in the scanned registry when no later
      accepted step's entry has the same key. */
  lemma {:induction false} ScanStoresEntry(st: ScanState, steps: seq<FileStep>, i: nat)
    requires Scan(st, steps).Success?
    requires i < |steps| && steps[i].Accepted?
    requires forall j :: i < j < |steps| && steps[j].Accepted? ==> KeyOf(steps[j].entry) != KeyOf(steps[i].entry)
    ensures steps[i].entry in Scan(st, steps).value.models
    decreases |steps|
  {
    assert forall j :: 1 <= j < |steps| ==> steps[j] == steps[1..][j - 1];
    match steps[0]
    case Skipped(_) =>
      ScanStoresEntry(st, steps[1..], i - 1);
    case Accepted(k, e) =>
      var st' := ScanState(Upserted(st.models, e), st.seen + {k});
      if i == 0 {
        UpsertKeys(st.models, e);
        ScanKeepsEntry(st', steps[1..], e);
      } else {
        ScanStoresEntry(st', steps[1..], i - 1);
      }
  }

  /** The directory's absence is the only case where nothing is written:
      whenever it exists the registry is rewritten, even with no files. */
  lemma RunNothingToDoIffNoDirectory(
    distExists: bool, stored: StoredRegistry, files: seq<FileRecord>, cfg: Config, today: string)
    ensures RunSpec(distExists, stored, files, cfg, today).NothingToDo? <==> !distExists
  {
  }

  /** What every written registry satisfies: it is ascending by
      `(name, version)`, every entry's key is the `(file name, version)` of an
      accepted file (so an entry whose metadata name differs from its file's
      name is dropped), and keys stay unique when the loaded ones were. */
  lemma RunWrittenRegistry(
    distExists: bool, stored: StoredRegistry, files: seq<FileRecord>, cfg: Config, today: string)
    requires RunSpec(distExists, stored, files, cfg, today).Written?
    ensures var ms := RunSpec(distExists, stored, files, cfg, today).models;
      && AllOrderable(ms) && Sorted(ms)
      && (forall m :: m in ms ==> AcceptedKeyOf(files, cfg, today, KeyOf(m)))
      && (UniqueKeys(LoadRegistry(stored)) ==> UniqueKeys(ms))
  {
    var steps := Steps(files, cfg, today);
    var start := ScanState(LoadRegistry(stored), {});
    var st := Scan(start, steps).value;
    var kept := Pruned(st.models, st.seen);
    var ms := SortByKey(kept);
    ScanSeenKeys(start, steps);
    SortByKeySorted(kept);
    PrunedMembers(st.models, st.seen);
    forall m | m in ms
      ensures AcceptedKeyOf(files, cfg, today, KeyOf(m))
    {
      assert m in multiset(ms);
      assert KeyOf(m) in AcceptedKeys(steps);
    }
    if UniqueKeys(LoadRegistry(stored)) {
      ScanSeenKeys(start, steps);
      PrunePreservesUniqueKeys(st.models, st.seen);
      SortByKeyPreservesUniqueKeys(kept);
    }
  }

  /** The entry built from accepted file `i` is written when its key is the
      file's own `(name, version)` (its metadata has no other name) and no
      later accepted file's entry has the same key. */
  lemma RunWritesEntry(
    distExists: bool, stored: StoredRegistry, files: seq<FileRecord>, cfg: Config, today: string, i: nat)
    requires RunSpec(distExists, stored, files, cfg, today).Written?
    requires i < |files| && ProcessFile(files[i], cfg, today).Accepted?
    requires KeyOf(ProcessFile(files[i], cfg, today).entry) == ProcessFile(files[i], cfg, today).key
    requires forall j :: i < j < |files| && ProcessFile(files[j], cfg, today).Accepted? ==>
      KeyOf(ProcessFile(files[j], cfg, today).entry) != KeyOf(ProcessFile(files[i], cfg, today).entry)
    ensures ProcessFile(files[i], cfg, today).entry in RunSpec(distExists, stored, files, cfg, today).models
  {
    var steps := Steps(files, cfg, today);
    var start := ScanState(LoadRegistry(stored), {});
    var st := Scan(start, steps).value;
    var e := steps[i].entry;
    ScanStoresEntry(start, steps, i);
    ScanSeenKeys(start, steps);
    PrunedMembers(st.models, st.seen);
    var kept := Pruned(st.models, st.seen);
    assert e in multiset(kept);
  }

  /** With the upload directory present but no artifact file in it, the prune
      empties the registry and the empty list is written (or the run fails on
      an unhashable stored key): stale entries are not kept. */
  lemma RunWithoutFilesEmptiesRegistry(stored: StoredRegistry, cfg: Config, today: string)
    ensures RunSpec(true, stored, [], cfg, today) ==
      if forall m :: m in LoadRegistry(stored) ==> KeyHashable(m) then Written([]) else Crashed(UnhashableKey)
  {
    var load := LoadRegistry(stored);
    assert Steps([], cfg, today) == [];
    assert Scan(ScanState(load, {}), []).Success?;
    RunStepsClosedForm(stored, []);
    assert UpsertAll(load, []) == load;
    PrunedNoneKept(load, {});
  }

  /** A file whose archive has no member named like "*metadata.json" is
      skipped, leaving the registry and the key set as they were. */
  lemma FileWithoutMetadataIsSkipped(st: ScanState, f: FileRecord, rest: seq<FileStep>, cfg: Config, today: string)
    requires f.archive.Zip? && forall j :: 0 <= j < |f.archive.members| ==> !IsMetadataName(f.archive.members[j].name)
    ensures ProcessFile(f, cfg, today).Skipped?
    ensures Scan(st, [ProcessFile(f, cfg, today)] + rest) == Scan(st, rest)
  {
    assert ([ProcessFile(f, cfg, today)] + rest)[1..] == rest;
  }

  /** `mymodel_X7B.magic` whose metadata is `{"version": "2.1"}` is accepted
      under the key ("mymodel", "2.1"), with build id "X7B" and channel "rc". */
  lemma ExampleArtifactAccepted(f: FileRecord, cfg: Config, today: string)
    requires f.fileName == "mymodel_X7B.magic"
    requires f.archive == Zip([Member("metadata.json", Document(map["version" := JString("2.1")]))])
    ensures ProcessFile(f, cfg, today).Accepted?
    ensures ProcessFile(f, cfg, today).key == (JString("mymodel"), JString("2.1"))
    ensures Get(ProcessFile(f, cfg, today).entry, "build_id") == JString("X7B")
    ensures Get(ProcessFile(f, cfg, today).entry, "build_type") == JString("rc")
    ensures Get(ProcessFile(f, cfg, today).entry, "version") == JString("2.1")
    ensures Get(ProcessFile(f, cfg, today).entry, "name") == JString("mymodel")
  {
    var metadata := map["version" := JString("2.1")];
    assert IsLogicalName("mymodel") && IsBuildId("X7B");
    assert f.fileName == ArtifactFileName("mymodel", "X7B");
    assert ResolveVersion(metadata) == JString("2.1");
    AcceptedArtifact(f, "mymodel", "X7B", metadata, cfg, today);
    ExampleEntryFields(metadata, f.sizeBytes, f.sha256, DownloadUrl(cfg, f.fileName), today);
  }

  lemma ExampleEntryFields(metadata: Object, size: nat, sha: string, url: string, today: string)
    requires metadata == map["version" := JString("2.1")]
    ensures var e := BuildEntry(metadata, "mymodel", "X7B", size, sha, url, today);
      Get(e, "build_id") == JString("X7B") && Get(e, "build_type") == JString("rc")
      && Get(e, "version") == JString("2.1") && Get(e, "name") == JString("mymodel")
  {
    assert ParseBuildType("X7B") == "rc";
  }

  lemma AcceptedArtifact(f: FileRecord, name: string, buildId: string, metadata: Object, cfg: Config, today: string)
    requires IsLogicalName(name) && IsBuildId(buildId) && Hashable(ResolveVersion(metadata))
    requires f.fileName == ArtifactFileName(name, buildId)
    requires f.archive == Zip([Member(METADATA_SUFFIX, Document(metadata))])
    ensures ProcessFile(f, cfg, today) == Accepted((JString(name), ResolveVersion(metadata)),
      BuildEntry(metadata, name, buildId, f.sizeBytes, f.sha256, DownloadUrl(cfg, f.fileName), today))
  {
    ParseFileNameRoundTrip(name, buildId);
    SingleMetadataMember(Document(metadata));
  }

  /** `foo_1A.magic` whose metadata is `{"name": "Foo", "version": "1"}` is
      accepted under the file key ("foo", "1"), but its entry is stored under
      ("Foo", "1"). */
  lemma RenamedArtifactExample(f: FileRecord, cfg: Config, today: string)
    requires f.fileName == "foo_1A.magic"
    requires f.archive == Zip([Member("metadata.json",
      Document(map["name" := JString("Foo"), "version" := JString("1")]))])
    ensures ProcessFile(f, cfg, today).Accepted?
    ensures ProcessFile(f, cfg, today).key == (JString("foo"), JString("1"))
    ensures KeyOf(ProcessFile(f, cfg, today).entry) == (JString("Foo"), JString("1"))
    ensures KeyHashable(ProcessFile(f, cfg, today).entry)
  {
    var metadata := map["name" := JString("Foo"), "version" := JString("1")];
    assert IsLogicalName("foo") && IsBuildId("1A");
    assert f.fileName == ArtifactFileName("foo", "1A");
    assert ResolveVersion(metadata) == JString("1");
    AcceptedArtifact(f, "foo", "1A", metadata, cfg, today);
    BuildEntryKey(metadata, "foo", "1A", f.sizeBytes, f.sha256, DownloadUrl(cfg, f.fileName), today);
  }

  /** A run over one accepted file whose entry carries its file key and
      string name and version, on a missing registry file, writes a registry
      holding exactly that entry. */
  lemma SoleArtifactIsWritten(f: FileRecord, cfg: Config, today: string)
    requires ProcessFile(f, cfg, today).Accepted?
    requires KeyOf(ProcessFile(f, cfg, today).entry) == ProcessFile(f, cfg, today).key
    requires Orderable(ProcessFile(f, cfg, today).entry)
    ensures RunSpec(true, Missing, [f], cfg, today) == Written([ProcessFile(f, cfg, today).entry])
  {
    var step := ProcessFile(f, cfg, today);
    assert Steps([f], cfg, today) == [Accepted(step.key, step.entry)];
    ProcessFileOutcome(f, cfg, today);
    RunSoleStep(step.key, step.entry);
  }

  lemma RunSoleStep(k: Key, e: Entry)
    requires KeyOf(e) == k && KeyHashable(e) && Orderable(e)
    ensures RunSteps(true, Missing, [Accepted(k, e)]) == Written([e])
  {
    var st := ScanState([e], {k});
    assert Scan(ScanState([], {}), [Accepted(k, e)]) == Success(st) by {
      assert [Accepted(k, e)][1..] == [];
      assert Upserted([], e) == [e];
      assert {} + {k} == {k};
    }
    assert forall m :: m in st.models ==> KeyHashable(m);
    assert Pruned([e], {k}) == [e] by {
      assert [e][1..] == [];
    }
    SortByKeyOfSorted([e]);
  }

  /** `mymodel_X7B.magic` alone, on a missing registry file, is written as the
      registry's only entry. */
  lemma ExampleArtifactIsWritten(f: FileRecord, cfg: Config, today: string)
    requires f.fileName == "mymodel_X7B.magic"
    requires f.archive == Zip([Member("metadata.json", Document(map["version" := JString("2.1")]))])
    ensures ProcessFile(f, cfg, today).Accepted?
    ensures RunSpec(true, Missing, [f], cfg, today) == Written([ProcessFile(f, cfg, today).entry])
  {
    ExampleArtifactAccepted(f, cfg, today);
    SoleArtifactIsWritten(f, cfg, today);
  }

  /** The prune compares against the file's name, not the entry's: an
      artifact whose metadata gives it another name is upserted under that
      name and then removed, so a run over it alone writes an empty registry. */
  lemma RenamedArtifactIsPruned(
    f: FileRecord, name: string, buildId: string, metadata: Object, cfg: Config, today: string)
    requires IsLogicalName(name) && IsBuildId(buildId) && f.fileName == ArtifactFileName(name, buildId)
    requires f.archive == Zip([Member(METADATA_SUFFIX, Document(metadata))])
    requires "name" in metadata && metadata["name"] != JString(name) && Hashable(metadata["name"])
    requires Hashable(ResolveVersion(metadata))
    ensures RunSpec(true, Missing, [f], cfg, today) == Written([])
  {
    AcceptedArtifact(f, name, buildId, metadata, cfg, today);
    BuildEntryKey(metadata, name, buildId, f.sizeBytes, f.sha256, DownloadUrl(cfg, f.fileName), today);
    SoleRenamedFileIsPruned(f, cfg, today);
  }

  /** A run over one accepted file whose entry key is not its file key, on a
      missing registry file, writes an empty registry. */
  lemma SoleRenamedFileIsPruned(f: FileRecord, cfg: Config, today: string)
    requires ProcessFile(f, cfg, today).Accepted?
    requires KeyOf(ProcessFile(f, cfg, today).entry) != ProcessFile(f, cfg, today).key
    requires KeyHashable(ProcessFile(f, cfg, today).entry)
    ensures RunSpec(true, Missing, [f], cfg, today) == Written([])
  {
    var step := ProcessFile(f, cfg, today);
    assert Steps([f], cfg, today) == [Accepted(step.key, step.entry)];
    RunSoleRenamedStep(step.key, step.entry);
  }

  lemma RunSoleRenamedStep(k: Key, e: Entry)
    requires KeyOf(e) != k && KeyHashable(e)
    ensures RunSteps(true, Missing, [Accepted(k, e)]) == Written([])
  {
    var st := ScanState([e], {k});
    assert Scan(ScanState([], {}), [Accepted(k, e)]) == Success(st) by {
      assert [Accepted(k, e)][1..] == [];
      assert Upserted([], e) == [e];
      assert {} + {k} == {k};
    }
    assert forall m :: m in st.models ==> KeyHashable(m);
    assert Pruned([e], {k}) == [] by {
      assert [e][1..] == [];
    }
  }

  /** Running `main` again over the same files, with the registry file now
      holding what the first run wrote, writes the same registry. */
  lemma RunIsIdempotent(
    stored: StoredRegistry, files: seq<FileRecord>, cfg: Config, today: string, ms: seq<Entry>, text: string)
    requires RunSpec(true, stored, files, cfg, today) == Written(ms)
    requires exists i :: 0 <= i < |text| && !IsSpace(text[i])
    ensures RunSpec(true, Stored(text, Some(ms)), files, cfg, today) == Written(ms)
  {
    RerunWritesSame(stored, Steps(files, cfg, today), ms, text);
  }

  lemma RerunWritesSame(stored: StoredRegistry, steps: seq<FileStep>, ms: seq<Entry>, text: string)
    requires RunSteps(true, stored, steps) == Written(ms)
    requires exists i :: 0 <= i < |text| && !IsSpace(text[i])
    ensures RunSteps(true, Stored(text, Some(ms)), steps) == Written(ms)
  {
    var es, seen := AcceptedEntries(steps), AcceptedKeys(steps);
    var load := LoadRegistry(stored);
    var again := Stored(text, Some(ms));
    RunStepsClosedForm(stored, steps);
    var f1 := UpsertAll(load, es);
    RewriteIsIdempotent(load, es, seen);
    LoadRegistryStartsFresh(again);
    ScanCompletesAlike(ScanState(load, {}), ScanState(ms, {}), steps);
    RunStepsClosedForm(again, steps);
    forall m | m in ms ensures m in f1 {
      assert m in multiset(ms);
      PrunedMembers(f1, seen);
    }
    RerunKeysHashable(load, ms, es);
  }

  /** A run whose loop completes writes the loaded list with the accepted
      entries upserted in order, pruned to the accepted keys and sorted, unless
      a key cannot be hashed or compared. */
  lemma RunStepsClosedForm(stored: StoredRegistry, steps: seq<FileStep>)
    requires Scan(ScanState(LoadRegistry(stored), {}), steps).Success?
    ensures var f := UpsertAll(LoadRegistry(stored), AcceptedEntries(steps));
      var kept := Pruned(f, AcceptedKeys(steps));
      RunSteps(true, stored, steps) ==
        if !(forall m :: m in f ==> KeyHashable(m)) then Crashed(UnhashableKey)
        else if !AllOrderable(kept) then Crashed(UnorderableKey)
        else Written(SortByKey(kept))
  {
    ScanResult(LoadRegistry(stored), steps);
  }

  /** A scan from a fresh key set that completes ends with the accepted
      entries upserted in order and exactly the accepted keys seen. */
  lemma ScanResult(load: seq<Entry>, steps: seq<FileStep>)
    requires Scan(ScanState(load, {}), steps).Success?
    ensures Scan(ScanState(load, {}), steps) ==
      Success(ScanState(UpsertAll(load, AcceptedEntries(steps)), AcceptedKeys(steps)))
  {
    var start := ScanState(load, {});
    ScanUpsertsAccepted(start, steps);
    ScanSeenKeys(start, steps);
    var r := Scan(start, steps).value;
    assert r.seen == AcceptedKeys(steps);
    assert r == ScanState(UpsertAll(load, AcceptedEntries(steps)), AcceptedKeys(steps));
  }

  /** The second run's keys are hashable: each of its entries was written by
      the first run or upserted by it, and the first run hashed them all. */
  lemma RerunKeysHashable(load: seq<Entry>, ms: seq<Entry>, es: seq<Entry>)
    requires forall m :: m in UpsertAll(load, es) ==> KeyHashable(m)
    requires forall m :: m in ms ==> m in UpsertAll(load, es)
    ensures forall m :: m in UpsertAll(ms, es) ==> KeyHashable(m)
  {
    forall m | m in UpsertAll(ms, es) ensures KeyHashable(m) {
      UpsertAllMembers(ms, es, m);
      if m !in ms {
        assert LastWith(es, KeyOf(m)).Some?;
        FirstWithUpsertAll(load, es, KeyOf(m));
      }
    }
  }
}
