# Registry updater for `.magic` artifacts, modelled in Dafny

`scripts/update_registry.py` maintains a JSON catalog (the registry file
`magic/manifest.json`) of the `.magic` artifacts found in the upload
directory `magic/upload`. On each run it does the following:

- it reads the catalog, or starts an empty one;
- it looks at every `*.magic` file and accepts those named
  `<name>_<buildid>.magic`;
- it finds the `*metadata.json` document inside each accepted archive;
- it builds one catalog entry per file: version, author, creation date,
  compatible versions, size, digest, download URL, build id and release
  channel;
- it upserts the entry under its `(name, version)` key;
- it drops every entry whose key no scanned file accounts for;
- it sorts the list by `(name, version)` and writes the catalog back.

This project models that core and proves what it guarantees:

| file | module | what it models |
|---|---|---|
| `json.dfy` | `Json` | JSON values, `dict.get`, Python truthiness, hashability |
| `ascii.dfy` | `Ascii` | `[A-Za-z0-9]`, `str.lower`/`str.upper` on ASCII letters, `str.endswith`, `str.strip` |
| `filename.dfy` | `MagicFilename` | the `FILENAME_RE` recogniser and its round trip |
| `build_type.dfy` | `BuildType` | `BUILD_MAP` and `parse_build_type` |
| `archive.dfy` | `MagicArchive` | `read_model_infos_from_magic` over an abstract archive |
| `registry_entries.dfy` | `RegistryEntries` | entries, identity keys, `upsert_model` as a function, the prune |
| `registry_order.dfy` | `RegistryOrder` | the stable sort of `save_registry` |
| `registry_store.dfy` | `RegistryStore` | `load_registry` and the in-memory registry as a class whose methods update its list |
| `catalog_entry.dfy` | `CatalogEntry` | version default, `compatible_versions` normalisation, download URL, the entry dict |
| `registry_rerun.dfy` | `RegistryRerun` | a run's upserts described key by key, and why re-running changes nothing |
| `update_registry.dfy` | `UpdateRegistry` | `main`: the loop over the files, the prune, the save, and the run's outcome |

`main` is modelled twice, and the two are proved equal. `UpdateRegistry.Run`
is a method that follows the script step by step on a `Registry` object.
`UpdateRegistry.RunSpec` is a function that folds the per-file steps.
Directory listing, file sizes, digests, archive contents, the environment
and the current date are inputs. Each candidate file is a `FileRecord`, given
in the order the directory listing yields them.

The model follows the code as written. These behaviours of the code are
easy to overlook, and the model keeps them:

- With the upload directory present but no artifact in it, the prune keeps no
  key, so the catalog is emptied and rewritten
  (`UpdateRegistry.RunWithoutFilesEmptiesRegistry`).
- The prune compares entry keys with the *file* name's logical part. An
  artifact whose metadata carries another `name` is upserted under that name
  and then dropped in the same run (`UpdateRegistry.RenamedArtifactIsPruned`).
- A truthy `compatible_versions`/`compat` value that is neither a string nor a
  list, such as a number or an object, is stored unchanged
  (`CatalogEntry.CompatibleVersionsNormalised`).
- When an archive holds several members with the chosen metadata name,
  `zipfile` opens the *last* of them (`MagicArchive.ReadChosenMember`).
- `main`, `load_registry` and `save_registry` use `DIST_DIR` and
  `REGISTRY_PATH`, which the script never defines. The model binds them to
  `MAGIC_DIST_DIR` and `MAGIC_REGISTRY_PATH`.

## Model

| member | source | states |
|---|---|---|
| `Ascii.StripLeft` | scripts/update_registry.py:55 | the left half of `str.strip`: the result is a suffix of the text, everything removed is whitespace, and the result does not start with whitespace |
| `Ascii.StripRight` | scripts/update_registry.py:55 | the right half of `str.strip`: the result is a prefix, everything removed is whitespace, and the result does not end with whitespace |
| `Ascii.StripEmptyIffBlank` | scripts/update_registry.py:55-58 | the stripped content is empty exactly when every character of the file is whitespace |
| `MagicFilename.Stem` | scripts/update_registry.py:21 | `\.magic$` matches exactly when the name ends with `.magic`, or with `.magic` and a newline, and gives back what precedes it |
| `MagicFilename.FirstUnderscore` | scripts/update_registry.py:21 | `[^_]+_` ends at the first underscore: the index found holds `_` and no earlier one does; there is none only when the text has no underscore |
| `MagicFilename.ParseFileName` | scripts/update_registry.py:21 | on a match the name is non-empty and underscore-free, the build id is non-empty ASCII alphanumeric, and the file name is exactly `name_buildid.magic` (with at most a final newline) |
| `MagicFilename.ParseFileNameRoundTrip` | scripts/update_registry.py:96-101 | every name built from a valid name and build id is accepted and its groups give back exactly those two parts, with or without a final newline |
| `BuildType.ParseBuildType` | scripts/update_registry.py:30-34 | `parse_build_type` is total and always answers one of the six channels "stable", "rc", "beta", "alpha", "debug", "unknown"; which one is stated by `BuildType.ParseBuildTypeByLastChar` |
| `BuildType.ParseBuildTypeByLastChar` | scripts/update_registry.py:30-34 | the channel depends only on the last character, in either case (`A`/`a` stable, `B`/`b` rc, `C`/`c` beta, `D`/`d` alpha, `F`/`f` debug); an empty id or any other character gives "unknown" |
| `MagicArchive.IsMetadataNameIgnoresCase` | scripts/update_registry.py:40 | the metadata-name test ignores letter case: two names that agree once lower-cased are both metadata names or neither is |
| `MagicArchive.FirstMetadataIndex` | scripts/update_registry.py:39-43 | the loop stops at the first member whose lower-cased name ends with "metadata.json"; it finds none exactly when no member name does |
| `MagicArchive.LastIndexNamed` | scripts/update_registry.py:46 | `z.open(name)` reads the last member with that name: it carries the name and no later member does |
| `MagicArchive.ReadModelInfos` | scripts/update_registry.py:36-49 | `read_model_infos_from_magic`: a success comes only from an archive that opens and is a decoded document; its full outcome is stated by `MagicArchive.ReadModelInfosSpec` and `MagicArchive.ReadChosenMember` |
| `MagicArchive.ReadModelInfosSpec` | scripts/update_registry.py:36-49 | the read fails with "bad archive" exactly when the archive cannot be opened, and with "no metadata" exactly when no member is named like "*metadata.json"; a successful read returns the decoded document of the last member that has the first metadata name |
| `MagicArchive.ReadChosenMember` | scripts/update_registry.py:39-49 | for every archive with a metadata name: with `i` the first metadata member and `k` the last member carrying its name, the read yields member `k`'s document, or "bad metadata" exactly when that member does not decode |
| `MagicArchive.DistinctNamesReadFirstMetadata` | scripts/update_registry.py:39-47 | with distinct member names the document read is the first metadata member's, or a decoding failure |
| `MagicArchive.SingleMetadataMember` | scripts/update_registry.py:36-49 | an archive holding only `metadata.json` yields that member's document |
| `RegistryEntries.Upserted` | scripts/update_registry.py:75-83 | `upsert_model` on the list: the result has the old length or one more, and holds the new entry; which positions change is stated by `RegistryEntries.UpsertReplacesFirstMatch` and `RegistryEntries.UpsertAppendsWhenAbsent` |
| `RegistryEntries.UpsertReplacesFirstMatch` | scripts/update_registry.py:77-81 | when position `i` is the first entry with the new entry's `(name, version)`, the upsert overwrites exactly that position; the length and every other position stay |
| `RegistryEntries.UpsertAppendsWhenAbsent` | scripts/update_registry.py:82-83 | without an entry of the same key the new entry is appended at the end |
| `RegistryEntries.UpsertKeys` | scripts/update_registry.py:75-83 | after an upsert the key set is the old one plus the new key, the new entry is present, every entry with another key is kept, and nothing else appears |
| `RegistryEntries.UpsertPreservesUniqueKeys` | scripts/update_registry.py:75-83 | when keys were unique before an upsert they are unique after |
| `RegistryEntries.UpsertIdempotent` | scripts/update_registry.py:75-83 | upserting the same entry twice gives the same list as upserting it once |
| `RegistryEntries.Pruned` | scripts/update_registry.py:147 | the prune's comprehension never lengthens the list; which entries survive, and in which order, is stated by `RegistryEntries.PrunedMembers` and `RegistryEntries.PrunedDistributes` |
| `RegistryEntries.PrunedMembers` | scripts/update_registry.py:147 | an entry survives the prune exactly when it was present and its key is kept; the surviving keys are the old keys intersected with the kept ones |
| `RegistryEntries.PrunedAllKept` | scripts/update_registry.py:147 | a prune that keeps every entry's key leaves the list as it is |
| `RegistryEntries.PrunedNoneKept` | scripts/update_registry.py:147 | a prune that keeps no entry's key empties the list |
| `RegistryEntries.PrunedDistributes` | scripts/update_registry.py:147 | survivors keep their order: pruning a concatenation prunes each part |
| `RegistryEntries.PrunePreservesUniqueKeys` | scripts/update_registry.py:147 | the prune keeps keys unique |
| `RegistryOrder.KeyLessIsStrictTotalOrder` | scripts/update_registry.py:71 | Python's `<` on `(name, version)` string pairs is irreflexive, transitive and total |
| `RegistryOrder.SortByKey` | scripts/update_registry.py:71 | the sort returns a permutation of the list (same multiset) |
| `RegistryOrder.SortByKeySorted` | scripts/update_registry.py:71 | the sorted list is ascending by `(m.get("name", ""), m.get("version", ""))` |
| `RegistryOrder.SortByKeyStable` | scripts/update_registry.py:71 | the sort is stable: the entries with any given sort key keep their relative order |
| `RegistryOrder.SortByKeyOfSorted` | scripts/update_registry.py:71 | an already ascending list is left unchanged |
| `RegistryOrder.SortByKeyPreservesUniqueKeys` | scripts/update_registry.py:71 | sorting keeps keys unique |
| `RegistryRerun.FirstWithUpserted` | scripts/update_registry.py:75-83 | an upsert makes its entry the first one with its key and leaves the first entry of every other key alone |
| `RegistryRerun.UpsertAllMembers` | scripts/update_registry.py:95-143 | every entry after a run's upserts was there before or was upserted |
| `RegistryRerun.FirstWithUpsertAll` | scripts/update_registry.py:95-143 | after a run's upserts, the first entry with a key is the last entry upserted with it, or the old first entry when none was |
| `RegistryRerun.UpsertAllShape` | scripts/update_registry.py:95-143 | position by position: old positions keep their keys; the first old position of each upserted key holds the last entry upserted with it and other old positions are unchanged; each new position holds a key the list did not have |
| `RegistryRerun.FirstWithPruned` | scripts/update_registry.py:147 | the prune keeps the first entry of every kept key and drops the others |
| `RegistryRerun.FirstWithSortByKey` | scripts/update_registry.py:71 | the sort never moves an entry ahead of an earlier entry with the same key |
| `RegistryRerun.RerunKeepsRegistry` | scripts/update_registry.py:143-147 | upserting and pruning leave a registry unchanged when its first entry for each upserted key is the last one upserted, all its keys are kept, and every kept upserted key is already present |
| `RegistryRerun.RewriteIsIdempotent` | scripts/update_registry.py:143-149 | applying the upserts, the prune and the sort to the registry they produced gives it back |
| `RegistryStore.LoadRegistry` | scripts/update_registry.py:51-67 | `load_registry` gives either an empty list or exactly the list the stored file decodes to; when each applies is stated by `RegistryStore.LoadRegistryStartsFresh` |
| `RegistryStore.LoadRegistryStartsFresh` | scripts/update_registry.py:51-67 | the stored list is used only when the file exists, holds a non-whitespace character and decodes; a missing, unreadable, blank or invalid file gives an empty registry |
| `RegistryStore.Registry.constructor` | scripts/update_registry.py:91 | the in-memory registry starts with the loaded list |
| `RegistryStore.Registry.Upsert` | scripts/update_registry.py:75-83 | the loop with its `replaced` flag leaves the list equal to the upsert function's result (first match replaced, or appended) |
| `RegistryStore.Registry.Prune` | scripts/update_registry.py:147 | the prune succeeds exactly when every key can be hashed; then the list becomes the pruned list, otherwise it is unchanged |
| `RegistryStore.Registry.Save` | scripts/update_registry.py:69-73 | the sort succeeds exactly when every present name and version is a string; then the list becomes its stable sort, otherwise it is unchanged |
| `CatalogEntry.DownloadUrl` | scripts/update_registry.py:117-123 | the download URL, from the development server or the raw-content host; its shape is stated by `CatalogEntry.DownloadUrlShape` |
| `CatalogEntry.DownloadUrlShape` | scripts/update_registry.py:117-122 | every URL ends with `/magic/upload/<file name>`; it starts with `http://` exactly when a development server is configured, and otherwise with `https://raw.githubusercontent.com/` |
| `CatalogEntry.ResolveVersion` | scripts/update_registry.py:107 | `infos.get("version", "unknown")`; its relation to the warning is stated by `CatalogEntry.VersionMismatchNeverWarned` |
| `CatalogEntry.VersionMismatchNeverWarned` | scripts/update_registry.py:107-112 | NaN aside (not modelled, see "## Left out"), the version-mismatch warning can never fire: a truthy `version` in the metadata is the resolved version |
| `CatalogEntry.CompatibleVersions` | scripts/update_registry.py:125-127 | the stored compatible versions are never a bare string; which value is chosen is stated by `CatalogEntry.CompatibleVersionsNormalised` |
| `CatalogEntry.CompatibleVersionsNormalised` | scripts/update_registry.py:125-127 | the first truthy value of `compatible_versions` or `compat` is used; a string becomes a one-element list, any other value is kept, and neither gives `[]` |
| `CatalogEntry.BuildEntry` | scripts/update_registry.py:129-141 | the entry dict; its key is stated by `CatalogEntry.BuildEntryKey`, its compatible versions by `CatalogEntry.CompatibleVersionsNormalised`, its fields for a concrete file by `UpdateRegistry.ExampleArtifactAccepted` |
| `CatalogEntry.BuildEntryKey` | scripts/update_registry.py:129-141 | the entry's key is (metadata name, or the file's name when there is none; resolved version); it equals the file's own key exactly when the metadata has no name or the same one |
| `UpdateRegistry.ProcessFile` | scripts/update_registry.py:96-141 | one pass of the loop body, returning the key-set pair and the entry to upsert; its properties are stated by `UpdateRegistry.ProcessFileOutcome`, `UpdateRegistry.AcceptedArtifact` and `UpdateRegistry.FileWithoutMetadataIsSkipped` |
| `UpdateRegistry.ProcessFileOutcome` | scripts/update_registry.py:96-109 | a name the pattern rejects is skipped; an accepted file's key pairs the logical name from its file name with a hashable version |
| `UpdateRegistry.Scan` | scripts/update_registry.py:95-144 | the loop of `main`: when it completes, the key set has only grown and the list has not shrunk; what it computes is stated by `UpdateRegistry.ScanUpsertsAccepted` and `UpdateRegistry.ScanSeenKeys` |
| `UpdateRegistry.RunSpec` | scripts/update_registry.py:85-151 | the outcome of one run of `main`; proved equal to `UpdateRegistry.Run`, with its properties stated by the `UpdateRegistry.Run*` lemmas below |
| `UpdateRegistry.RunStepsClosedForm` | scripts/update_registry.py:91-149 | a run whose loop completes writes the loaded list with the accepted entries upserted in file order, pruned to the accepted keys and sorted, unless a key cannot be hashed or compared |
| `UpdateRegistry.Run` | scripts/update_registry.py:85-151 | the step-by-step run (loop over files, in-place upserts, key set, prune, save) produces exactly the outcome of the folded specification |
| `UpdateRegistry.AcceptedKeys` | scripts/update_registry.py:109 | the key set built by the loop holds exactly the `(file name, version)` keys of the accepted files |
| `UpdateRegistry.ScanCompletesAlike` | scripts/update_registry.py:95-144 | whether the loop runs to its end depends on the files alone, not on the registry loaded |
| `UpdateRegistry.ScanUpsertsAccepted` | scripts/update_registry.py:95-144 | a completed loop has upserted the accepted files' entries in file order |
| `UpdateRegistry.ScanSeenKeys` | scripts/update_registry.py:95-144 | a completed loop has added exactly the accepted keys to the key set and keeps the entries' keys unique when they were |
| `UpdateRegistry.ScanKeepsEntry` | scripts/update_registry.py:95-144 | an entry of the loaded registry survives the loop when no accepted file's entry has its key |
| `UpdateRegistry.ScanStoresEntry` | scripts/update_registry.py:95-144 | the entry of an accepted file is in the registry after the loop when no later accepted file's entry has its key |
| `UpdateRegistry.RunNothingToDoIffNoDirectory` | scripts/update_registry.py:86-88 | nothing is read or written exactly when the upload directory does not exist |
| `UpdateRegistry.RunWrittenRegistry` | scripts/update_registry.py:146-149 | a written registry is ascending, every entry's key is the `(file name, version)` of an accepted file, and keys stay unique when the loaded ones were |
| `UpdateRegistry.RunWritesEntry` | scripts/update_registry.py:143-149 | an accepted file's entry is written when its key is its file's own and no later accepted file's entry has the same key |
| `UpdateRegistry.RunWithoutFilesEmptiesRegistry` | scripts/update_registry.py:146-149 | with the directory present and no files, the written registry is empty, or the run fails on an unhashable stored key |
| `UpdateRegistry.FileWithoutMetadataIsSkipped` | scripts/update_registry.py:102-106 | an archive without a "*metadata.json" member is skipped and leaves the registry and the key set unchanged |
| `UpdateRegistry.AcceptedArtifact` | scripts/update_registry.py:96-141 | a well-named file whose archive holds one `metadata.json` with a hashable version is accepted under `(name, version)` with the entry built from its metadata |
| `UpdateRegistry.ExampleArtifactAccepted` | scripts/update_registry.py:96-141 | `mymodel_X7B.magic` with metadata `{"version": "2.1"}` is accepted under ("mymodel", "2.1"), with build id "X7B", channel "rc" and name "mymodel" |
| `UpdateRegistry.RenamedArtifactExample` | scripts/update_registry.py:109-130 | `foo_1A.magic` naming itself "Foo" in its metadata is accepted under the file key ("foo", "1") but stored under ("Foo", "1"), a hashable key |
| `UpdateRegistry.SoleArtifactIsWritten` | scripts/update_registry.py:143-149 | a run over one accepted file whose entry carries its file key and string name and version, on a missing catalog, writes a catalog holding exactly that entry |
| `UpdateRegistry.ExampleArtifactIsWritten` | scripts/update_registry.py:96-149 | `mymodel_X7B.magic` alone, on a missing catalog, is written as the catalog's only entry |
| `UpdateRegistry.RenamedArtifactIsPruned` | scripts/update_registry.py:146-147 | a run over a single artifact whose metadata gives it another name, on a missing catalog, writes an empty catalog |
| `UpdateRegistry.SoleRenamedFileIsPruned` | scripts/update_registry.py:146-147 | a run over one accepted file whose entry key differs from its file key, on a missing catalog, writes an empty catalog |
| `UpdateRegistry.RunIsIdempotent` | scripts/update_registry.py:85-151 | running again over the same files, with the catalog file holding non-blank text that decodes to what the first run wrote, writes the same catalog |

## Left out

- `sha256_file` (the digest): the SHA-256 hex digest of each file is an input string.
- Zip container parsing, UTF-8 decoding and `json.loads`: an archive is the list of its members in `namelist()` order, and each member carries the outcome of decoding it.
- Reading the catalog file: it arrives as missing, unreadable, or as its text plus the `"models"` list its JSON decodes to. A document without a `"models"` list of objects, which makes the script raise, is not modelled. Top-level keys other than `"models"` are not carried through.
- Writing the catalog: `mkdir`, `json.dump` and its formatting are not modelled. `Written(models)` is the list the file receives.
- Filesystem calls: `exists`, `glob`, `is_file` and `stat` become the `distExists` flag and the file records. Their order is the order `glob` yields.
- Environment reads: owner, repository, branch, development server IP and port arrive as a `Config`. A `GITHUB_REPOSITORY` value without a `/` (an `IndexError` at import) is not modelled.
- `datetime.utcnow()`: the current date is the `today` input.
- `print` logging and the process exit code: a run that raises is the `Crashed` outcome.
- Python's cross-type equality (`True == 1 == 1.0`) in key comparisons and set lookups is not modelled; JSON booleans and numbers are distinct values.
- `CatalogEntry.VersionMismatchNeverWarned`: holds for the JSON values modelled, which leave out NaN. `json.loads` accepts NaN, and with `{"version": NaN}` the version differs from itself, so the warning at line 111 does print.
- `str.upper`/`str.lower` are modelled on ASCII letters only. Build ids are ASCII by the file-name pattern, and no other character lower-cases into the text "metadata.json".
- `RegistryStore.Registry.Save`: reports failure whenever some present name or version is not a string. Python raises only when the sort actually compares two incomparable keys (never for a single entry, and numbers compare with numbers).
- `RegistryOrder.SortByKey`: an insertion sort stands for Python's timsort. The properties proved (permutation, ascending, stable) are the ones Python's sort guarantees.
