/**
  `read_model_infos_from_magic`: find the metadata document inside an
  artifact archive. The archive's container format and the JSON parser are
  outside the model: an archive is the list of its members in the order
  `namelist()` gives them, each with the outcome of decoding its content.
*/
module MagicArchive {
  import opened Wrappers
  import opened Json
  import opened Ascii

  /** The outcome of `json.loads(z.open(name).read().decode("utf-8"))`. */
  datatype Payload =
    | Document(fields: Object)   // a JSON object
    | NotAnObject                // valid JSON of another kind (a list, a number, ...)
    | Undecodable                // not UTF-8, not JSON, or unreadable member

  datatype Member = Member(name: string, payload: Payload)

  datatype Archive =
    | Corrupt                    // `zipfile.ZipFile` cannot open it
    | Zip(members: seq<Member>)

  /** Why a file is skipped (the exception `main` catches and logs). */
  datatype ReadError = BadArchive | NoMetadata | BadMetadata

  const METADATA_SUFFIX: string := "metadata.json"

  /** `name.lower().endswith("metadata.json")`. */
  predicate IsMetadataName(name: string)
  {
    EndsWith(LowerString(name), METADATA_SUFFIX)
  }

  /** Whether a name is a metadata name does not depend on the case of its
      letters: two names that agree once lower-cased are both metadata names
      or neither is. */
  lemma IsMetadataNameIgnoresCase(s: string, t: string)
    requires |s| == |t| && forall i :: 0 <= i < |s| ==> Lower(s[i]) == Lower(t[i])
    ensures IsMetadataName(s) == IsMetadataName(t)
  {
    assert LowerString(s) == LowerString(t);
  }

  /** The loop over `z.namelist()` that stops at the first metadata name. */
  function FirstMetadataIndex(members: seq<Member>): (r: Option<nat>)
    ensures r.Some? ==> r.value < |members| && IsMetadataName(members[r.value].name)
    ensures r.Some? ==> forall j :: 0 <= j < r.value ==> !IsMetadataName(members[j].name)
    ensures r.None? ==> forall j :: 0 <= j < |members| ==> !IsMetadataName(members[j].name)
  {
    if members == [] then None
    else if IsMetadataName(members[0].name) then Some(0)
    else match FirstMetadataIndex(members[1..])
      case None => None
      case Some(k) => Some(k + 1)
  }

  /** `z.open(name)` resolves a name through a table in which a later member
      overwrites an earlier one of the same name: it reads the last member
      carrying that name. */
  function LastIndexNamed(members: seq<Member>, name: string): (r: Option<nat>)
    ensures r.Some? ==> r.value < |members| && members[r.value].name == name
    ensures r.Some? ==> forall j :: r.value < j < |members| ==> members[j].name != name
    ensures r.None? ==> forall j :: 0 <= j < |members| ==> members[j].name != name
  {
    if members == [] then None
    else if members[|members| - 1].name == name then Some(|members| - 1)
    else LastIndexNamed(members[..|members| - 1], name)
  }

  /** `read_model_infos_from_magic`: the decoded metadata document, or the
      reason the file is skipped. */
  function ReadModelInfos(archive: Archive): (r: Result<Payload, ReadError>)
    ensures r.Success? ==> archive.Zip? && !r.value.Undecodable?
  {
    match archive
    case Corrupt => Failure(BadArchive)
    case Zip(members) =>
      match FirstMetadataIndex(members)
      case None => Failure(NoMetadata)
      case Some(i) =>
        match LastIndexNamed(members, members[i].name)
        case None => Failure(NoMetadata)    // unreachable: member i carries the name
        case Some(k) =>
          if members[k].payload.Undecodable? then Failure(BadMetadata) else Success(members[k].payload)
  }

  /** What a successful read returns: the content of the last member named
      like the first metadata name, which decoded; and the read fails with
      NoMetadata exactly when no member name ends with "metadata.json" in any case. */
  lemma ReadModelInfosSpec(archive: Archive)
    ensures ReadModelInfos(archive) == Failure(BadArchive) <==> archive.Corrupt?
    ensures ReadModelInfos(archive) == Failure(NoMetadata) <==>
      archive.Zip? && forall j :: 0 <= j < |archive.members| ==> !IsMetadataName(archive.members[j].name)
    ensures ReadModelInfos(archive).Success? ==>
      exists i, k :: 0 <= i <= k < |archive.members|
        && IsMetadataName(archive.members[i].name)
        && (forall j :: 0 <= j < i ==> !IsMetadataName(archive.members[j].name))
        && archive.members[k].name == archive.members[i].name
        && (forall j :: k < j < |archive.members| ==> archive.members[j].name != archive.members[i].name)
        && ReadModelInfos(archive).value == archive.members[k].payload
        && !archive.members[k].payload.Undecodable?
  {
  }

  /** The whole outcome of reading an archive that holds a metadata name: with
      `i` the first member whose name is a metadata name and `k` the last member
      carrying that same name, the read yields member `k`'s document, or fails
      with BadMetadata when that member does not decode. */
  lemma ReadChosenMember(members: seq<Member>, i: nat, k: nat)
    requires i <= k < |members| && IsMetadataName(members[i].name)
    requires forall j :: 0 <= j < i ==> !IsMetadataName(members[j].name)
    requires members[k].name == members[i].name
    requires forall j :: k < j < |members| ==> members[j].name != members[i].name
    ensures ReadModelInfos(Zip(members)) ==
      if members[k].payload.Undecodable? then Failure(BadMetadata) else Success(members[k].payload)
  {
    var first := FirstMetadataIndex(members);
    assert first == Some(i);
    var last := LastIndexNamed(members, members[i].name);
    assert last == Some(k);
  }

  /** When member names are distinct, the document read is the one of the
      first member whose name ends with "metadata.json". */
  lemma DistinctNamesReadFirstMetadata(members: seq<Member>, i: nat)
    requires forall a, b :: 0 <= a < b < |members| ==> members[a].name != members[b].name
    requires i < |members| && IsMetadataName(members[i].name)
    requires forall j :: 0 <= j < i ==> !IsMetadataName(members[j].name)
    ensures ReadModelInfos(Zip(members)) ==
      if members[i].payload.Undecodable? then Failure(BadMetadata) else Success(members[i].payload)
  {
    ReadChosenMember(members, i, i);
  }

  /** An archive whose only member is `metadata.json` yields that member's document. */
  lemma SingleMetadataMember(payload: Payload)
    ensures ReadModelInfos(Zip([Member(METADATA_SUFFIX, payload)])) ==
      if payload.Undecodable? then Failure(BadMetadata) else Success(payload)
  {
    LowerStringOfLowerCase(METADATA_SUFFIX);
    DistinctNamesReadFirstMetadata([Member(METADATA_SUFFIX, payload)], 0);
  }
}
