/**
  How `main` turns one artifact file into a registry entry: the version and
  name defaults, the `compatible_versions` normalisation, the `date_created`
  fallback and the download-URL rule.
*/
module CatalogEntry {
  import opened Wrappers
  import opened Json
  import opened Ascii
  import opened BuildType
  import opened RegistryEntries

  /** The environment the script reads: the owner and repository parts of
      GITHUB_REPOSITORY, DEFAULT_BRANCH, DEV_SERVER_IP and DEV_SERVER_PORT
      (None when the variable is unset). */
  datatype Config = Config(
    owner: string,
    repo: string,
    branch: string,
    devServerIp: Option<string>,
    devServerPort: Option<string>)

  /** The upload directory, `magic/upload`, as it appears in URLs. */
  const UPLOAD_PATH: string := "magic/upload"

  /** `os.environ.get("DEV_SERVER_IP")` is truthy. */
  predicate UsesDevServer(cfg: Config)
  {
    cfg.devServerIp.Some? && cfg.devServerIp.value != ""
  }

  /** The download URL of an artifact file: the development server when one
      is configured, GitHub's raw content host otherwise, followed by the
      upload path and the file name. */
  function DownloadUrl(cfg: Config, fileName: string): string
  {
    ServerRoot(cfg) + "/" + UPLOAD_PATH + "/" + fileName
  }

  /** What precedes "/magic/upload/" in the URL: `http://IP:PORT` (port 8000
      unless DEV_SERVER_PORT is set) or the repository's branch on
      raw.githubusercontent.com. */
  function ServerRoot(cfg: Config): string
  {
    if UsesDevServer(cfg) then
      var port := if cfg.devServerPort.Some? then cfg.devServerPort.value else "8000";
      "http://" + cfg.devServerIp.value + ":" + port
    else
      "https://raw.githubusercontent.com/" + cfg.owner + "/" + cfg.repo + "/" + cfg.branch
  }

  /** Every URL ends with the upload path and the file name, and its scheme
      tells which of the two hosts was chosen. */
  lemma DownloadUrlShape(cfg: Config, fileName: string)
    ensures EndsWith(DownloadUrl(cfg, fileName), "/" + UPLOAD_PATH + "/" + fileName)
    ensures UsesDevServer(cfg) <==> DownloadUrl(cfg, fileName)[..7] == "http://"
    ensures !UsesDevServer(cfg) ==>
      DownloadUrl(cfg, fileName)[..34] == "https://raw.githubusercontent.com/"
  {
    var root, tail := ServerRoot(cfg), "/" + UPLOAD_PATH + "/" + fileName;
    assert DownloadUrl(cfg, fileName) == root + tail;
    if UsesDevServer(cfg) {
      var scheme := "http://";
      assert root == scheme + root[7..];
      ConcatShape(root, tail, 7);
      ConcatShape(scheme, root[7..], 7);
    } else {
      var host := "https://raw.githubusercontent.com/";
      assert root == host + root[34..];
      ConcatShape(root, tail, 34);
      ConcatShape(host, root[34..], 34);
      assert root[4] == 's';
    }
  }

  lemma ConcatShape(head: string, tail: string, n: nat)
    requires n <= |head|
    ensures EndsWith(head + tail, tail)
    ensures (head + tail)[..n] == head[..n]
  {
    assert (head + tail)[|head|..] == tail;
  }

  /** `infos.get("version", "unknown")`. */
  function ResolveVersion(infos: Object): JsonValue
  {
    GetOr(infos, "version", JString("unknown"))
  }

  /** The condition of the version-mismatch warning,
      `infos.get("version") and infos["version"] != version`. */
  predicate VersionMismatchWarned(infos: Object)
  {
    Truthy(Get(infos, "version")) && Get(infos, "version") != ResolveVersion(infos)
  }

  /** The warning can never be printed: a truthy `version` is the resolved one.
      This holds over the modelled JSON values; a NaN version, which JSON
      numbers here cannot be, would differ from itself and print it. */
  lemma VersionMismatchNeverWarned(infos: Object)
    ensures !VersionMismatchWarned(infos)
    ensures Truthy(Get(infos, "version")) ==> ResolveVersion(infos) == infos["version"]
  {
  }

  /** `infos.get("compatible_versions") or infos.get("compat") or []`, a string
      then wrapped as a one-element list. */
  function CompatibleVersions(infos: Object): (r: JsonValue)
    ensures !r.JString?
  {
    var compat :=
      if Truthy(Get(infos, "compatible_versions")) then Get(infos, "compatible_versions")
      else if Truthy(Get(infos, "compat")) then Get(infos, "compat")
      else JArray([]);
    if compat.JString? then JArray([compat]) else compat
  }

  /** The first truthy source among `compatible_versions` and `compat` wins; a
      string becomes a one-element list, any other truthy value (a list, but
      also a number or a dict) is kept as it is, and none gives `[]`. */
  lemma CompatibleVersionsNormalised(infos: Object)
    ensures var cv, c := Get(infos, "compatible_versions"), Get(infos, "compat");
      var chosen := if Truthy(cv) then cv else c;
      CompatibleVersions(infos) ==
        if !Truthy(cv) && !Truthy(c) then JArray([])
        else if chosen.JString? then JArray([chosen])
        else chosen
  {
  }

  /** The entry dict `main` builds for one artifact file. */
  function BuildEntry(
    infos: Object, name: string, buildId: string, sizeBytes: nat, sha: string,
    downloadUrl: string, today: string): Entry
  {
    map[
      "name" := GetOr(infos, "name", JString(name)),
      "version" := ResolveVersion(infos),
      "author" := GetOr(infos, "author", JString("unknown")),
      "date_created" := if Truthy(Get(infos, "date_created")) then Get(infos, "date_created") else JString(today),
      "parameters" := GetOr(infos, "parameters", JObject(map[])),
      "compatible_versions" := CompatibleVersions(infos),
      "size_bytes" := JNumber(sizeBytes as real),
      "sha256" := JString(sha),
      "download_url" := JString(downloadUrl),
      "build_id" := JString(buildId),
      "build_type" := JString(ParseBuildType(buildId))
    ]
  }

  /** The entry's identity key: the metadata's name (the file's logical name
      when there is none) with the resolved version. It is the file's own
      `(name, version)` exactly when the metadata has no name or the same one. */
  lemma BuildEntryKey(
    infos: Object, name: string, buildId: string, sizeBytes: nat, sha: string,
    downloadUrl: string, today: string)
    ensures var e := BuildEntry(infos, name, buildId, sizeBytes, sha, downloadUrl, today);
      KeyOf(e) == (GetOr(infos, "name", JString(name)), ResolveVersion(infos))
      && (KeyOf(e) == (JString(name), ResolveVersion(infos)) <==>
          "name" !in infos || infos["name"] == JString(name))
  {
  }
}
