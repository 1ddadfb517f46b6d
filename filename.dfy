/**
  The artifact file-name pattern `^(?P<name>[^_]+)_(?P<buildid>[A-Za-z0-9]+)\.magic$`:
  a logical name without underscores, one underscore, an alphanumeric
  build identifier and the `.magic` extension.
*/
module MagicFilename {
  import opened Wrappers
  import opened Ascii

  const EXTENSION: string := ".magic"

  /** `[^_]+`: a non-empty run of characters other than the underscore. */
  predicate IsLogicalName(n: string)
  {
    |n| > 0 && forall i :: 0 <= i < |n| ==> n[i] != '_'
  }

  /** `[A-Za-z0-9]+`. */
  predicate IsBuildId(b: string)
  {
    |b| > 0 && forall i :: 0 <= i < |b| ==> IsAlnum(b[i])
  }

  /** The file name an artifact with this logical name and build id carries. */
  function ArtifactFileName(name: string, buildId: string): string
  {
    name + "_" + buildId + EXTENSION
  }

  /** What precedes `\.magic$`. Python's `$` matches at the end of the text
      and also just before a newline that ends it. */
  function Stem(s: string): (r: Option<string>)
    ensures r.Some? <==> EndsWith(s, EXTENSION) || EndsWith(s, EXTENSION + "\n")
    ensures r.Some? ==> s == r.value + EXTENSION || s == r.value + EXTENSION + "\n"
  {
    if EndsWith(s, EXTENSION) then Some(s[..|s| - |EXTENSION|])
    else if EndsWith(s, EXTENSION + "\n") then Some(s[..|s| - |EXTENSION| - 1])
    else None
  }

  /** Index of the first underscore, if any. */
  function FirstUnderscore(s: string): (r: Option<nat>)
    ensures r.Some? ==> r.value < |s| && s[r.value] == '_'
    ensures r.Some? ==> forall j :: 0 <= j < r.value ==> s[j] != '_'
    ensures r.None? ==> forall j :: 0 <= j < |s| ==> s[j] != '_'
  {
    if s == [] then None
    else if s[0] == '_' then Some(0)
    else match FirstUnderscore(s[1..])
      case None => None
      case Some(k) => Some(k + 1)
  }

  /** `FILENAME_RE.match(s)`, giving the groups `(name, buildid)` on a match.
      Since the name cannot hold an underscore, it ends at the first one. */
  function ParseFileName(s: string): (r: Option<(string, string)>)
    ensures r.Some? ==> IsLogicalName(r.value.0) && IsBuildId(r.value.1)
    ensures r.Some? ==>
      s == ArtifactFileName(r.value.0, r.value.1) || s == ArtifactFileName(r.value.0, r.value.1) + "\n"
  {
    match Stem(s)
    case None => None
    case Some(stem) =>
      match FirstUnderscore(stem)
      case None => None
      case Some(i) =>
        var name, buildId := stem[..i], stem[i + 1..];
        assert stem == name + "_" + buildId;
        if |name| > 0 && IsBuildId(buildId) then Some((name, buildId)) else None
  }

  /** Every name built from a valid logical name and build id is accepted and
      gives back exactly those two parts, with or without a trailing newline. */
  lemma ParseFileNameRoundTrip(name: string, buildId: string)
    requires IsLogicalName(name) && IsBuildId(buildId)
    ensures ParseFileName(ArtifactFileName(name, buildId)) == Some((name, buildId))
    ensures ParseFileName(ArtifactFileName(name, buildId) + "\n") == Some((name, buildId))
  {
    var stem := name + "_" + buildId;
    StemOfArtifactFileName(name, buildId);
    FirstUnderscoreAfterName(name, buildId);
    assert stem[..|name|] == name && stem[|name| + 1..] == buildId;
  }

  lemma StemOfArtifactFileName(name: string, buildId: string)
    ensures Stem(ArtifactFileName(name, buildId)) == Some(name + "_" + buildId)
    ensures Stem(ArtifactFileName(name, buildId) + "\n") == Some(name + "_" + buildId)
  {
    var stem := name + "_" + buildId;
    var f := ArtifactFileName(name, buildId);
    var g := f + "\n";
    assert f == stem + EXTENSION;
    assert f[..|f| - |EXTENSION|] == stem;
    assert g[|g| - 1] == '\n';
    assert !EndsWith(g, EXTENSION);
    assert g[..|g| - |EXTENSION| - 1] == stem;
    assert g[|g| - |EXTENSION| - 1..] == EXTENSION + "\n";
  }

  lemma {:induction false} FirstUnderscoreAfterName(name: string, rest: string)
    requires forall i :: 0 <= i < |name| ==> name[i] != '_'
    ensures FirstUnderscore(name + "_" + rest) == Some(|name|)
  {
    if name != [] {
      assert (name + "_" + rest)[1..] == name[1..] + "_" + rest;
      FirstUnderscoreAfterName(name[1..], rest);
    }
  }
}
