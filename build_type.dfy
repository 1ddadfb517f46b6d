/**
  The release channel of a build: `BUILD_MAP` looked up with the upper-cased
  last character of the build identifier.
*/
module BuildType {
  import opened Ascii

  /** `BUILD_MAP.get(letter, "unknown")`. */
  function BuildMapGet(letter: char): string
  {
    match letter
    case 'A' => "stable"
    case 'B' => "rc"
    case 'C' => "beta"
    case 'D' => "alpha"
    case 'F' => "debug"
    case _ => "unknown"
  }

  /** `parse_build_type`: total, "unknown" for an empty build id. */
  function ParseBuildType(buildId: string): (r: string)
    ensures r in {"stable", "rc", "beta", "alpha", "debug", "unknown"}
  {
    if buildId != [] then BuildMapGet(Upper(buildId[|buildId| - 1])) else "unknown"
  }

  /** The channel a final character stands for, both cases spelled out. */
  function ChannelOf(last: char): string
  {
    if last in {'A', 'a'} then "stable"
    else if last in {'B', 'b'} then "rc"
    else if last in {'C', 'c'} then "beta"
    else if last in {'D', 'd'} then "alpha"
    else if last in {'F', 'f'} then "debug"
    else "unknown"
  }

  /** The classifier reads only the last character, ignores its case, and
      answers "unknown" for an empty id or any character outside A-D, F. */
  lemma ParseBuildTypeByLastChar(buildId: string)
    ensures ParseBuildType(buildId) == if buildId == [] then "unknown" else ChannelOf(buildId[|buildId| - 1])
  {
  }
}
