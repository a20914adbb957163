/**
 * What `String.split(regex)` does with the pieces its scan produces, whatever the separator:
 * the whole string when no separator occurred, otherwise the pieces with trailing empty ones
 * removed (a leading empty piece is kept).
 */
module JavaSplit {
  function DropTrailingEmpty(parts: seq<string>): (r: seq<string>)
    ensures |r| <= |parts| && r == parts[..|r|]
    ensures r == [] || r[|r| - 1] != ""
    ensures forall k :: |r| <= k < |parts| ==> parts[k] == ""
  {
    if parts == [] || parts[|parts| - 1] != "" then parts
    else DropTrailingEmpty(parts[..|parts| - 1])
  }

  /** The result of split for the pieces cut at every separator found. */
  function SplitResult(raw: seq<string>): seq<string>
  {
    if |raw| == 1 then raw else DropTrailingEmpty(raw)
  }
}
