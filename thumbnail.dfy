/** `PdfThumbnailGenerator`: the first page saved as a PNG in the cache directory. */
module Thumbnail {
  import opened Wrappers
  import Text

  /** The characters the file name keeps: `[a-zA-Z0-9]`. */
  predicate IsAsciiAlphanumeric(c: char) {
    'a' <= c <= 'z' || 'A' <= c <= 'Z' || '0' <= c <= '9'
  }

  /** `replace(Regex("[^a-zA-Z0-9]"), "_")`: every other character becomes `_`. */
  function Sanitize(s: string): (r: string)
    ensures |r| == |s|
    ensures forall i :: 0 <= i < |s| ==> (IsAsciiAlphanumeric(s[i]) ==> r[i] == s[i]) && (!IsAsciiAlphanumeric(s[i]) ==> r[i] == '_')
  {
    seq(|s|, i requires 0 <= i < |s| => if IsAsciiAlphanumeric(s[i]) then s[i] else '_')
  }

  /** The file name: `thumb_`, the sanitised last path segment (`null` when there is none), `.png`. */
  function ThumbnailName(lastPathSegment: Option<string>): (n: string)
    ensures |n| >= 10 && n[..6] == "thumb_" && n[|n| - 4..] == ".png"
    ensures forall i :: 6 <= i < |n| - 4 ==> IsAsciiAlphanumeric(n[i]) || n[i] == '_'
  {
    var middle := if lastPathSegment.Some? then Sanitize(lastPathSegment.value) else "null";
    var n := "thumb_" + middle + ".png";
    assert forall i :: 6 <= i < |n| - 4 ==> n[i] == middle[i - 6];
    n
  }

  /** A sanitised name holds only ASCII letters, digits and `_`, and sanitising it again changes nothing. */
  lemma SanitizeClean(s: string)
    ensures forall i :: 0 <= i < |Sanitize(s)| ==> IsAsciiAlphanumeric(Sanitize(s)[i]) || Sanitize(s)[i] == '_'
    ensures Sanitize(Sanitize(s)) == Sanitize(s)
  {
  }

  /** A segment of letters and digits only is kept as it is. */
  lemma SanitizeKeepsAlphanumeric(s: string)
    requires forall i :: 0 <= i < |s| ==> IsAsciiAlphanumeric(s[i])
    ensures Sanitize(s) == s
  {
  }

  /** The name is `thumb_` + a name of the segment's length + `.png`; no segment gives `thumb_null.png`. */
  lemma ThumbnailNameShape(lastPathSegment: Option<string>)
    ensures var n := ThumbnailName(lastPathSegment);
      Text.StartsWith(n, "thumb_") && |n| >= 10 && n[|n| - 4..] == ".png"
    ensures lastPathSegment.Some? ==> |ThumbnailName(lastPathSegment)| == |lastPathSegment.value| + 10
    ensures lastPathSegment.None? ==> ThumbnailName(lastPathSegment) == "thumb_null.png"
  {
    var n := ThumbnailName(lastPathSegment);
    assert n[..6] == "thumb_";
  }

  /** How far `generateThumbnail` gets: no descriptor, a render failure, a save failure, or saved. */
  datatype Outcome = NoDescriptor | RenderFails | SaveFails | Saved

  /** `generateThumbnail`: the absolute path of the saved PNG, or `null` on any failure. */
  function GenerateThumbnail(cacheDir: string, lastPathSegment: Option<string>, outcome: Outcome): (r: Option<string>)
    ensures r.Some? <==> outcome == Saved
    ensures r.Some? ==> r.value == cacheDir + "/" + ThumbnailName(lastPathSegment)
  {
    if outcome == Saved then Some(cacheDir + "/" + ThumbnailName(lastPathSegment)) else None
  }
}
