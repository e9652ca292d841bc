/** Display truncation: long strings are shown as a prefix followed by "...".
    The preview of the encoded content keeps 100 characters; the URL shown
    in the open-link prompt would keep 50 (the source computes it and then
    shows the full string instead). */
module Display {
  import opened Colour

  const PreviewLimit := 100
  const UrlDisplayLimit := 50
  const Ellipsis := "..."

  /** Python's `s[:n]`, which never fails: a string shorter than `n` is kept whole. */
  function Prefix(s: string, n: nat): (p: string)
    ensures |p| == Min(|s|, n) && p == s[..|p|]
  {
    if |s| <= n then s else s[..n]
  }

  /** The shape of the URL display: `if len(s) > limit: s = s[:limit] + "..."`. */
  function Truncate(s: string, limit: nat): (r: string)
    ensures |r| == if |s| > limit then limit + 3 else |s|
    ensures |r| <= limit + 3
    ensures r[..Min(|s|, limit)] == s[..Min(|s|, limit)]
    ensures |s| > limit ==> r[limit..] == Ellipsis
    ensures |s| <= limit ==> r == s
  {
    if |s| > limit then s[..limit] + Ellipsis else s
  }

  /** The shape of the preview: `s[:limit] + ("..." if len(s) > limit else "")`. */
  function PreviewContent(s: string): (r: string)
    ensures |r| == if |s| > PreviewLimit then PreviewLimit + 3 else |s|
    ensures r[..Min(|s|, PreviewLimit)] == s[..Min(|s|, PreviewLimit)]
  {
    Prefix(s, PreviewLimit) + (if |s| > PreviewLimit then Ellipsis else "")
  }

  function UrlDisplay(s: string): string
  {
    Truncate(s, UrlDisplayLimit)
  }

  /** The two spellings in the source agree: the preview is the truncation at
      100 characters. */
  lemma PreviewIsTruncate(s: string)
    ensures PreviewContent(s) == Truncate(s, PreviewLimit)
    ensures |PreviewContent(s)| <= 103
    ensures |s| > 100 ==> PreviewContent(s) == s[..100] + "..."
    ensures |s| <= 100 ==> PreviewContent(s) == s
  {
  }

  /** The URL display is at most 53 characters and starts with the first 50
      characters of the URL (or all of it). */
  lemma UrlDisplayShape(s: string)
    ensures |UrlDisplay(s)| <= 53
    ensures |s| > 50 ==> UrlDisplay(s) == s[..50] + "..."
    ensures |s| <= 50 ==> UrlDisplay(s) == s
  {
  }

  /** Truncating what was already truncated changes nothing. */
  lemma TruncateIdempotent(s: string, limit: nat)
    ensures Truncate(Truncate(s, limit), limit) == Truncate(s, limit)
  {
  }

  /** Truncation cannot always be told apart from the original: a string of
      exactly `limit + 3` characters ending in "..." is its own truncation. */
  lemma TruncationCanBeInvisible(s: string, limit: nat)
    requires |s| == limit + 3 && s[limit..] == Ellipsis
    ensures Truncate(s, limit) == s
  {
  }
}
