/** The video-id derivation both handlers use:
    `url.split("v=")[-1].split("&")[0]`. */
module VideoId {
  import opened Text

  /** Text after the last `v=`, cut before the first `&`. */
  function VideoId(url: string): string {
    Split(Last(Split(url, "v=")), "&")[0]
  }

  /** The id holds no `&` and no `v=`. */
  lemma VideoIdClean(url: string)
    ensures '&' !in VideoId(url)
    ensures !Contains(VideoId(url), "v=")
  {
    var after := Last(Split(url, "v="));
    var id := VideoId(url);
    SplitPartsClean(url, "v=");
    assert !Contains(after, "v=");
    SplitPartsClean(after, "&");
    SplitFirst(after, "&");
    ContainsSingle(id, '&');
    NotContainsPrefix(after, id, "v=");
  }

  /** Deriving the id of an id changes nothing. */
  lemma VideoIdIdempotent(url: string)
    ensures VideoId(VideoId(url)) == VideoId(url)
  {
    var id := VideoId(url);
    VideoIdClean(url);
    SplitWithoutSeparator(id, "v=");
    ContainsSingle(id, '&');
    SplitWithoutSeparator(id, "&");
  }

  /** Where the id sits in the URL: it starts right after the last `v=` (or at
      the start when there is none) and runs up to the first `&` after that
      point (or to the end). */
  lemma VideoIdLocation(url: string)
    ensures var id := VideoId(url);
      exists start ::
        && 0 <= start <= |url| - |id|
        && url[start..start + |id|] == id
        && !Contains(url[start..], "v=")
        && (start == 0 || (start >= 2 && url[start - 2..start] == "v="))
        && (start + |id| == |url| || url[start + |id|] == '&')
  {
    var parts := Split(url, "v=");
    var after := Last(parts);
    var id := VideoId(url);
    SplitLast(url, "v=");
    SplitPartsClean(url, "v=");
    assert !Contains(after, "v=");
    SplitFirst(after, "&");
    var start := |url| - |after|;
    PrefixOfSuffix(url, after, id);
    if |parts| > 1 {
      assert url[start - 2..start] == url[..start][start - 2..];
    }
  }

  /** A prefix `id` of the suffix `after` of `url` sits at the position where
      `after` starts, followed by whatever follows it in `after`. */
  lemma PrefixOfSuffix(url: string, after: string, id: string)
    requires EndsWith(url, after)
    requires id <= after
    requires |after| == |id| || StartsWith(after[|id|..], "&")
    ensures var start := |url| - |after|;
      && url[start..] == after
      && url[start..start + |id|] == id
      && (start + |id| == |url| || url[start + |id|] == '&')
  {
    var start := |url| - |after|;
    assert url[start..start + |id|] == after[..|id|];
    if start + |id| < |url| {
      assert url[start + |id|] == after[|id|..][0];
    }
  }
}
