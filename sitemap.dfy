/** The post-crawl pass of `main`: every line of the discovery log is
    normalised into a set, the set is sorted into the sitemap, and the
    product URLs are picked out of the sitemap in order. */
module Sitemap {
  import opened Text
  import opened Order
  import opened Urls

  /** The normalisation loop: one set entry per distinct normalised line. */
  method NormalizeLines(lines: seq<string>) returns (urls: set<string>)
    ensures forall x :: x in urls <==> exists i :: 0 <= i < |lines| && Normalize(lines[i]) == x
  {
    urls := {};
    for i := 0 to |lines|
      invariant forall x :: x in urls <==> exists k :: 0 <= k < i && Normalize(lines[k]) == x
    {
      urls := urls + {Normalize(lines[i])};
    }
  }

  /** The rewritten sitemap: sorted, no entry twice, and holding exactly the
      normalisations of the log lines. */
  method BuildSitemap(lines: seq<string>) returns (sitemap: seq<string>)
    ensures Increasing(sitemap)
    ensures forall x :: x in sitemap <==> exists i :: 0 <= i < |lines| && Normalize(lines[i]) == x
  {
    var urls := NormalizeLines(lines);
    sitemap := SortSet(urls);
  }

  /** The reported number of unique URLs is the number of distinct
      normalised forms among the log lines. */
  lemma SitemapSize(lines: seq<string>, sitemap: seq<string>)
    requires Increasing(sitemap)
    requires forall x :: x in sitemap <==> exists i :: 0 <= i < |lines| && Normalize(lines[i]) == x
    ensures |sitemap| == |set i | 0 <= i < |lines| :: Normalize(lines[i])|
  {
    IncreasingDistinct(sitemap);
    DistinctCard(sitemap);
    assert (set x | x in sitemap) == (set i | 0 <= i < |lines| :: Normalize(lines[i]));
  }

  /** The log is read back with `readlines`: each URL followed by its line
      break. The break is stripped away, so the sitemap holds exactly the
      normalisations of the logged URLs. */
  lemma LogLinesNormalize(log: seq<string>, lines: seq<string>)
    requires |lines| == |log|
    requires forall i :: 0 <= i < |log| ==> lines[i] == log[i] + "\n"
    ensures forall i :: 0 <= i < |log| ==> Normalize(lines[i]) == Normalize(log[i])
  {
    forall i | 0 <= i < |log| ensures Normalize(lines[i]) == Normalize(log[i]) {
      NormalizeLine(log[i]);
    }
  }

  /** `r` is `s` with some elements left out and the rest in their order. */
  predicate IsSubsequence(r: seq<string>, s: seq<string>)
    decreases |s|
  {
    if r == [] then true
    else if s == [] then false
    else if r[0] == s[0] then IsSubsequence(r[1..], s[1..])
    else IsSubsequence(r, s[1..])
  }

  predicate IsProductUrl(url: string) {
    Contains(url, "/products/")
  }

  /** `[url for url in sorted_urls if '/products/' in url]` */
  function ProductUrls(urls: seq<string>): (r: seq<string>)
    ensures forall x :: x in r <==> x in urls && IsProductUrl(x)
    ensures |r| <= |urls|
    ensures IsSubsequence(r, urls)
    ensures Increasing(urls) ==> Increasing(r)
  {
    if urls == [] then []
    else
      var rest := ProductUrls(urls[1..]);
      assert Increasing(urls) ==> forall y :: y in rest ==> Less(urls[0], y);
      if IsProductUrl(urls[0]) then [urls[0]] + rest else rest
  }
}
