/** The sitemap (app/sitemap.ts): the home page, then one entry per
    document slug. The modification date is the time of the request and is
    not modelled. */
module Sitemap {
  import opened Text
  import Navigation

  datatype ChangeFrequency = Daily | Weekly

  datatype SitemapEntry = SitemapEntry(url: string, changeFrequency: ChangeFrequency, priority: real)

  /** The entry for one document page. */
  function DocEntry(baseUrl: string, slug: seq<string>): SitemapEntry {
    SitemapEntry(baseUrl + "/learn/" + Join(slug, "/"), Weekly, 0.8)
  }

  /** `sitemap`, given the base URL and the slugs of all documents. */
  function Sitemap(baseUrl: string, slugs: seq<seq<string>>): (entries: seq<SitemapEntry>)
    ensures |entries| == 1 + |slugs|
    ensures entries[0] == SitemapEntry(baseUrl, Daily, 1.0)
    ensures forall i :: 0 <= i < |slugs| ==>
              entries[i + 1].url == baseUrl + "/learn/" + Join(slugs[i], "/")
              && entries[i + 1].changeFrequency == Weekly && entries[i + 1].priority == 0.8
  {
    [SitemapEntry(baseUrl, Daily, 1.0)] + seq(|slugs|, i requires 0 <= i < |slugs| => DocEntry(baseUrl, slugs[i]))
  }

  /** A document's sitemap URL is the base URL followed by the page's link in
      the navigation. */
  lemma SitemapMatchesNavigation(baseUrl: string, slugs: seq<seq<string>>, i: nat)
    requires i < |slugs|
    ensures Sitemap(baseUrl, slugs)[i + 1].url == baseUrl + Navigation.Href(slugs[i])
  {
  }

  /** Distinct slugs with non-empty, slash-free segments give distinct URLs, so
      no page is listed twice. */
  lemma SitemapUrlsDistinct(baseUrl: string, slugs: seq<seq<string>>)
    requires forall i :: 0 <= i < |slugs| ==> |slugs[i]| >= 1 && forall k :: 0 <= k < |slugs[i]| ==> '/' !in slugs[i][k]
    requires forall i, j :: 0 <= i < j < |slugs| ==> slugs[i] != slugs[j]
    ensures var entries := Sitemap(baseUrl, slugs);
            forall i, j :: 0 <= i < j < |entries| ==> entries[i].url != entries[j].url
  {
    var entries := Sitemap(baseUrl, slugs);
    forall i, j | 0 <= i < j < |entries| ensures entries[i].url != entries[j].url {
      if i == 0 {
        assert |entries[j].url| > |baseUrl|;
      } else {
        DocUrlsDiffer(baseUrl, slugs[i - 1], slugs[j - 1]);
      }
    }
  }

  /** Two different slugs with non-empty, slash-free segments have different URLs. */
  lemma DocUrlsDiffer(baseUrl: string, x: seq<string>, y: seq<string>)
    requires |x| >= 1 && forall k :: 0 <= k < |x| ==> '/' !in x[k]
    requires |y| >= 1 && forall k :: 0 <= k < |y| ==> '/' !in y[k]
    requires x != y
    ensures DocEntry(baseUrl, x).url != DocEntry(baseUrl, y).url
  {
    var prefix := baseUrl + "/learn/";
    var a, b := Join(x, "/"), Join(y, "/");
    if prefix + a == prefix + b {
      assert a == (prefix + a)[|prefix|..];
      assert b == (prefix + b)[|prefix|..];
      SplitJoin(x, '/');
      SplitJoin(y, '/');
      assert false;
    }
  }
}
