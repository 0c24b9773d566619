/** The site's base URL (lib/seo.ts). The two environment variables are
    passed in as optional strings; an unset and an empty variable are both
    false in the source's tests. */
module Seo {
  import opened Text

  /** The fallback for local development. */
  const LocalUrl: string := "http://localhost:3000"

  /** `.replace(/\/+$/, '')`: removes the run of `/` at the end of `s`. */
  function TrimTrailingSlashes(s: string): (r: string)
    ensures |r| <= |s| && r == s[..|r|]
    ensures forall i :: |r| <= i < |s| ==> s[i] == '/'
    ensures r == [] || r[|r| - 1] != '/'
  {
    if |s| > 0 && s[|s| - 1] == '/' then TrimTrailingSlashes(s[..|s| - 1]) else s
  }

  /** `getBaseUrl`: a non-empty site URL wins, without its trailing slashes;
      otherwise a non-empty deployment host name, behind `https://`;
      otherwise the local URL. */
  function GetBaseUrl(siteUrl: Option<string>, vercelUrl: Option<string>): (url: string)
    ensures Truthy(siteUrl) ==>
              StartsWith(siteUrl.value, url)
              && (forall i :: |url| <= i < |siteUrl.value| ==> siteUrl.value[i] == '/')
              && !EndsWith(url, "/")
    ensures !Truthy(siteUrl) && Truthy(vercelUrl) ==> url == "https://" + vercelUrl.value
    ensures !Truthy(siteUrl) && !Truthy(vercelUrl) ==> url == LocalUrl
  {
    if Truthy(siteUrl) then TrimTrailingSlashes(siteUrl.value)
    else if Truthy(vercelUrl) then "https://" + vercelUrl.value
    else LocalUrl
  }

  /** When the site URL is set, the deployment URL does not matter. */
  lemma SiteUrlWins(siteUrl: string, vercel1: Option<string>, vercel2: Option<string>)
    requires siteUrl != ""
    ensures GetBaseUrl(Some(siteUrl), vercel1) == GetBaseUrl(Some(siteUrl), vercel2)
  {
  }

  /** A site URL made only of slashes gives the empty base URL. */
  lemma {:induction false} OnlySlashes(s: string)
    requires forall i :: 0 <= i < |s| ==> s[i] == '/'
    ensures TrimTrailingSlashes(s) == ""
  {
    if |s| > 0 {
      OnlySlashes(s[..|s| - 1]);
    }
  }

  /** Trimming the slashes twice is trimming them once. */
  lemma TrimTrailingSlashesIdempotent(s: string)
    ensures TrimTrailingSlashes(TrimTrailingSlashes(s)) == TrimTrailingSlashes(s)
  {
  }

  /** A URL ending in one or more slashes loses them all: the result is the
      URL without its slash suffix. */
  lemma {:induction false} SlashSuffixRemoved(u: string, slashes: nat)
    requires u == [] || u[|u| - 1] != '/'
    ensures TrimTrailingSlashes(u + seq(slashes, _ => '/')) == u
  {
    var s := u + seq(slashes, _ => '/');
    if slashes > 0 {
      assert s[..|s| - 1] == u + seq(slashes - 1, _ => '/');
      SlashSuffixRemoved(u, slashes - 1);
    } else {
      assert s == u;
    }
  }

  /** The deployment URL is used as it is, trailing slash included. */
  lemma VercelUrlNotTrimmed(host: string)
    requires host != ""
    ensures GetBaseUrl(None, Some(host)) == "https://" + host
    ensures GetBaseUrl(Some(""), Some(host)) == "https://" + host
  {
  }
}
