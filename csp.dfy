/**
 * The `content-security-policy` value the response phase builds: origins
 * forced to `https://`, duplicates dropped through a hash set, and the
 * survivors listed after the `frame-ancestors` directive.
 */
module Csp {
  import opened Strings

  const HTTPS: string := "https://"
  const ADMIN_ORIGIN: string := "https://admin.shopify.com"
  const CSP_BASE: string := "block-all-mixed-content; frame-ancestors"

  /**
   * A stored shop value as an origin: kept when it already starts with
   * `https://`, prefixed with it otherwise. The value always survives as
   * the tail of the origin.
   */
  function Normalize(s: string): (r: string)
    ensures StartsWith(r, HTTPS)
    ensures r == s <==> StartsWith(s, HTTPS)
    ensures |s| <= |r| && r[|r| - |s|..] == s
  {
    if StartsWith(s, HTTPS) then s else HTTPS + s
  }

  /** Normalising twice is normalising once. */
  lemma NormalizeIdempotent(s: string)
    ensures Normalize(Normalize(s)) == Normalize(s)
  {
    assert StartsWith(Normalize(s), HTTPS);
  }

  /** A bare host and the same host written with `https://` give one origin. */
  lemma NormalizeBareHost(host: string)
    requires !StartsWith(host, HTTPS)
    ensures Normalize(host) == Normalize(HTTPS + host) == HTTPS + host
  {
    assert (HTTPS + host)[..|HTTPS|] == HTTPS;
  }

  /** No element occurs twice. */
  predicate Distinct(s: seq<string>) {
    forall i, j :: 0 <= i < j < |s| ==> s[i] != s[j]
  }

  /**
   * `domains.into_iter().collect::<HashSet<_>>().into_iter().collect()`:
   * the same elements, each once, in an order the hash set chooses.
   */
  method CollectUnique(domains: seq<string>) returns (unique: seq<string>)
    ensures Distinct(unique)
    ensures forall x :: x in unique <==> x in domains
  {
    var remaining := set x | x in domains;
    unique := [];
    while remaining != {}
      invariant Distinct(unique)
      invariant forall x :: x in unique ==> x !in remaining
      invariant forall x :: x in domains <==> x in unique || x in remaining
      decreases |remaining|
    {
      var x :| x in remaining;
      unique := unique + [x];
      remaining := remaining - {x};
    }
  }

  /** `format!("{} {}", csp_base, unique_domains.join(" "))`. */
  function CspValue(origins: seq<string>): (r: string)
    ensures StartsWith(r, CSP_BASE + " ")
  {
    CSP_BASE + " " + Join(origins, ' ')
  }

  /**
   * A policy value names its origins: after the directive and one space,
   * splitting on spaces gives back exactly the list, provided no origin
   * carries a space of its own.
   */
  lemma CspValueParses(origins: seq<string>)
    requires |origins| >= 1
    requires forall i :: 0 <= i < |origins| ==> ' ' !in origins[i]
    ensures StartsWith(CspValue(origins), CSP_BASE + " ")
    ensures Split(CspValue(origins)[|CSP_BASE| + 1..], ' ') == origins
  {
    var v := CspValue(origins);
    assert v[..|CSP_BASE| + 1] == CSP_BASE + " ";
    assert v[|CSP_BASE| + 1..] == Join(origins, ' ');
    SplitJoin(origins, ' ');
  }
}
