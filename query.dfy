/**
 * The filter's `parse_query_param`: find a parameter in the query part of a
 * URL or path and percent-decode its value.
 */
module Query {
  import opened Wrappers
  import opened Strings
  import opened Percent

  /** `split('#').next()`: the part before the first `#`, or all of it. */
  function BeforeFragment(s: string): (r: string)
    ensures '#' !in r
    ensures r == s || (|r| < |s| && r == s[..|r|] && s[|r|] == '#')
  {
    match FirstIndex(s, '#')
    case None => s
    case Some(i) => s[..i]
  }

  /** The text after `#` never reaches the query. */
  lemma BeforeFragmentAt(query: string, fragment: string)
    requires '#' !in query
    ensures BeforeFragment(query + "#" + fragment) == query
  {
    FirstIndexAt(query, '#', fragment);
    assert (query + "#" + fragment)[..|query|] == query;
  }

  /**
   * A `&`-separated pair whose part before its first `=` is exactly `key`;
   * a pair without `=` never matches.
   */
  predicate Matches(pair: string, key: string) {
    '=' in pair && SplitOnce(pair, '=').value.0 == key
  }

  /** The raw value of a pair: everything after its first `=`. */
  function RawValue(pair: string): string
    requires '=' in pair
  {
    SplitOnce(pair, '=').value.1
  }

  /** `i` is the first pair that matches `key`. */
  predicate IsFirstMatch(pairs: seq<string>, key: string, i: nat) {
    i < |pairs| && Matches(pairs[i], key) && forall j :: 0 <= j < i ==> !Matches(pairs[j], key)
  }

  /** The search of the `for` loop: the first pair that matches `key`, if any. */
  function FirstMatch(pairs: seq<string>, key: string): (r: Option<nat>)
    ensures r.None? <==> forall i :: 0 <= i < |pairs| ==> !Matches(pairs[i], key)
    ensures r.Some? ==> IsFirstMatch(pairs, key, r.value)
  {
    if pairs == [] then None
    else if Matches(pairs[0], key) then Some(0)
    else
      assert forall i :: 0 <= i < |pairs| - 1 ==> pairs[1..][i] == pairs[i + 1];
      match FirstMatch(pairs[1..], key)
      case None => None
      case Some(i) => Some(i + 1)
  }

  /** There is only one first match, and the search finds it. */
  lemma FirstMatchUnique(pairs: seq<string>, key: string, i: nat)
    requires IsFirstMatch(pairs, key, i)
    ensures FirstMatch(pairs, key) == Some(i)
  {
    var r := FirstMatch(pairs, key);
    assert r.Some?;
    assert !(r.value < i) && !(i < r.value);
  }

  /**
   * The value of `key` among `&`-separated pairs: the decoded value of the
   * first matching pair. When that value does not decode the answer is
   * `None`; later pairs are not consulted.
   */
  function ValueIn(pairs: seq<string>, key: string): (r: Option<string>)
    ensures (forall i :: 0 <= i < |pairs| ==> !Matches(pairs[i], key)) ==> r.None?
    ensures r.Some? ==> exists i: nat :: IsFirstMatch(pairs, key, i) && UrlDecode(RawValue(pairs[i])) == Success(r.value)
    ensures forall i: nat :: IsFirstMatch(pairs, key, i) ==> r == UrlDecode(RawValue(pairs[i])).ToOption()
  {
    match FirstMatch(pairs, key)
    case None => None
    case Some(i) => UrlDecode(RawValue(pairs[i])).ToOption()
  }

  /** The value of `key` in a query component with the fragment already cut off. */
  function PairsValue(query: string, key: string): Option<string> {
    ValueIn(Split(query, '&'), key)
  }

  /**
   * `parse_query_param`: everything after the first `?`, up to the first `#`
   * after it, is the query; no `?` means no parameter.
   */
  function QueryParam(url: string, key: string): (r: Option<string>)
    ensures '?' !in url ==> r.None?
  {
    match SplitOnce(url, '?')
    case None => None
    case Some((_, rest)) => PairsValue(BeforeFragment(rest), key)
  }

  /** `parse_query_param`, cutting the query out of `url` as the source does. */
  method ParseQueryParam(url: string, key: string) returns (r: Option<string>)
    ensures r == QueryParam(url, key)
  {
    var split := SplitOnce(url, '?');
    if split.None? {
      return None;
    }
    var query := BeforeFragment(split.value.1);
    r := ScanPairs(Split(query, '&'), key);
  }

  /** The source's `for` loop: scan the pairs and return at the first match. */
  method ScanPairs(pairs: seq<string>, key: string) returns (r: Option<string>)
    ensures r == ValueIn(pairs, key)
  {
    var i := 0;
    while i < |pairs|
      invariant 0 <= i <= |pairs|
      invariant forall j :: 0 <= j < i ==> !Matches(pairs[j], key)
    {
      var kv := SplitOnce(pairs[i], '=');
      if kv.Some? && kv.value.0 == key {
        FirstMatchUnique(pairs, key, i);
        return UrlDecode(kv.value.1).ToOption();
      }
      i := i + 1;
    }
    return None;
  }

  /**
   * Only the text between the first `?` and the first `#` after it counts:
   * a later `?` is part of the query and nothing after the `#` is read.
   */
  lemma QueryParamReadsQueryOnly(prefix: string, query: string, fragment: string, key: string)
    requires '?' !in prefix && '#' !in query
    ensures QueryParam(prefix + "?" + query, key) == PairsValue(query, key)
    ensures QueryParam(prefix + "?" + query + "#" + fragment, key) == PairsValue(query, key)
  {
    SplitOnceAt(prefix, '?', query);
    SplitOnceAt(prefix, '?', query + "#" + fragment);
    assert prefix + "?" + query + "#" + fragment == prefix + "?" + (query + "#" + fragment);
    BeforeFragmentAt(query, fragment);
    assert BeforeFragment(query) == query;
  }

  /**
   * A `#` before the first `?` does not end the search: the split at `?`
   * comes first, so a parameter behind what a browser treats as the
   * fragment is still found.
   */
  lemma HashBeforeQueryIsRead(path: string, fragment: string, key: string, value: string)
    requires '?' !in path && '?' !in fragment
    requires '=' !in key && '&' !in key && '#' !in key
    requires '&' !in value && '#' !in value
    ensures QueryParam(path + "#" + fragment + "?" + (key + "=" + value), key) == UrlDecode(value).ToOption()
  {
    var prefix := path + "#" + fragment;
    var pair := key + "=" + value;
    assert '?' !in prefix;
    assert '#' !in pair;
    QueryParamReadsQueryOnly(prefix, pair, "", key);
    var none: seq<string> := [];
    LeadingPairDecides(key, value, none);
    assert Join([pair] + none, '&') == pair;
  }

  /**
   * The first pair named `key` decides: whatever follows it (another pair
   * with the same key, or one whose value would decode) is ignored, and
   * the answer is `None` exactly when its value fails to decode. The pairs
   * before it may be anything that does not match, pairs without `=` among them.
   */
  lemma FirstPairDecides(before: seq<string>, key: string, value: string, after: seq<string>)
    requires '=' !in key && '&' !in key && '&' !in value
    requires forall i :: 0 <= i < |before| ==> '&' !in before[i] && !Matches(before[i], key)
    requires forall i :: 0 <= i < |after| ==> '&' !in after[i]
    ensures PairsValue(Join(before + [key + "=" + value] + after, '&'), key) == UrlDecode(value).ToOption()
  {
    var pair := key + "=" + value;
    var pairs := before + [pair] + after;
    FreeOfAppend(before, [pair], '&');
    FreeOfAppend(before + [pair], after, '&');
    SplitJoin(pairs, '&');
    SplitOnceAt(key, '=', value);
    assert Matches(pair, key) && RawValue(pair) == value;
    assert forall j :: 0 <= j < |before| ==> pairs[j] == before[j];
    assert IsFirstMatch(pairs, key, |before|);
    FirstMatchUnique(pairs, key, |before|);
  }

  /** Without a pair named `key` there is no value. */
  lemma NoMatchingPair(pairs: seq<string>, key: string)
    requires |pairs| >= 1
    requires forall i :: 0 <= i < |pairs| ==> '&' !in pairs[i] && !Matches(pairs[i], key)
    ensures PairsValue(Join(pairs, '&'), key) == None
  {
    SplitJoin(pairs, '&');
  }

  /** An empty value decodes to the empty string. */
  lemma EmptyValueDecodes()
    ensures UrlDecode("").ToOption() == Some("")
  {
    UrlDecodeNoPercent("");
  }

  /** `FirstPairDecides` when the matching pair comes first. */
  lemma LeadingPairDecides(key: string, value: string, after: seq<string>)
    requires '=' !in key && '&' !in key && '&' !in value
    requires forall i :: 0 <= i < |after| ==> '&' !in after[i]
    ensures PairsValue(Join([key + "=" + value] + after, '&'), key) == UrlDecode(value).ToOption()
  {
    var none: seq<string> := [];
    FirstPairDecides(none, key, value, after);
    NothingBefore(key + "=" + value, after);
  }

  /** A separate lemma, to keep the proof above small. */
  lemma NothingBefore(pair: string, after: seq<string>)
    ensures [] + [pair] + after == [pair] + after
  {
  }

  /** A parameter given with an empty value is found, with value "". */
  lemma EmptyValueIsFound(key: string, after: seq<string>)
    requires '=' !in key && '&' !in key
    requires forall i :: 0 <= i < |after| ==> '&' !in after[i]
    ensures PairsValue(Join([key + "="] + after, '&'), key) == Some("")
  {
    LeadingPairDecides(key, "", after);
    EmptyValueDecodes();
    assert key + "=" + "" == key + "=";
  }

  /**
   * A first matching pair whose value does not decode hides every later
   * pair with the same key: the answer is `None`, not the later value.
   */
  lemma FailedDecodeHidesLaterPairs(key: string, after: seq<string>)
    requires '=' !in key && '&' !in key
    requires forall i :: 0 <= i < |after| ==> '&' !in after[i]
    ensures PairsValue(Join([key + "=" + "%FF"] + after, '&'), key) == None
  {
    LeadingPairDecides(key, "%FF", after);
    UrlDecodeInvalid();
  }
}
