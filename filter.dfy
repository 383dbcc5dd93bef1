/**
 * The two header phases of the filter. The request phase copies the `shop`
 * and `shopUrl` query parameters of `:path` and the `shop` parameter of
 * `referer` into the host's shared store; the response phase reads them back,
 * drops `X-Frame-Options` and adds a `content-security-policy` header whose
 * `frame-ancestors` list allows those shops and the Shopify admin.
 */
module Filter {
  import opened Wrappers
  import opened Utf8
  import opened Strings
  import opened Query
  import opened Headers
  import opened Csp

  /** The host's shared key-value store: byte values under string keys. */
  type Store = map<string, seq<byte>>

  const SHOP_KEY: string := "shop"
  const API_PATH_SHOP_KEY: string := "apipathshop"
  const REFER_SHOP_KEY: string := "refershop"

  const X_FRAME_OPTIONS: string := "X-Frame-Options"
  const CSP_HEADER: string := "content-security-policy"

  /** What a phase tells the host to do with the exchange. */
  datatype Action = Continue | Pause

  /**
   * `get_shared_string`: the stored bytes as a string; a missing key and
   * bytes that are not UTF-8 both give `None`.
   */
  function SharedString(store: Store, key: string): (r: Option<string>)
    ensures r.None? <==> key !in store || !ValidUtf8(store[key])
    ensures r.Some? ==> Encode(r.value) == store[key]
  {
    if key in store then Decode(store[key]).ToOption() else None
  }

  /** `if let Some(s) = v { set_shared_data(key, Some(s.as_bytes())) }`. */
  function Put(store: Store, key: string, v: Option<string>): (r: Store)
    ensures v.Some? ==> key in r && r[key] == Encode(v.value)
    ensures v.None? ==> r == store
    ensures forall k :: k != key ==> (k in r <==> k in store) && (k in store ==> r[k] == store[k])
  {
    match v
    case None => store
    case Some(s) => store[key := Encode(s)]
  }

  /** The value a request header's query contributes under `name`, if any. */
  function Param(header: Option<string>, name: string): Option<string> {
    match header
    case None => None
    case Some(h) => QueryParam(h, name)
  }

  /**
   * The store after `on_http_request_headers` saw `:path` and `referer`: each
   * of the three keys holds the encoded parameter parsed for it, or exactly
   * what it held before (present or absent) when none was parsed.
   */
  function RequestPhase(store: Store, path: Option<string>, referer: Option<string>): (r: Store)
    ensures Written(store, r, SHOP_KEY, Param(path, "shop"))
    ensures Written(store, r, API_PATH_SHOP_KEY, Param(path, "shopUrl"))
    ensures Written(store, r, REFER_SHOP_KEY, Param(referer, "shop"))
  {
    WritesStore(store, Param(path, "shop"), Param(path, "shopUrl"), Param(referer, "shop"));
    var afterShop := Put(store, SHOP_KEY, Param(path, "shop"));
    var afterShopUrl := Put(afterShop, API_PATH_SHOP_KEY, Param(path, "shopUrl"));
    Put(afterShopUrl, REFER_SHOP_KEY, Param(referer, "shop"))
  }

  lemma WritesStore(store: Store, shop: Option<string>, shopUrl: Option<string>, refershop: Option<string>)
    ensures var s := Put(Put(Put(store, SHOP_KEY, shop), API_PATH_SHOP_KEY, shopUrl), REFER_SHOP_KEY, refershop);
      && Written(store, s, SHOP_KEY, shop)
      && Written(store, s, API_PATH_SHOP_KEY, shopUrl)
      && Written(store, s, REFER_SHOP_KEY, refershop)
  {
    KeysDistinct();
  }

  /**
   * `after` holds under `key` the encoding of the parsed value when there is
   * one, and otherwise exactly what `before` held there, present or absent.
   */
  predicate Written(before: Store, after: Store, key: string, v: Option<string>) {
    match v
    case Some(s) => key in after && after[key] == Encode(s)
    case None => (key in after <==> key in before) && (key in before ==> after[key] == before[key])
  }

  /** A value that was not written is read back unchanged. */
  function ReadBack(parsed: Option<string>, previous: Option<string>): Option<string> {
    if parsed.Some? then parsed else previous
  }

  /**
   * Writing is reading back: after `Put`, the key written gives the string
   * written (the UTF-8 round trip) and every other key gives what it gave.
   */
  lemma PutReadBack(store: Store, key: string, v: Option<string>, k: string)
    ensures SharedString(Put(store, key, v), k)
         == if k == key then ReadBack(v, SharedString(store, k)) else SharedString(store, k)
  {
    if v.Some? && k == key {
      DecodeEncode(v.value);
    }
  }

  /** The three store keys are different keys. */
  lemma KeysDistinct()
    ensures SHOP_KEY != API_PATH_SHOP_KEY && SHOP_KEY != REFER_SHOP_KEY
    ensures API_PATH_SHOP_KEY != REFER_SHOP_KEY
  {
    assert |SHOP_KEY| == 4 && |REFER_SHOP_KEY| == 9 && |API_PATH_SHOP_KEY| == 11;
  }

  /**
   * What the response phase reads after the request phase: each of the three
   * keys holds the parameter the request supplied for it, or what it held
   * before when the request supplied none (no header, no such parameter, or
   * a value that did not decode).
   */
  lemma RequestPhaseReadBack(store: Store, path: Option<string>, referer: Option<string>)
    ensures SharedString(RequestPhase(store, path, referer), SHOP_KEY)
         == ReadBack(Param(path, "shop"), SharedString(store, SHOP_KEY))
    ensures SharedString(RequestPhase(store, path, referer), API_PATH_SHOP_KEY)
         == ReadBack(Param(path, "shopUrl"), SharedString(store, API_PATH_SHOP_KEY))
    ensures SharedString(RequestPhase(store, path, referer), REFER_SHOP_KEY)
         == ReadBack(Param(referer, "shop"), SharedString(store, REFER_SHOP_KEY))
  {
    WritesReadBack(store, Param(path, "shop"), Param(path, "shopUrl"), Param(referer, "shop"));
  }

  lemma WritesReadBack(store: Store, shop: Option<string>, shopUrl: Option<string>, refershop: Option<string>)
    ensures var s := Put(Put(Put(store, SHOP_KEY, shop), API_PATH_SHOP_KEY, shopUrl), REFER_SHOP_KEY, refershop);
      && SharedString(s, SHOP_KEY) == ReadBack(shop, SharedString(store, SHOP_KEY))
      && SharedString(s, API_PATH_SHOP_KEY) == ReadBack(shopUrl, SharedString(store, API_PATH_SHOP_KEY))
      && SharedString(s, REFER_SHOP_KEY) == ReadBack(refershop, SharedString(store, REFER_SHOP_KEY))
  {
    KeysDistinct();
    var s1 := Put(store, SHOP_KEY, shop);
    var s2 := Put(s1, API_PATH_SHOP_KEY, shopUrl);
    PutReadBack(store, SHOP_KEY, shop, SHOP_KEY);
    PutReadBack(store, SHOP_KEY, shop, API_PATH_SHOP_KEY);
    PutReadBack(store, SHOP_KEY, shop, REFER_SHOP_KEY);
    PutReadBack(s1, API_PATH_SHOP_KEY, shopUrl, SHOP_KEY);
    PutReadBack(s1, API_PATH_SHOP_KEY, shopUrl, API_PATH_SHOP_KEY);
    PutReadBack(s1, API_PATH_SHOP_KEY, shopUrl, REFER_SHOP_KEY);
    PutReadBack(s2, REFER_SHOP_KEY, refershop, SHOP_KEY);
    PutReadBack(s2, REFER_SHOP_KEY, refershop, API_PATH_SHOP_KEY);
    PutReadBack(s2, REFER_SHOP_KEY, refershop, REFER_SHOP_KEY);
  }

  /** The request phase writes the three keys and no other. */
  lemma RequestPhaseFrame(store: Store, path: Option<string>, referer: Option<string>, key: string)
    requires key != SHOP_KEY && key != API_PATH_SHOP_KEY && key != REFER_SHOP_KEY
    ensures key in RequestPhase(store, path, referer) <==> key in store
    ensures key in store ==> RequestPhase(store, path, referer)[key] == store[key]
  {
    var s1 := Put(store, SHOP_KEY, Param(path, "shop"));
    var s2 := Put(s1, API_PATH_SHOP_KEY, Param(path, "shopUrl"));
    assert (key in s1 <==> key in store) && (key in store ==> s1[key] == store[key]);
    assert (key in s2 <==> key in store) && (key in store ==> s2[key] == store[key]);
  }

  /** The origin a stored value contributes, if it is present and UTF-8. */
  function Present(v: Option<string>): (r: set<string>)
    ensures |r| <= 1
  {
    match v
    case None => {}
    case Some(s) => {Normalize(s)}
  }

  /**
   * The origins the response phase allows: the normalised `shop`,
   * `refershop` and `apipathshop` values that can be read, and the admin.
   */
  function Origins(store: Store): (r: set<string>)
    ensures ADMIN_ORIGIN in r
    ensures forall o :: o in r ==> StartsWith(o, HTTPS)
    ensures |r| <= 4
  {
    var shop := SharedString(store, SHOP_KEY);
    var refershop := SharedString(store, REFER_SHOP_KEY);
    var apipathshop := SharedString(store, API_PATH_SHOP_KEY);
    AllowedBound(shop, refershop, apipathshop);
    Present(shop) + Present(refershop) + Present(apipathshop) + {ADMIN_ORIGIN}
  }

  lemma AllowedBound(shop: Option<string>, refershop: Option<string>, apipathshop: Option<string>)
    ensures var r := Present(shop) + Present(refershop) + Present(apipathshop) + {ADMIN_ORIGIN};
      && ADMIN_ORIGIN in r
      && (forall o :: o in r ==> StartsWith(o, HTTPS))
      && |r| <= 4
  {
    var a := Present(shop);
    var b := Present(refershop);
    var c := Present(apipathshop);
    var d: set<string> := {ADMIN_ORIGIN};
    CardUnion(a, b);
    CardUnion(a + b, c);
    CardUnion(a + b + c, d);
    AdminIsHttps();
    PresentIsHttps(shop);
    PresentIsHttps(refershop);
    PresentIsHttps(apipathshop);
  }

  // Separate lemmas, to keep the cardinality proof above small.

  lemma AdminIsHttps()
    ensures StartsWith(ADMIN_ORIGIN, HTTPS)
  {
    assert ADMIN_ORIGIN == HTTPS + "admin.shopify.com";
  }

  lemma PresentIsHttps(v: Option<string>)
    ensures forall o :: o in Present(v) ==> StartsWith(o, HTTPS)
  {
  }

  lemma CardUnion(a: set<string>, b: set<string>)
    ensures |a + b| <= |a| + |b|
  {
    assert |a + b| + |a * b| == |a| + |b|;
  }

  /** `if let Some(s) = v { domains.push(normalised s) }`. */
  function Pushed(v: Option<string>): (r: seq<string>)
    ensures |r| <= 1
    ensures forall o :: o in r <==> o in Present(v)
  {
    match v
    case None => []
    case Some(s) => [Normalize(s)]
  }

  /** The list the response phase pushes holds exactly the allowed origins. */
  lemma PushedOrigins(store: Store)
    ensures var domains := Pushed(SharedString(store, SHOP_KEY)) + Pushed(SharedString(store, REFER_SHOP_KEY))
      + Pushed(SharedString(store, API_PATH_SHOP_KEY)) + [ADMIN_ORIGIN];
      forall o :: o in domains <==> o in Origins(store)
  {
  }

  /** A duplicate-free list of exactly `origins` makes a policy for them. */
  lemma PolicyOfUnique(unique: seq<string>, origins: set<string>)
    requires Distinct(unique)
    requires forall o :: o in unique <==> o in origins
    ensures PolicyFor(CspValue(unique), origins)
  {
  }

  /** `value` lists `origins`, each once, in some order, after the directive. */
  ghost predicate PolicyFor(value: string, origins: set<string>) {
    exists list: seq<string> ::
      Distinct(list) && (forall o :: o in list <==> o in origins) && value == CspValue(list)
  }

  /**
   * Reading a policy value back: the space-separated origins after
   * `frame-ancestors` are pairwise distinct and are exactly `origins`,
   * whenever no origin carries a space.
   */
  lemma PolicyNamesEachOriginOnce(value: string, origins: set<string>)
    requires PolicyFor(value, origins)
    requires origins != {}
    requires forall o :: o in origins ==> ' ' !in o
    ensures StartsWith(value, CSP_BASE + " ")
    ensures Distinct(Split(value[|CSP_BASE| + 1..], ' '))
    ensures forall o :: o in Split(value[|CSP_BASE| + 1..], ' ') <==> o in origins
  {
    var list: seq<string> :|
      Distinct(list) && (forall o :: o in list <==> o in origins) && value == CspValue(list);
    var o :| o in origins;
    assert o in list;
    CspValueParses(list);
  }

  /**
   * The header list after the response phase: `X-Frame-Options` is gone
   * and there is one `content-security-policy` header more than before.
   */
  lemma ResponseHeaderCounts(hs: seq<Header>, policy: string)
    ensures Count(RemoveHeader(hs, X_FRAME_OPTIONS) + [(CSP_HEADER, policy)], X_FRAME_OPTIONS) == 0
    ensures Count(RemoveHeader(hs, X_FRAME_OPTIONS) + [(CSP_HEADER, policy)], CSP_HEADER)
         == Count(hs, CSP_HEADER) + 1
  {
    assert |Lower(X_FRAME_OPTIONS)| != |Lower(CSP_HEADER)|;
    RemoveThenAdd(hs, X_FRAME_OPTIONS, (CSP_HEADER, policy));
  }

  /** Stored bytes that are not UTF-8 count for nothing, exactly as a missing key. */
  lemma InvalidValueIsMissing(store: Store, key: string, bytes: seq<byte>)
    requires !ValidUtf8(bytes)
    ensures Origins(store[key := bytes]) == Origins(store - {key})
  {
    var s1 := store[key := bytes];
    var s2 := store - {key};
    forall k | k in {SHOP_KEY, REFER_SHOP_KEY, API_PATH_SHOP_KEY}
      ensures SharedString(s1, k) == SharedString(s2, k)
    {
      if k != key {
        assert (k in s1 <==> k in s2) && (k in s1 ==> s1[k] == s2[k]);
      }
    }
  }

  /** With nothing stored, only the admin may frame the response. */
  lemma EmptyStoreOrigins()
    ensures Origins(map[]) == {ADMIN_ORIGIN}
  {
    var empty: Store := map[];
    assert SharedString(empty, SHOP_KEY) == None;
    assert SharedString(empty, REFER_SHOP_KEY) == None;
    assert SharedString(empty, API_PATH_SHOP_KEY) == None;
  }

  /**
   * End to end: a `shop` parameter that decodes on `:path` becomes an allowed
   * origin of the response that follows, whatever the store held before.
   */
  lemma PathShopIsAllowed(store: Store, path: string, referer: Option<string>, shop: string)
    requires QueryParam(path, "shop") == Some(shop)
    ensures Normalize(shop) in Origins(RequestPhase(store, Some(path), referer))
  {
    RequestPhaseReadBack(store, Some(path), referer);
  }

  /** End to end for the `shop` parameter of `referer`. */
  lemma RefererShopIsAllowed(store: Store, path: Option<string>, referer: string, shop: string)
    requires QueryParam(referer, "shop") == Some(shop)
    ensures Normalize(shop) in Origins(RequestPhase(store, path, Some(referer)))
  {
    RequestPhaseReadBack(store, path, Some(referer));
  }

  /** End to end for the `shopUrl` parameter of `:path`. */
  lemma PathShopUrlIsAllowed(store: Store, path: string, referer: Option<string>, shop: string)
    requires QueryParam(path, "shopUrl") == Some(shop)
    ensures Normalize(shop) in Origins(RequestPhase(store, Some(path), referer))
  {
    RequestPhaseReadBack(store, Some(path), referer);
  }

  /**
   * The same shop stored bare under `shop` and with `https://` under
   * `refershop` is one origin: the policy allows it and the admin, no more.
   */
  lemma BareAndPrefixedShopMerge(host: string)
    requires !StartsWith(host, HTTPS)
    ensures Origins(map[SHOP_KEY := Encode(host), REFER_SHOP_KEY := Encode(HTTPS + host)])
         == {HTTPS + host, ADMIN_ORIGIN}
  {
    var s0: Store := map[];
    var s1 := Put(s0, SHOP_KEY, Some(host));
    var s2 := Put(s1, REFER_SHOP_KEY, Some(HTTPS + host));
    KeysDistinct();
    PutReadBack(s0, SHOP_KEY, Some(host), SHOP_KEY);
    PutReadBack(s0, SHOP_KEY, Some(host), API_PATH_SHOP_KEY);
    PutReadBack(s1, REFER_SHOP_KEY, Some(HTTPS + host), SHOP_KEY);
    PutReadBack(s1, REFER_SHOP_KEY, Some(HTTPS + host), REFER_SHOP_KEY);
    PutReadBack(s1, REFER_SHOP_KEY, Some(HTTPS + host), API_PATH_SHOP_KEY);
    NormalizeBareHost(host);
  }

  /** The filter's per-exchange context: the shared store and the response headers. */
  class HttpHeadersRoot {
    var store: Store
    var responseHeaders: seq<Header>

    constructor(store0: Store, headers0: seq<Header>)
      ensures store == store0 && responseHeaders == headers0
    {
      store := store0;
      responseHeaders := headers0;
    }

    /**
     * `get_shared_string`, a method of the context that reads the host's
     * store. `SharedString` is its specification, for the functions and
     * lemmas that cannot call a method.
     */
    method GetSharedString(key: string) returns (r: Option<string>)
      ensures r == SharedString(store, key)
    {
      if key in store {
        var decoded := Decode(store[key]);
        if decoded.Success? {
          r := Some(decoded.value);
        } else {
          r := None;
        }
      } else {
        r := None;
      }
    }

    /** `if let Some(s) = v { set_shared_data(key, Some(s.as_bytes()), None) }`. */
    method StoreIfSome(key: string, v: Option<string>)
      modifies this`store
      ensures store == Put(old(store), key, v)
    {
      if v.Some? {
        store := store[key := Encode(v.value)];
      }
    }

    /**
     * `on_http_request_headers`: parse both parameters of `:path`, store each
     * that decodes, then do the same for the `shop` parameter of `referer`.
     */
    method OnHttpRequestHeaders(path: Option<string>, referer: Option<string>) returns (action: Action)
      modifies this`store
      ensures store == RequestPhase(old(store), path, referer)
      ensures action == Continue
    {
      if path.Some? {
        var shop := ParseQueryParam(path.value, "shop");
        var shopUrl := ParseQueryParam(path.value, "shopUrl");
        StoreIfSome(SHOP_KEY, shop);
        StoreIfSome(API_PATH_SHOP_KEY, shopUrl);
      }
      if referer.Some? {
        var refershop := ParseQueryParam(referer.value, "shop");
        StoreIfSome(REFER_SHOP_KEY, refershop);
      }
      return Continue;
    }

    /**
     * The `domains` list of the response phase: each stored shop that can be
     * read, normalised, in the order `shop`, `refershop`, `apipathshop`,
     * then the admin.
     */
    method AllowedDomains() returns (domains: seq<string>)
      ensures forall o :: o in domains <==> o in Origins(store)
      ensures |domains| <= 4 && domains[|domains| - 1] == ADMIN_ORIGIN
    {
      var shop := GetSharedString(SHOP_KEY);
      var refershop := GetSharedString(REFER_SHOP_KEY);
      var apipathshop := GetSharedString(API_PATH_SHOP_KEY);

      domains := [];
      if shop.Some? {
        domains := domains + [Normalize(shop.value)];
      }
      assert domains == Pushed(shop);
      if refershop.Some? {
        domains := domains + [Normalize(refershop.value)];
      }
      assert domains == Pushed(shop) + Pushed(refershop);
      if apipathshop.Some? {
        domains := domains + [Normalize(apipathshop.value)];
      }
      assert domains == Pushed(shop) + Pushed(refershop) + Pushed(apipathshop);
      domains := domains + [ADMIN_ORIGIN];
      PushedOrigins(store);
    }

    /**
     * `on_http_response_headers`: drop `X-Frame-Options`, collect the stored
     * shops as origins, add the admin, drop duplicates and append the policy.
     */
    method OnHttpResponseHeaders() returns (action: Action)
      modifies this`responseHeaders
      ensures exists policy ::
        && PolicyFor(policy, Origins(store))
        && responseHeaders == RemoveHeader(old(responseHeaders), X_FRAME_OPTIONS) + [(CSP_HEADER, policy)]
      ensures action == Continue
    {
      responseHeaders := RemoveHeader(responseHeaders, X_FRAME_OPTIONS);

      var domains := AllowedDomains();
      var unique := CollectUnique(domains);
      var policy := CspValue(unique);
      PolicyOfUnique(unique, Origins(store));
      responseHeaders := responseHeaders + [(CSP_HEADER, policy)];
      return Continue;
    }
  }
}
