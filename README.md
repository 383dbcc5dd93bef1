# Shopify frame-ancestors filter, modelled in Dafny

The filter is a proxy-wasm HTTP filter (`src/lib.rs`). It works in two phases.

- **Request phase** (`on_http_request_headers`). It reads the query of the
  `:path` header and of the `referer` header. It finds the parameters `shop`
  and `shopUrl` with `parse_query_param` and percent-decodes them with
  `urldecode`. Each value that is found and decodes is stored in the host's
  shared key-value store, under `shop`, `apipathshop` or `refershop`.
- **Response phase** (`on_http_response_headers`). It removes
  `X-Frame-Options` and reads the three keys back through
  `get_shared_string`. Each value becomes an `https://` origin. It adds
  `https://admin.shopify.com`, removes duplicates through a hash set, and
  appends one header:
  `content-security-policy: block-all-mixed-content; frame-ancestors <origins>`.

The model has eight modules.

- `Wrappers`: `Option` and `Result`.
- `Utf8`: section 4 of RFC 3629, as used by `str::as_bytes` and
  `String::from_utf8`. It holds well-formed octet sequences, an encoder, a
  decoder that reports where valid UTF-8 stops, and their round trips.
  Octets are the `byte` newtype (0 to 255), not `bv8`.
- `Percent`: `urldecode`, which is percent-decoding (section 2.1 of RFC 3986)
  followed by the UTF-8 check. It also has a percent-encoder as the decoder's
  partner, and the unit test's expectations as lemmas.
- `Strings`: `split_once`, `split`, `join` and `starts_with` on strings.
- `Query`: `parse_query_param`. The specification function is `QueryParam`.
  The source's loop with early return is `ScanPairs`, called from
  `ParseQueryParam`.
- `Headers`: the response header list. Header names compare without regard
  to ASCII case, as in the host.
- `Csp`: origin normalisation, the hash-set deduplication and the policy value.
- `Filter`: the shared store, the request phase as the function
  `RequestPhase`, the allowed origins as the function `Origins`, and the
  class `HttpHeadersRoot`. The response phase is only a method of the class;
  its contract is stated with `Origins`, `PolicyFor` and `RemoveHeader`. The class has a `store`
  field (`map<string, seq<byte>>`) and a `responseHeaders` field
  (`seq<(string, string)>`). Its phase methods update those fields step by
  step, as the source does.

Host inputs become parameters. The optional `:path` and `referer` headers are
`Option<string>` arguments. The shared store and the response headers are
fields.

The hash set's iteration order is not part of the model. `CollectUnique`
draws each element from a set with `:|`. The response phase promises only
two things about the origins in the header: they are pairwise distinct, and
as a set they equal `Origins(store)`.

## Behaviour worth noting

- **Decode failure.** Only the first pair named `key` counts. When its value
  does not decode, the answer is `None` and later pairs with the same key are
  not tried, because `src/lib.rs:122` returns `urldecode(v).ok()` at once
  (`Query.FailedDecodeHidesLaterPairs`).
- **A `#` before the `?`.** The path is split at its first `?` before the
  query is cut at `#` (`src/lib.rs:117-118`). A `#` that comes before the
  first `?` therefore does not stop the search, and a `shop` inside what a
  browser treats as the fragment is still found
  (`Query.HashBeforeQueryIsRead`).
- **Origin order.** The origins come out in hash-set order
  (`src/lib.rs:86-87`), so no order is promised. The model states that they
  are pairwise distinct and, as a set, equal to the allowed origins.

## Model

| member | source | states |
|---|---|---|
| `Strings.FirstIndex` | src/lib.rs:117 | None exactly when the character is absent; otherwise the index holds it and no earlier position does |
| `Strings.SplitOnce` | src/lib.rs:117 | None exactly when the separator is absent; otherwise the string is `a + [c] + b` with no separator in `a` |
| `Strings.SplitOnceAt` | src/lib.rs:117 | any split `a + [c] + b` with no `c` in `a` is the one `split_once` finds |
| `Strings.Split` | src/lib.rs:119 | at least one piece, no piece contains the separator, joining the pieces gives the input back |
| `Strings.Join` | src/lib.rs:88 | the first piece leads the result, and two pieces or more put the separator in; `Strings.SplitJoin` reads the pieces back |
| `Strings.SplitJoin` | src/lib.rs:88 | splitting a join of separator-free pieces gives the pieces back |
| `Query.BeforeFragment` | src/lib.rs:118 | result has no `#` and is either the whole input or the prefix that ends right before its first `#` |
| `Query.BeforeFragmentAt` | src/lib.rs:118 | text after a `#` is cut off and the text before it is kept |
| `Query.FirstMatch` | src/lib.rs:119-121 | None exactly when no pair has a key equal to `key` (pairs without `=` never match); otherwise the index of the first match |
| `Query.FirstMatchUnique` | src/lib.rs:119-123 | the loop's stopping point is the only first match |
| `Query.ValueIn` | src/lib.rs:119-125 | no matching pair gives None; otherwise the answer is the first matching pair's raw value decoded, and None when that value does not decode |
| `Query.QueryParam` | src/lib.rs:116-128 | a URL without `?` has no parameter |
| `Query.ParseQueryParam` | src/lib.rs:116-128 | the loop-based parser returns exactly `QueryParam(url, key)` |
| `Query.ScanPairs` | src/lib.rs:119-125 | the scan with early return gives the decoded value of the first matching pair, or None when no pair matches |
| `Query.QueryParamReadsQueryOnly` | src/lib.rs:117-119 | only the first `?` splits (a later `?` is query text), and nothing after the first `#` that follows that `?` is read |
| `Query.HashBeforeQueryIsRead` | src/lib.rs:117-118 | a `#` before the first `?` does not stop the search: in `path#fragment?key=value` the value of `key` is found and decoded |
| `Query.FirstPairDecides` | src/lib.rs:119-124 | the first pair named `key` fixes the answer whatever follows; earlier non-matching pairs, including ones without `=`, are skipped |
| `Query.LeadingPairDecides` | src/lib.rs:119-124 | a matching first pair gives its decoded value whatever follows |
| `Query.NoMatchingPair` | src/lib.rs:119-127 | no pair named `key` means None |
| `Query.EmptyValueIsFound` | src/lib.rs:120-122 | `key=` yields `Some("")`, not None |
| `Query.FailedDecodeHidesLaterPairs` | src/lib.rs:122 | a first matching value that is not UTF-8 gives None even when a later pair with the key would decode |
| `Utf8.EncodeChar` | src/lib.rs:25 | one character encodes to a well-formed RFC 3629 sequence, one octet exactly for ASCII |
| `Utf8.EncodeValid` | src/lib.rs:25 | `as_bytes` always produces valid UTF-8 |
| `Utf8.EncodeLength` | src/lib.rs:25 | `as_bytes` takes one to four octets per character |
| `Utf8.DecodeChar` | src/lib.rs:102 | the character decoded from a well-formed sequence encodes back to that sequence |
| `Utf8.DecodeEncodeChar` | src/lib.rs:102 | decoding a character's encoding gives the character |
| `Utf8.Decode` | src/lib.rs:102-107 | succeeds exactly on valid UTF-8 and then re-encodes to the input; on failure reports a valid prefix shorter than the input |
| `Utf8.DecodeEncode` | src/lib.rs:102 | `from_utf8` of `as_bytes` gives the string back |
| `Utf8.ValidUtf8IsEncoding` | src/lib.rs:102 | the valid octet sequences are exactly the encodings of strings |
| `Utf8.EncodeContainsAscii` | src/lib.rs:132 | an ASCII octet occurs in the encoding exactly when its character occurs in the string |
| `Percent.PercentDecode` | src/lib.rs:132 | input without `%` is returned unchanged; output is never longer than input |
| `Percent.PercentDecodeEscape` | src/lib.rs:132 | `%` and two hex digits of either case decode to the octet they spell |
| `Percent.PercentDecodeStray` | src/lib.rs:132 | a `%` that two hex digits do not follow is kept, and decoding resumes at the next octet |
| `Percent.HexValue` | src/lib.rs:132 | a hex digit of either case has a value below 16 |
| `Percent.HexDigitCase` | src/lib.rs:132 | a lower-case digit has the value of its upper-case form, so `%e4` and `%E4` spell the same octet |
| `Percent.PercentDecodeEncode` | src/lib.rs:132 | percent-decoding undoes percent-encoding for every octet sequence |
| `Percent.UrlDecode` | src/lib.rs:131-135 | succeeds exactly when the percent-decoded octets are valid UTF-8, and then yields the string with those octets |
| `Percent.UrlDecodeNoPercent` | src/lib.rs:131-135 | a string without `%` decodes to itself |
| `Percent.UrlDecodeEncodeComponent` | src/lib.rs:131-135 | every string is recovered from its percent-encoding |
| `Percent.UrlDecodeInvalid` | src/lib.rs:133-134 | `%FF` is a lone 0xFF octet and decoding fails |
| `Percent.UrlDecodeSpace` | src/lib.rs:143 | `hello%20world` decodes to `hello world` |
| `Percent.UrlDecodeOperators` | src/lib.rs:144 | `1%2B2%3D3` decodes to `1+2=3` |
| `Percent.UrlDecodeBrackets` | src/lib.rs:145 | `foo%5Bbar%5D` decodes to `foo[bar]` |
| `Percent.UrlDecodeUrl` | src/lib.rs:146 | `https%3A%2F%2Fexample.com` decodes to `https://example.com` |
| `Percent.UrlDecodeMultiOctet` | src/lib.rs:147 | `%E4%B8%AD%E6%96%87` decodes to the two CJK characters it encodes |
| `Percent.UrlDecodePlain` | src/lib.rs:148-149 | the empty string and `normal_string` decode to themselves |
| `Percent.UrlDecodeLowerCase` | src/lib.rs:131-135 | a lower-case escape decodes: `%7e` gives `~` |
| `Percent.UrlDecodeStrayPercent` | src/lib.rs:131-135 | a trailing `%` without digits is kept: `100%` decodes to itself |
| `Headers.Count` | src/lib.rs:46 | zero exactly when no header has the name |
| `Headers.RemoveHeader` | src/lib.rs:46 | no header of that name remains, every other header is kept as often as it occurred, the length drops by the number removed, and a list without that name is unchanged |
| `Headers.RemoveHeaderAppend` | src/lib.rs:46 | removal keeps order: removing from two lists joined is removing from each and joining the results |
| `Headers.RemoveKeepsOthers` | src/lib.rs:46 | removing one name leaves the count of every other name unchanged |
| `Headers.RemoveThenAdd` | src/lib.rs:46 | after removing one name and adding another, the first is absent and the second occurs once more than before |
| `Strings.StartsWithIsPrefix` | src/lib.rs:56 | `starts_with` holds exactly when the string is the prefix followed by something |
| `Csp.Normalize` | src/lib.rs:56-60 | the origin starts with `https://`, equals the value exactly when the value already did, and ends with the value |
| `Csp.NormalizeIdempotent` | src/lib.rs:56-60 | normalising twice is normalising once |
| `Csp.NormalizeBareHost` | src/lib.rs:56-60 | a bare host and the same host with `https://` give the same origin |
| `Csp.CollectUnique` | src/lib.rs:86-87 | the result has no duplicates and holds exactly the elements of the input |
| `Csp.CspValue` | src/lib.rs:88-89 | the policy value starts with the directive and one space |
| `Csp.CspValueParses` | src/lib.rs:88-89 | the policy value starts with the directive and a space, and splitting the rest on spaces gives back the origin list |
| `Filter.SharedString` | src/lib.rs:99-112 | None exactly when the key is absent or its bytes are not UTF-8; otherwise the string whose encoding is stored |
| `Filter.HttpHeadersRoot.GetSharedString` | src/lib.rs:99-112 | returns `SharedString(store, key)` and changes nothing |
| `Filter.PutReadBack` | src/lib.rs:25 | reading back a written key gives the written string; other keys read as before |
| `Filter.Put` | src/lib.rs:23-26 | a value is stored encoded under its key, no value leaves the store as it was, and no other key changes |
| `Filter.RequestPhase` | src/lib.rs:18-42 | `shop`, `apipathshop` and `refershop` each hold the encoded parameter parsed for them, or exactly what they held before, present or absent, when none was parsed |
| `Filter.RequestPhaseReadBack` | src/lib.rs:18-42 | after the request phase each key reads back as the parameter parsed for it, or as before when none was parsed |
| `Filter.RequestPhaseFrame` | src/lib.rs:18-42 | the request phase changes no key other than `shop`, `apipathshop` and `refershop` |
| `Filter.HttpHeadersRoot.StoreIfSome` | src/lib.rs:23-26 | the store gains the encoded value under the key when there is one and is unchanged otherwise |
| `Filter.HttpHeadersRoot.OnHttpRequestHeaders` | src/lib.rs:18-42 | the new store is `RequestPhase` of the old one and the action is `Continue` |
| `Filter.Origins` | src/lib.rs:50-83 | the admin origin is always present, every origin starts with `https://`, and there are at most four |
| `Filter.InvalidValueIsMissing` | src/lib.rs:101-110 | stored bytes that are not UTF-8 give the same origins as a missing key |
| `Filter.EmptyStoreOrigins` | src/lib.rs:82-83 | with nothing stored, the admin origin is the only one |
| `Filter.PathShopIsAllowed` | src/lib.rs:21-25 | a `shop` parameter on `:path` that decodes becomes an allowed origin of the response |
| `Filter.RefererShopIsAllowed` | src/lib.rs:35-38 | a `shop` parameter on `referer` that decodes becomes an allowed origin |
| `Filter.PathShopUrlIsAllowed` | src/lib.rs:22-29 | a `shopUrl` parameter on `:path` that decodes becomes an allowed origin |
| `Filter.BareAndPrefixedShopMerge` | src/lib.rs:55-87 | a host stored bare and the same host stored with `https://` give one origin beside the admin |
| `Filter.PolicyNamesEachOriginOnce` | src/lib.rs:86-89 | the policy names each allowed origin exactly once and no other |
| `Filter.ResponseHeaderCounts` | src/lib.rs:46-92 | after the response phase there is no `X-Frame-Options` and one more `content-security-policy` header |
| `Filter.Pushed` | src/lib.rs:55-81 | a stored shop pushes at most one origin, its normalised form, and a missing one pushes nothing |
| `Filter.HttpHeadersRoot.AllowedDomains` | src/lib.rs:50-83 | the pushed list holds exactly the allowed origins, at most four, and ends with the admin origin |
| `Filter.HttpHeadersRoot.OnHttpResponseHeaders` | src/lib.rs:44-94 | the headers become the old ones without `X-Frame-Options`, plus one policy header listing the allowed origins once each; the action is `Continue` |

## Left out

- The `_start` entry point and the `Context`, `RootContext` and
  `HttpContext` glue (`src/lib.rs:6-17`). They only register the filter
  with the host.
- The `info!` logging. It does not affect behaviour.
- The host calls themselves (`get_http_request_header`, `get_shared_data`,
  `set_shared_data`, `remove_http_response_header`,
  `add_http_response_header`). Headers are parameters; the store and the
  response headers are fields.
- Store writes always succeed here. The source ignores the result of
  `set_shared_data`, so a write the host refuses leaves the old value in
  place; that case is not modelled.
- The CAS token returned by `get_shared_data`. The source discards it.
- The `percent_encoding` crate's code is not part of this model. Its rule is
  assumed: `%` followed by two hex digits in either case becomes that octet
  (`Percent.PercentDecodeEscape`). Any other `%` is kept as it is, and
  decoding resumes at the next octet (`Percent.PercentDecodeStray`).
  `+` is not turned into a space.
- Header names are matched by ASCII case folding, standing in for the host's
  case-insensitive header map.
- The shared store is shared by all exchanges. The model treats one exchange
  on its own and says nothing about interleaved requests overwriting each
  other's keys.
- The hash set's iteration order. The model leaves it unspecified.
- `Filter.PolicyNamesEachOriginOnce` requires that no origin contains a space.
  The source does not promise this. A decoded shop value may contain spaces
  or `;`, and the filter copies it into the policy verbatim, so that value
  would read back as several origins or directives.
