# oss-explorer: the search-request core

oss-explorer is a Leptos web page for browsing GitHub repositories. This
project models, in Dafny, the deterministic logic in `src/lib.rs` that turns
the page's search controls into a GitHub search request and turns responses
into results or error messages:

- **Query composition.** `Compose` reproduces the first lines of
  `search_repositories`: an empty free-text query becomes `stars:>100`, and a
  ` language:<lang>` clause is added unless the language is `All` or empty.
- **Percent-encoding.** The module `UrlEncoding` models `urlencoding`:
  - unreserved characters (RFC 3986, section 2.3) pass through;
  - space, `:`, `>` and `<` have fixed escapes;
  - every other character becomes the upper-case `%XX` triples of its UTF-8
    bytes (RFC 3629, section 3, modelled in `Utf8`).

  Its inverse is a percent-decoder followed by a strict UTF-8 decoder.
- **URL assembly.** `SearchRequest.SearchUrl` builds the endpoint with
  `q`, `sort`, `order` and `per_page=30`. It is checked against a query-string
  reader (`QueryString`, built on `Strings.Split`/`Strings.Cut`), which reads
  the URL back into its four parameters.
- **Sort keys.** `Sorting` holds `SortBy::as_str`, `SortOrder::as_str` and
  the select-box handlers that parse option values.
- **Status classification.** `Responses` gives the order in which
  `search_repositories`, `fetch_repository` and `fetch_contributors` map a
  send failure, an HTTP status and a deserialised (or undeserialisable)
  body to a result. The error messages are modelled as a datatype with a
  `Message` rendering and a `Classify` reader.
- **Dates.** `Dates.FormatDate` models `format_date`.

Everything is a pure function over `string`, `seq<byte>` and small
datatypes. The send, the status and the body's deserialisation are inputs.

## Model

| member | source | states |
|---|---|---|
| SearchQuery.Compose | src/lib.rs:138-146 | An empty query yields a result starting with `stars:>100`, and a non-empty one a result starting with the query verbatim. The result equals the base query iff the language is `All` or empty; otherwise what follows the base is exactly ` language:<lang>`. |
| SearchQuery.ComposeClauses | src/lib.rs:144-146 | Read as space-separated tokens (for a space-free language name), the composed query is the base's tokens plus exactly one `language:` token when the language filters, and the base's tokens otherwise. The count of `language:` tokens rises by exactly one iff the language filters. |
| SearchQuery.DefaultQueryClauses | src/lib.rs:138-146 | With an empty free-text box, the query has one `language:` clause when the language filters and none otherwise (so none for `All`). |
| SearchQuery.LanguagesAreTokens | src/lib.rs:104-130 | The language select offers 25 options (`SearchQuery.Languages`), the first of which is `All`. None contains a space, and every option except `All` adds a clause. |
| SearchQuery.LanguageClausesAppend | src/lib.rs:144-146 | Counting `language:` clauses distributes over concatenating token lists. |
| UrlEncoding.Encode | src/lib.rs:250-267 | The encoding is never shorter than its input. RoundTrip gives it its meaning: decoding it returns the input. |
| UrlEncoding.EncodeChar | src/lib.rs:253-263 | An unreserved character encodes as itself. Any other character encodes as the `%XX` triples of its UTF-8 bytes, which is what the fixed escapes also produce. |
| UrlEncoding.UrlEncoding | src/lib.rs:250-267 | The loop that appends each character's encoding computes the encoding of the whole string. |
| UrlEncoding.FixedEscapes | src/lib.rs:255-261 | Space, `:`, `>` and `<` give `%20`, `%3A`, `%3E`, `%3C`. The general rule turns `=` into `%3D` and `&` into `%26`. |
| UrlEncoding.EscapeAscii | src/lib.rs:259-262 | A reserved ASCII character is escaped as the single triple of its code. |
| UrlEncoding.EscapeByte | src/lib.rs:261 | `%` followed by two upper-case hex digits whose value is the byte. |
| UrlEncoding.EscapeBytes | src/lib.rs:260-262 | Three characters per byte: triple k is exactly the `%XX` escape of byte k. The output holds only `%` and upper-case hex digits, and each `%` starts a complete triple. |
| UrlEncoding.EncodeCharAlphabet | src/lib.rs:253-263 | A character's encoding contains only unreserved characters and complete upper-case `%XX` triples. |
| UrlEncoding.EncodeAlphabet | src/lib.rs:250-267 | The whole encoding contains only unreserved characters and complete upper-case `%XX` triples. |
| UrlEncoding.EncodedHasNoDelimiters | src/lib.rs:148-153 | An encoded query never contains space, `&`, `=`, `#`, `?` or `+`, so it cannot break the URL's parameter structure. |
| UrlEncoding.EncodeAppend | src/lib.rs:252-266 | Encoding distributes over concatenation. |
| UrlEncoding.EncodeSnoc | src/lib.rs:252-265 | Encoding one more character appends that character's encoding. |
| UrlEncoding.EncodeSingle | src/lib.rs:252-265 | A one-character string encodes as that character's encoding. |
| UrlEncoding.EncodeLength | src/lib.rs:252-266 | The encoding is exactly as long as the input iff every character is unreserved. |
| UrlEncoding.EncodeUnreserved | src/lib.rs:254 | A string of unreserved characters is its own encoding. |
| UrlEncoding.PercentDecodeEscapeByte | src/lib.rs:261 | Percent-decoding a `%XX` triple yields its byte, then continues with the rest. |
| UrlEncoding.PercentDecodeEscapeBytes | src/lib.rs:260-262 | Percent-decoding the triples of a byte sequence yields those bytes, then continues with the rest. |
| UrlEncoding.PercentDecodeEncodeChar | src/lib.rs:253-263 | Percent-decoding a character's encoding yields its UTF-8 bytes. |
| UrlEncoding.PercentDecodeEncode | src/lib.rs:250-267 | Percent-decoding the encoding of a string yields exactly the string's UTF-8 bytes. |
| UrlEncoding.RoundTrip | src/lib.rs:250-267 | Percent-decoding and then UTF-8-decoding the encoding gives the input back. |
| UrlEncoding.EncodeInjective | src/lib.rs:250-267 | Different strings have different encodings. |
| UrlEncoding.ComparatorEncoding | src/lib.rs:257-261 | `>=` is encoded as `%3E%3D`. |
| UrlEncoding.ComparatorExample | src/lib.rs:250-267 | In any query such as `language:Rust stars:>=1000`, `>=` is sent as `%3E%3D` between its neighbours' encodings, and the round trip restores the `>=`. |
| Utf8.EncodeChar | src/lib.rs:260 | A character takes 1 to 4 bytes according to its code point. A one-byte form is the code itself; a longer form has a valid lead byte and continuation bytes. |
| Utf8.DecodeCharEncodeChar | src/lib.rs:260 | Decoding a character's bytes, whatever follows them, returns the character and its byte count. |
| Utf8.EncodeCharDecodeChar | src/lib.rs:260 | A character the strict decoder accepts re-encodes to exactly the bytes it was read from. |
| Utf8.DecodeEncode | src/lib.rs:259-262 | Decoding the UTF-8 bytes of a string returns the string. |
| Utf8.EncodeDecode | src/lib.rs:259-262 | A byte sequence the strict decoder accepts is the encoding of what it decodes to. |
| Utf8.EncodeAppend | src/lib.rs:259-262 | UTF-8 encoding distributes over concatenation. |
| SearchRequest.SearchUrlParameters | src/lib.rs:148-153 | `SearchUrl` is the format string of these lines. For every query, language, key and direction, the URL's query component reads back as exactly four parameters: `q` (the encoded composed query), `sort` (`as_str` of the key), `order` (`as_str` of the direction) and `per_page` = `30`. |
| SearchRequest.SearchUrlQueryDecodes | src/lib.rs:148-153 | Decoding the `q` parameter read back from the URL gives the composed query character for character. |
| SearchRequest.QueryComponent | src/lib.rs:149 | The query component starts with `q=` and ends with `&per_page=30`. QueryComponentParameters reads it back as four parameters. |
| SearchRequest.QueryComponentParameters | src/lib.rs:149 | A query component whose values contain no `&` parses into the four given name/value pairs. |
| Sorting.ParseSortBy | src/lib.rs:399-406 | A value outside the five option values gives `Stars`. Each of the five gives the key whose option value it is; `forks` gives `Forks`, for example. |
| Sorting.SortBy.AsStr | src/lib.rs:77-85 | The `sort` value equals the key's select option value for every key except `Issues`, which is sent as `help-wanted-issues`. |
| Sorting.SortBy.OptionValue | src/lib.rs:409-413 | Every key's option value is one of the five values the select offers. ParseOptionValue reads each back as its key. |
| Sorting.SortOrder.AsStr | src/lib.rs:95-100 | The `order` value is `desc` or `asc`, and it is `asc` exactly for `Asc`. ParseOrderAsStr reads it back as the direction. |
| Sorting.ParseThenAsStr | src/lib.rs:399-421 | Along the page's real path (select value, then key, then `sort=`), `stars`, `forks`, `created` and `updated` are sent unchanged, `issues` is sent as `help-wanted-issues`, and `asc`/`desc` are sent unchanged. |
| Sorting.ParseSortOrder | src/lib.rs:421 | The direction is ascending iff the value is exactly `asc`. |
| Sorting.SortByAsStrInjective | src/lib.rs:77-85 | Different sort keys send different `sort` values. |
| Sorting.SortOrderAsStrInjective | src/lib.rs:95-100 | Different directions send different `order` values. |
| Sorting.ParseOptionValue | src/lib.rs:399-413 | Every option the "Sort by" select offers parses back to its own key. |
| Sorting.ParseAsStr | src/lib.rs:77-85 | Parsing a key's API value returns the key iff the key is not `Issues`. `help-wanted-issues` falls back to `Stars`. |
| Sorting.ParseOrderAsStr | src/lib.rs:95-100 | Parsing a direction's value returns the direction. |
| Sorting.AsStrUnreserved | src/lib.rs:77-100 | `sort` and `order` values consist of unreserved characters and contain no `&`. |
| Responses.SearchRepositories | src/lib.rs:155-173 | A failed send is `Request failed`. 403 is the rate-limit error before any other check. Another non-2xx status is an API error carrying the status. A 2xx body that fails to deserialise is a parse error, never an empty result. The result is Ok iff the status is 2xx and the body deserialised. |
| Responses.FetchRepository | src/lib.rs:179-201 | As the search, but 404 is checked first and reported as a missing repository, ahead of the 403 rate-limit check. |
| Responses.FetchContributors | src/lib.rs:210-224 | Any non-2xx status gives an empty list. Only a failed send or an undeserialisable 2xx body is an error. |
| Responses.ContributorsAndSearch | src/lib.rs:162-224 | For the same exchange, the contributor fetch fails exactly when the search fails on a failed send or an undeserialisable body. Where the search fails on the status alone, the contributor list is empty. |
| Responses.SearchAndLookupAgree | src/lib.rs:162-196 | For every failing status, the lookup and the search report the same error, except 404, which only the lookup calls a missing repository. |
| Responses.Message | src/lib.rs:160-201 | A failed send or parse shows its fixed prefix followed by the detail text. An API error shows `GitHub API error: ` followed by a numeral that reads back as the status. ClassifyMessage reads every message back to its error. |
| Responses.ClassifyMessage | src/lib.rs:160-201 | Every error message can be read back to the error it came from, including the exact status and the detail text. |
| Responses.MessageInjective | src/lib.rs:160-201 | Different errors produce different messages. |
| Decimal.ParseShow | src/lib.rs:167 | Reading the decimal rendering of a status gives the status back. |
| Decimal.ShowInjective | src/lib.rs:167 | Different statuses render differently. |
| Decimal.Show | src/lib.rs:167 | A rendering is a non-empty run of digits with a leading `0` only for zero. |
| Dates.FormatDate | src/lib.rs:269-275 | The result is a prefix of the input that contains no `T` and stops at the first `T` if there is one. |
| Dates.FormatDateUnique | src/lib.rs:269-275 | Those three properties single out the result: it is the longest `T`-free prefix. |
| Dates.WithoutTime | src/lib.rs:269-275 | A string without `T` is returned whole. |
| Dates.FormatDateIdempotent | src/lib.rs:269-275 | Formatting a formatted date changes nothing. |
| Dates.FormatTimestamp | src/lib.rs:269-275 | For `<date>T<time>` with a `T`-free date, the result is the date. |
| Strings.Split | src/lib.rs:270 | There is always a first piece. It is a separator-free prefix of the input that stops at the first separator, if there is one. |
| Strings.SplitAround | src/lib.rs:270 | A separator between two strings separates their parts. |
| Strings.SplitJoin | src/lib.rs:270 | Splitting a join of separator-free parts gives the parts back. |
| Strings.JoinSplit | src/lib.rs:270 | Joining the parts of a split gives back the original string. |

## Left out

- Network I/O is left out: the `reqwasm` request, its headers, `.send().await` and `.text()`. The send's failure text, the status and the deserialised body are inputs (`Responses.Exchange`).
- `fetch_readme` is left out. It is an HTML fetch whose only logic is "non-2xx means `README not found`", and the page only displays its result.
- serde JSON deserialisation is left out because it is a foreign library. The records are modelled as datatypes; whether parsing succeeded, with its error text, is an input.
- The `{:?}` Debug text of transport and serde errors is left out. It is carried as an opaque detail string.
- The Leptos components, signals, `Effect`, `spawn_local`, routing and markup are left out: UI and async scheduling with no sequential logic. The select-box handlers are kept as `Sorting.ParseSortBy` and `Sorting.ParseSortOrder`.
- `format_number` and `format_size` are left out because they format `f64` quotients with `{:.1}`.
- The URLs of `fetch_repository` and `fetch_contributors` are left out. They interpolate the owner and repository names unencoded and have no logic beyond that.
- `Dates.FormatDate` has no else branch for the `None` case. `split` always yields a first piece, so that branch of `format_date` cannot be reached.
- Integer widths: `u16`, `u32` and `u64` are subset types of `int` with their ranges. No arithmetic on them can wrap.
