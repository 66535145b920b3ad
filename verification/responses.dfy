/** The records the GitHub API returns, and the order in which
    `search_repositories`, `fetch_repository` and `fetch_contributors` turn
    an HTTP status and a body into a result or an error message.

    Sending the request and deserialising the JSON body belong to foreign
    libraries; here they are inputs: an `Exchange` says whether the request
    went out, which status came back, and whether the body deserialised. */
module Responses {
  import opened Results
  import Decimal

  type u16 = n: int | 0 <= n < 0x1_0000
  type u32 = n: int | 0 <= n < 0x1_0000_0000
  type u64 = n: int | 0 <= n < 0x1_0000_0000_0000_0000

  datatype Owner = Owner(login: string, avatarUrl: string, htmlUrl: Option<string>)

  datatype License = License(key: string, name: string, spdxId: Option<string>)

  datatype Repository = Repository(
    id: u64,
    name: string,
    fullName: string,
    htmlUrl: string,
    description: Option<string>,
    language: Option<string>,
    stargazersCount: u32,
    forksCount: u32,
    openIssuesCount: u32,
    createdAt: string,
    updatedAt: string,
    owner: Owner,
    topics: Option<seq<string>>,
    license: Option<License>,
    defaultBranch: Option<string>,
    watchersCount: Option<u32>,
    subscribersCount: Option<u32>,
    size: Option<u32>,
    fork: bool,
    archived: bool,
    hasWiki: bool,
    hasIssues: bool)

  datatype SearchResponse = SearchResponse(totalCount: u32, incompleteResults: bool, items: seq<Repository>)

  datatype Contributor = Contributor(login: string, avatarUrl: string, htmlUrl: string, contributions: u32)

  /** `Response::ok()`: a status in the 200–299 range. */
  predicate IsSuccess(status: u16) {
    200 <= status <= 299
  }

  /** One request: either it could not be sent (with the transport's error
      text), or a status arrived with a body that deserialised to a `T` or
      failed to (with the deserialiser's error text). */
  datatype Exchange<T> =
    | Unsent(detail: string)
    | Received(status: u16, body: Result<T, string>)

  datatype FetchError =
    | RequestFailed(detail: string)
    | RateLimitExceeded
    | RepositoryNotFound
    | ApiError(status: u16)
    | ParseFailed(detail: string)

  const RequestFailedPrefix: string := "Request failed: "
  const RateLimitMessage: string := "Rate limit exceeded. Please try again later."
  const NotFoundMessage: string := "Repository not found."
  const ApiErrorPrefix: string := "GitHub API error: "
  const ParseFailedPrefix: string := "Failed to parse response: "

  /** The text the page shows for an error. */
  function Message(e: FetchError): (m: string)
    ensures e.ApiError? ==> ApiErrorPrefix <= m && Decimal.Parse(m[|ApiErrorPrefix|..]) == Some(e.status as nat)
    ensures e.RequestFailed? ==> RequestFailedPrefix <= m && m[|RequestFailedPrefix|..] == e.detail
    ensures e.ParseFailed? ==> ParseFailedPrefix <= m && m[|ParseFailedPrefix|..] == e.detail
  {
    match e
    case RequestFailed(d) => RequestFailedPrefix + d
    case RateLimitExceeded => RateLimitMessage
    case RepositoryNotFound => NotFoundMessage
    case ApiError(s) => Decimal.ParseShow(s); ApiErrorPrefix + Decimal.Show(s)
    case ParseFailed(d) => ParseFailedPrefix + d
  }

  /** The body's deserialisation, reached only after the status checks. */
  function Parsed<T>(body: Result<T, string>): Result<T, FetchError> {
    match body
    case Ok(v) => Ok(v)
    case Err(d) => Err(ParseFailed(d))
  }

  /** `search_repositories`: 403 is reported as the rate limit before any
      other check, any other non-2xx status as an API error carrying the
      status, and a 2xx body that does not deserialise as a parse error. */
  function SearchRepositories(x: Exchange<SearchResponse>): (r: Result<SearchResponse, FetchError>)
    ensures r.Ok? <==> x.Received? && IsSuccess(x.status) && x.body.Ok?
    ensures r.Ok? ==> r.value == x.body.value
    ensures x.Unsent? ==> r == Err(RequestFailed(x.detail))
    ensures x.Received? && x.status == 403 ==> r == Err(RateLimitExceeded)
    ensures x.Received? && x.status != 403 && !IsSuccess(x.status) ==> r == Err(ApiError(x.status))
    ensures x.Received? && IsSuccess(x.status) && x.body.Err? ==> r == Err(ParseFailed(x.body.error))
  {
    match x
    case Unsent(d) => Err(RequestFailed(d))
    case Received(status, body) =>
      if status == 403 then Err(RateLimitExceeded)
      else if !IsSuccess(status) then Err(ApiError(status))
      else Parsed(body)
  }

  /** `fetch_repository`: as the search, but 404 is checked first and
      reported as a missing repository. */
  function FetchRepository(x: Exchange<Repository>): (r: Result<Repository, FetchError>)
    ensures r.Ok? <==> x.Received? && IsSuccess(x.status) && x.body.Ok?
    ensures r.Ok? ==> r.value == x.body.value
    ensures x.Unsent? ==> r == Err(RequestFailed(x.detail))
    ensures x.Received? && x.status == 404 ==> r == Err(RepositoryNotFound)
    ensures x.Received? && x.status == 403 ==> r == Err(RateLimitExceeded)
    ensures x.Received? && x.status !in {403, 404} && !IsSuccess(x.status) ==> r == Err(ApiError(x.status))
    ensures x.Received? && IsSuccess(x.status) && x.body.Err? ==> r == Err(ParseFailed(x.body.error))
  {
    match x
    case Unsent(d) => Err(RequestFailed(d))
    case Received(status, body) =>
      if status == 404 then Err(RepositoryNotFound)
      else if status == 403 then Err(RateLimitExceeded)
      else if !IsSuccess(status) then Err(ApiError(status))
      else Parsed(body)
  }

  /** `fetch_contributors`: any non-2xx status yields an empty list rather
      than an error; only a failed send or an undeserialisable 2xx body is
      an error. */
  function FetchContributors(x: Exchange<seq<Contributor>>): (r: Result<seq<Contributor>, FetchError>)
    ensures r.Err? <==> x.Unsent? || (IsSuccess(x.status) && x.body.Err?)
    ensures x.Received? && !IsSuccess(x.status) ==> r == Ok([])
    ensures x.Received? && IsSuccess(x.status) && x.body.Ok? ==> r == Ok(x.body.value)
    ensures r.Err? ==> r.error.RequestFailed? || r.error.ParseFailed?
  {
    match x
    case Unsent(d) => Err(RequestFailed(d))
    case Received(status, body) =>
      if !IsSuccess(status) then Ok([]) else Parsed(body)
  }

  /** The repository lookup and the search report every failing status the
      same way, except 404, which only the lookup calls a missing repository. */
  lemma SearchAndLookupAgree(status: u16, b: Result<SearchResponse, string>, c: Result<Repository, string>)
    requires !IsSuccess(status)
    ensures SearchRepositories(Received(status, b)).Err? && FetchRepository(Received(status, c)).Err?
    ensures FetchRepository(Received(status, c)).error
         == if status == 404 then RepositoryNotFound else SearchRepositories(Received(status, b)).error
  {
  }

  /** The contributor list fails exactly where the search would fail for a
      reason other than the status (a failed send or a body that does not
      deserialise), and is empty wherever the search fails on the status. */
  lemma ContributorsAndSearch(x: Exchange<SearchResponse>, y: Exchange<seq<Contributor>>)
    requires x.Unsent? <==> y.Unsent?
    requires x.Unsent? ==> x.detail == y.detail
    requires x.Received? ==> x.status == y.status && (x.body.Err? <==> y.body.Err?)
    ensures FetchContributors(y).Err? <==>
            SearchRepositories(x).Err? && (SearchRepositories(x).error.RequestFailed? || SearchRepositories(x).error.ParseFailed?)
    ensures x.Unsent? ==> FetchContributors(y).Err? && FetchContributors(y).error == SearchRepositories(x).error
    ensures SearchRepositories(x).Err? && FetchContributors(y).Ok? ==> FetchContributors(y).value == []
  {
  }

  /** Reads an error back from its message; the inverse of `Message`. */
  function Classify(m: string): Option<FetchError> {
    if RequestFailedPrefix <= m then Some(RequestFailed(m[|RequestFailedPrefix|..]))
    else if ParseFailedPrefix <= m then Some(ParseFailed(m[|ParseFailedPrefix|..]))
    else if m == RateLimitMessage then Some(RateLimitExceeded)
    else if m == NotFoundMessage then Some(RepositoryNotFound)
    else if ApiErrorPrefix <= m then
      match Decimal.Parse(m[|ApiErrorPrefix|..])
      case Some(n) => if n < 0x1_0000 then Some(ApiError(n)) else None
      case None => None
    else None
  }

  /** Every error's message tells which error it was, including the exact
      status of an API error and the detail of a failed send or parse. */
  lemma {:induction false} ClassifyMessage(e: FetchError)
    ensures Classify(Message(e)) == Some(e)
  {
    match e {
      case RequestFailed(d) => ClassifyRequestFailed(d);
      case ParseFailed(d) => ClassifyParseFailed(d);
      case RateLimitExceeded => ClassifyRateLimit();
      case RepositoryNotFound => ClassifyNotFound();
      case ApiError(s) => ClassifyApiError(s);
    }
  }

  lemma {:induction false} ClassifyRequestFailed(d: string)
    ensures Classify(Message(RequestFailed(d))) == Some(RequestFailed(d))
  {
    var m := Message(RequestFailed(d));
    assert m[..|RequestFailedPrefix|] == RequestFailedPrefix;
  }

  lemma {:induction false} ClassifyParseFailed(d: string)
    ensures Classify(Message(ParseFailed(d))) == Some(ParseFailed(d))
  {
    var m := Message(ParseFailed(d));
    assert m[0] == 'F' != RequestFailedPrefix[0];
    assert m[..|ParseFailedPrefix|] == ParseFailedPrefix;
  }

  lemma {:induction false} ClassifyRateLimit()
    ensures Classify(Message(RateLimitExceeded)) == Some(RateLimitExceeded)
  {
    var m := Message(RateLimitExceeded);
    assert m == RateLimitMessage;
    assert !(RequestFailedPrefix <= m) by { assert m[1] == 'a' != RequestFailedPrefix[1]; }
    assert !(ParseFailedPrefix <= m) by { assert m[0] == 'R' != ParseFailedPrefix[0]; }
  }

  lemma {:induction false} ClassifyNotFound()
    ensures Classify(Message(RepositoryNotFound)) == Some(RepositoryNotFound)
  {
    var m := Message(RepositoryNotFound);
    assert m == NotFoundMessage;
    assert m[2] != RequestFailedPrefix[2];
    assert m[0] != ParseFailedPrefix[0];
    assert m != RateLimitMessage by { assert m[1] != RateLimitMessage[1]; }
  }

  lemma {:induction false} ClassifyApiError(s: u16)
    ensures Classify(Message(ApiError(s))) == Some(ApiError(s))
  {
    var m := Message(ApiError(s));
    assert m[0] != RequestFailedPrefix[0];
    assert m[0] != ParseFailedPrefix[0];
    assert m != RateLimitMessage by { assert m[0] != RateLimitMessage[0]; }
    assert m != NotFoundMessage by { assert m[0] != NotFoundMessage[0]; }
  }

  /** Different errors are shown with different messages. */
  lemma MessageInjective(a: FetchError, b: FetchError)
    requires Message(a) == Message(b)
    ensures a == b
  {
    ClassifyMessage(a);
    ClassifyMessage(b);
  }
}
