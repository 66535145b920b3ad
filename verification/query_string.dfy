/** Reading back the query component of a URL: the part after the first
    `?`, split into `&`-separated parameters, each cut at its first `=`.
    This is how a server reads the request `search_repositories` sends; it
    is the reader against which the URL assembly is checked. */
module QueryString {
  import opened Results
  import opened Strings

  /** One `name=value` parameter; a parameter without `=` has an empty value. */
  function Parameter(p: string): (string, string) {
    var (name, value) := Cut(p, '=');
    match value
    case None => (name, [])
    case Some(v) => (name, v)
  }

  function Parameters(parts: seq<string>): seq<(string, string)> {
    if |parts| == 0 then [] else [Parameter(parts[0])] + Parameters(parts[1..])
  }

  /** The parameters of a URL's query component, in order; `None` when the
      URL has no `?`. */
  function QueryParameters(url: string): Option<seq<(string, string)>> {
    match Cut(url, '?').1
    case None => None
    case Some(query) => Some(Parameters(Split(query, '&')))
  }
}
