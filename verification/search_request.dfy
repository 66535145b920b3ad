/** The request URL `search_repositories` builds: the search endpoint, the
    percent-encoded query as `q`, the sort key and direction, and a fixed
    page size of 30. */
module SearchRequest {
  import opened Results
  import UrlEncoding
  import QueryString
  import Strings
  import SearchQuery
  import opened Sorting

  const Endpoint: string := "https://api.github.com/search/repositories"

  /** The fixed `per_page` value. */
  const PerPage: string := "30"

  function SearchUrl(query: string, language: string, sortBy: SortBy, order: SortOrder): string {
    Endpoint + "?" + QueryComponent(UrlEncoding.Encode(SearchQuery.Compose(query, language)), sortBy.AsStr(), order.AsStr())
  }

  /** The last parameter of every search URL. */
  const PageSizeParameter: string := "&per_page=" + PerPage

  /** `q=<q>&sort=<sort>&order=<order>&per_page=30`. */
  function QueryComponent(q: string, sort: string, order: string): (r: string)
    ensures "q=" <= r
    ensures |PageSizeParameter| <= |r| && r[|r| - |PageSizeParameter|..] == PageSizeParameter
  {
    "q=" + q + "&sort=" + sort + "&order=" + order + PageSizeParameter
  }

  /** Whatever the user typed, the URL's query component reads back as
      exactly four parameters, in order: the encoded query, the sort key,
      the direction and the page size. */
  lemma {:induction false} SearchUrlParameters(query: string, language: string, sortBy: SortBy, order: SortOrder)
    ensures QueryString.QueryParameters(SearchUrl(query, language, sortBy, order))
         == Some([("q", UrlEncoding.Encode(SearchQuery.Compose(query, language))),
                  ("sort", sortBy.AsStr()),
                  ("order", order.AsStr()),
                  ("per_page", PerPage)])
  {
    var encoded := UrlEncoding.Encode(SearchQuery.Compose(query, language));
    var rest := QueryComponent(encoded, sortBy.AsStr(), order.AsStr());
    assert "?" == ['?'];
    EndpointHasNoQuery();
    Strings.CutAround(Endpoint, rest, '?');
    UrlEncoding.EncodedHasNoDelimiters(SearchQuery.Compose(query, language));
    Sorting.AsStrUnreserved(sortBy, order);
    QueryComponentParameters(encoded, sortBy.AsStr(), order.AsStr());
  }

  lemma EndpointHasNoQuery()
    ensures '?' !in Endpoint
  {
  }

  lemma {:induction false} QueryComponentParameters(q: string, sort: string, order: string)
    requires '&' !in q && '&' !in sort && '&' !in order
    ensures QueryString.Parameters(Strings.Split(QueryComponent(q, sort, order), '&'))
         == [("q", q), ("sort", sort), ("order", order), ("per_page", PerPage)]
  {
    var p1, p2, p3, p4 := "q=" + q, "sort=" + sort, "order=" + order, "per_page=" + PerPage;
    QueryComponentParts(q, sort, order);
    Strings.CutAround("q", q, '=');
    Strings.CutAround("sort", sort, '=');
    Strings.CutAround("order", order, '=');
    Strings.CutAround("per_page", PerPage, '=');
    assert p1 == "q" + ['='] + q;
    assert p2 == "sort" + ['='] + sort;
    assert p3 == "order" + ['='] + order;
    assert p4 == "per_page" + ['='] + PerPage;
    ParametersOfFour(p1, p2, p3, p4);
  }

  lemma {:induction false} QueryComponentParts(q: string, sort: string, order: string)
    requires '&' !in q && '&' !in sort && '&' !in order
    ensures Strings.Split(QueryComponent(q, sort, order), '&')
         == ["q=" + q, "sort=" + sort, "order=" + order, "per_page=" + PerPage]
  {
    var parts := ["q=" + q, "sort=" + sort, "order=" + order, "per_page=" + PerPage];
    NoAmpersandAfterName("q=", q);
    NoAmpersandAfterName("sort=", sort);
    NoAmpersandAfterName("order=", order);
    QueryComponentIsJoin(q, sort, order);
    Strings.SplitJoin(parts, '&');
  }

  lemma {:induction false} QueryComponentIsJoin(q: string, sort: string, order: string)
    ensures QueryComponent(q, sort, order)
         == Strings.Join(["q=" + q, "sort=" + sort, "order=" + order, "per_page=" + PerPage], '&')
  {
    var parts := ["q=" + q, "sort=" + sort, "order=" + order, "per_page=" + PerPage];
    assert Strings.Join(parts[3..], '&') == parts[3];
    assert Strings.Join(parts[2..], '&') == parts[2] + "&" + parts[3];
    assert Strings.Join(parts[1..], '&') == parts[1] + "&" + parts[2] + "&" + parts[3];
  }

  lemma {:induction false} NoAmpersandAfterName(name: string, value: string)
    requires '&' !in name && '&' !in value
    ensures '&' !in name + value
  {
    assert forall i :: |name| <= i < |name + value| ==> (name + value)[i] == value[i - |name|];
  }

  lemma {:induction false} ParametersOfFour(a: string, b: string, c: string, d: string)
    ensures QueryString.Parameters([a, b, c, d])
         == [QueryString.Parameter(a), QueryString.Parameter(b), QueryString.Parameter(c), QueryString.Parameter(d)]
  {
    var ps := [a, b, c, d];
    assert ps[1..] == [b, c, d] && ps[1..][1..] == [c, d] && ps[1..][1..][1..] == [d];
    assert QueryString.Parameters([d]) == [QueryString.Parameter(d)] + QueryString.Parameters([]);
    assert QueryString.Parameters([c, d]) == [QueryString.Parameter(c)] + QueryString.Parameters([d]);
    assert QueryString.Parameters([b, c, d]) == [QueryString.Parameter(b)] + QueryString.Parameters([c, d]);
  }

  /** The server, decoding the `q` parameter it reads, gets the composed
      query back character for character. */
  lemma {:induction false} SearchUrlQueryDecodes(query: string, language: string, sortBy: SortBy, order: SortOrder)
    ensures var params := QueryString.QueryParameters(SearchUrl(query, language, sortBy, order));
            && params.Some? && |params.value| == 4 && params.value[0].0 == "q"
            && UrlEncoding.Decode(params.value[0].1) == Some(SearchQuery.Compose(query, language))
  {
    SearchUrlParameters(query, language, sortBy, order);
    UrlEncoding.RoundTrip(SearchQuery.Compose(query, language));
  }
}
