/** The sort key and sort direction of a search: their `sort` / `order`
    parameter values (`SortBy::as_str`, `SortOrder::as_str`) and the parsing
    of the select-box values the page offers for them. */
module Sorting {
  import UrlEncoding

  /** The option values of the "Sort by" select. */
  const OptionValues: set<string> := {"stars", "forks", "issues", "created", "updated"}

  datatype SortBy = Stars | Forks | Issues | Created | Updated {

    /** The value of the search API's `sort` parameter: the key's option
        value for every key but `Issues`. */
    function AsStr(): (r: string)
      ensures r == OptionValue() <==> this != Issues
    {
      match this
      case Stars => "stars"
      case Forks => "forks"
      case Issues => "help-wanted-issues"
      case Created => "created"
      case Updated => "updated"
    }

    /** The `value` attribute of this key's option in the "Sort by" select:
        one of the five values the select offers. */
    function OptionValue(): (r: string)
      ensures r in OptionValues
    {
      match this
      case Stars => "stars"
      case Forks => "forks"
      case Issues => "issues"
      case Created => "created"
      case Updated => "updated"
    }
  }

  datatype SortOrder = Desc | Asc {

    /** The value of the search API's `order` parameter, which is also the
        `value` of the direction's option in the "Order" select. */
    function AsStr(): (r: string)
      ensures r in {"desc", "asc"}
      ensures r == "asc" <==> this == Asc
    {
      match this
      case Desc => "desc"
      case Asc => "asc"
    }
  }

  /** The "Sort by" select handler: known option values map to their key,
      anything else falls back to `Stars`. */
  function ParseSortBy(value: string): (r: SortBy)
    ensures value !in OptionValues ==> r == Stars
    ensures value in OptionValues ==> r.OptionValue() == value
  {
    match value
    case "stars" => Stars
    case "forks" => Forks
    case "issues" => Issues
    case "created" => Created
    case "updated" => Updated
    case _ => Stars
  }

  /** The "Order" select handler: only `"asc"` means ascending. */
  function ParseSortOrder(value: string): (r: SortOrder)
    ensures r == Asc <==> value == "asc"
  {
    if value == "asc" then Asc else Desc
  }

  /** Different sort keys are sent as different `sort` values. */
  lemma SortByAsStrInjective(a: SortBy, b: SortBy)
    requires a.AsStr() == b.AsStr()
    ensures a == b
  {
  }

  lemma SortOrderAsStrInjective(a: SortOrder, b: SortOrder)
    requires a.AsStr() == b.AsStr()
    ensures a == b
  {
  }

  /** Every option the select offers parses back to its own key. */
  lemma ParseOptionValue(s: SortBy)
    ensures ParseSortBy(s.OptionValue()) == s
  {
  }

  /** Parsing the API value gives the key back for every key except
      `Issues`, whose API value `help-wanted-issues` is not an option value
      and falls back to `Stars`. */
  lemma ParseAsStr(s: SortBy)
    ensures ParseSortBy(s.AsStr()) == s <==> s != Issues
    ensures ParseSortBy(Issues.AsStr()) == Stars
  {
  }

  /** What the page sends for each select value: the option value itself
      as `sort` for every key but `Issues`, `help-wanted-issues` for
      `issues`, and the option value itself as `order`. */
  lemma ParseThenAsStr(v: string)
    ensures v in {"stars", "forks", "created", "updated"} ==> ParseSortBy(v).AsStr() == v
    ensures ParseSortBy("issues").AsStr() == "help-wanted-issues"
    ensures v in {"asc", "desc"} ==> ParseSortOrder(v).AsStr() == v
  {
  }

  lemma ParseOrderAsStr(o: SortOrder)
    ensures ParseSortOrder(o.AsStr()) == o
  {
  }

  /** The `sort` and `order` values consist of unreserved characters, so
      they need no escaping in the URL. */
  lemma {:induction false} AsStrUnreserved(s: SortBy, o: SortOrder)
    ensures forall i :: 0 <= i < |s.AsStr()| ==> UrlEncoding.IsUnreserved(s.AsStr()[i])
    ensures forall i :: 0 <= i < |o.AsStr()| ==> UrlEncoding.IsUnreserved(o.AsStr()[i])
    ensures '&' !in s.AsStr() && '&' !in o.AsStr()
  {
  }
}
