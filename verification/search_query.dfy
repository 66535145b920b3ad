/** Composition of the GitHub search query from the free-text box and the
    language select, as the first lines of `search_repositories` do it. */
module SearchQuery {
  import Strings

  /** Used when the free-text box is empty. */
  const DefaultQuery: string := "stars:>100"

  /** The language select's sentinel for "no language constraint". */
  const AllLanguages: string := "All"

  /** The options of the language select, `LANGUAGES`. */
  const Languages: seq<string> := [
    "All", "Rust", "Python", "JavaScript", "TypeScript", "Go", "Java", "C", "C++",
    "C#", "Ruby", "PHP", "Swift", "Kotlin", "Scala", "Haskell", "Elixir", "Clojure",
    "Lua", "R", "Julia", "Dart", "Zig", "Nim", "OCaml"]

  /** True when the selected language adds a `language:` clause. */
  predicate FiltersLanguage(language: string) {
    language != AllLanguages && |language| > 0
  }

  /** The free-text query, or the default when it is empty. */
  function BaseQuery(query: string): string {
    if |query| == 0 then DefaultQuery else query
  }

  function LanguageClause(language: string): string {
    "language:" + language
  }

  /** The query sent to the search API. */
  function Compose(query: string, language: string): (q: string)
    ensures |query| == 0 ==> DefaultQuery <= q
    ensures |query| > 0 ==> query <= q
    ensures !FiltersLanguage(language) <==> q == BaseQuery(query)
    ensures FiltersLanguage(language) ==> q[|BaseQuery(query)|..] == " " + LanguageClause(language)
  {
    var base := BaseQuery(query);
    if FiltersLanguage(language) then base + " " + LanguageClause(language) else base
  }

  /** The number of `language:` clauses among space-separated tokens. */
  function LanguageClauses(tokens: seq<string>): nat {
    if |tokens| == 0 then 0
    else (if "language:" <= tokens[0] then 1 else 0) + LanguageClauses(tokens[1..])
  }

  lemma {:induction false} LanguageClausesAppend(a: seq<string>, b: seq<string>)
    ensures LanguageClauses(a + b) == LanguageClauses(a) + LanguageClauses(b)
    decreases |a|
  {
    if |a| == 0 {
      assert a + b == b;
    } else {
      assert (a + b)[0] == a[0] && (a + b)[1..] == a[1..] + b;
      LanguageClausesAppend(a[1..], b);
    }
  }

  /** Read as space-separated clauses, the composed query is the base
      query's clauses followed by exactly one `language:` clause when the
      language filters, and by nothing otherwise (the language names offered
      contain no space). */
  lemma {:induction false} ComposeClauses(query: string, language: string)
    requires ' ' !in language
    ensures FiltersLanguage(language) ==>
      Strings.Split(Compose(query, language), ' ')
        == Strings.Split(BaseQuery(query), ' ') + [LanguageClause(language)]
    ensures !FiltersLanguage(language) ==>
      Strings.Split(Compose(query, language), ' ') == Strings.Split(BaseQuery(query), ' ')
    ensures LanguageClauses(Strings.Split(Compose(query, language), ' '))
         == LanguageClauses(Strings.Split(BaseQuery(query), ' ')) + (if FiltersLanguage(language) then 1 else 0)
  {
    if FiltersLanguage(language) {
      var base, clause := BaseQuery(query), LanguageClause(language);
      assert ' ' !in clause by {
        assert forall i :: 9 <= i < |clause| ==> clause[i] == language[i - 9];
      }
      Strings.SplitAround(base, clause, ' ');
      Strings.SplitWithoutSeparator(clause, ' ');
      assert base + " " + clause == base + [' '] + clause;
      LanguageClausesAppend(Strings.Split(base, ' '), [clause]);
      assert [clause][1..] == [];
    }
  }

  /** With the free-text box empty, the query has a `language:` clause
      exactly when the language filters: never for "All". */
  lemma {:induction false} DefaultQueryClauses(language: string)
    requires ' ' !in language
    ensures LanguageClauses(Strings.Split(Compose([], language), ' '))
         == if FiltersLanguage(language) then 1 else 0
  {
    ComposeClauses([], language);
    Strings.SplitWithoutSeparator(DefaultQuery, ' ');
    assert !("language:" <= DefaultQuery);
    assert [DefaultQuery][1..] == [];
  }

  /** Every language the select offers is a single clause token, and "All"
      is the only one that adds no clause. */
  lemma LanguagesAreTokens()
    ensures |Languages| == 25 && Languages[0] == AllLanguages
    ensures forall i :: 0 <= i < |Languages| ==> ' ' !in Languages[i]
    ensures forall i :: 0 <= i < |Languages| ==> (FiltersLanguage(Languages[i]) <==> i != 0)
  {
  }
}
