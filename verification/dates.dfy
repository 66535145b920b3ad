/** `format_date`: the date part of an ISO 8601 timestamp such as
    `2024-03-05T12:00:00Z`, taken as the first piece of splitting at `T`. */
module Dates {
  import Strings

  /** The text before the first `T`, or all of it when there is none.
      Splitting always yields a first piece, so `format_date`'s fallback to the
      whole string is reached only through that piece. */
  function FormatDate(s: string): (r: string)
    ensures r <= s
    ensures 'T' !in r
    ensures |r| < |s| ==> s[|r|] == 'T'
  {
    Strings.Split(s, 'T')[0]
  }

  /** The three properties above pin the result down: it is the longest
      `T`-free prefix of the input. */
  lemma {:induction false} FormatDateUnique(s: string, r: string)
    requires r <= s && 'T' !in r && (|r| < |s| ==> s[|r|] == 'T')
    ensures FormatDate(s) == r
  {
  }

  /** A string without `T` is returned whole. */
  lemma WithoutTime(s: string)
    requires 'T' !in s
    ensures FormatDate(s) == s
  {
    FormatDateUnique(s, s);
  }

  /** Formatting a formatted date changes nothing. */
  lemma FormatDateIdempotent(s: string)
    ensures FormatDate(FormatDate(s)) == FormatDate(s)
  {
    WithoutTime(FormatDate(s));
  }

  /** The date part of a timestamp is what precedes its `T`. */
  lemma {:induction false} FormatTimestamp(date: string, time: string)
    requires 'T' !in date
    ensures FormatDate(date + "T" + time) == date
  {
    FormatDateUnique(date + "T" + time, date);
  }
}
