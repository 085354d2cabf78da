/**
  The response sanitizer of the keyword tool: `clean_json_string`, which pulls the
  payload out of a Markdown code fence tagged `json` in a model's free-text reply.

  The source does this with one `re.search` of the pattern
      ```json \s* (.*?) \s* ```        (re.DOTALL, so `.` matches newlines too)
  and returns group 1 on a match, the input itself otherwise. No regex engine is
  used here: `Search` computes the match directly, and `IsMatch` together with
  `TriedNoLaterThan` says declaratively which match Python's backtracking engine
  reports (proved equal in module SanitizerProperties).
*/
module Sanitizer {

  datatype Option<T> = None | Some(value: T)

  /** The opening fence with its language tag; matched case-sensitively. */
  const Opener: string := "```json"

  /** The closing fence. */
  const Closer: string := "```"

  /**
    The regex class `\s`. Python's `\s` on `str` patterns matches every Unicode
    whitespace character (everything `str.isspace` accepts, such as U+00A0,
    U+1680, U+2028 and U+001C..U+001F); this model takes its ASCII members:
    space, tab, line feed, carriage return, vertical tab and form feed. The
    general properties proved about `Clean` use only that a backtick is not
    whitespace.
  */
  predicate IsWs(c: char) {
    c == ' ' || c == '\t' || c == '\n' || c == '\r' || c == '\U{B}' || c == '\U{C}'
  }

  /** `t` occurs in `s` starting at index `k`. */
  predicate OccursAt(s: string, k: nat, t: string) {
    k + |t| <= |s| && s[k..k + |t|] == t
  }

  /** No occurrence of `t` in `s` starts at an index in [lo, hi). */
  predicate NoneFrom(s: string, t: string, lo: nat, hi: nat) {
    forall m :: lo <= m < hi ==> !OccursAt(s, m, t)
  }

  /** `t` is not a substring of `s`. */
  predicate Free(s: string, t: string) {
    NoneFrom(s, t, 0, |s| + 1)
  }

  /** Every character of `s[lo..hi]` is whitespace. */
  predicate AllWs(s: string, lo: nat, hi: nat)
    requires lo <= hi <= |s|
  {
    forall m :: lo <= m < hi ==> IsWs(s[m])
  }

  /** The first index at or after `k` where `t` occurs in `s`. */
  function FindFrom(s: string, t: string, k: nat): (r: Option<nat>)
    requires k <= |s|
    ensures r.Some? ==> k <= r.value && OccursAt(s, r.value, t) && NoneFrom(s, t, k, r.value)
    ensures r.None? ==> NoneFrom(s, t, k, |s| + 1)
    decreases |s| - k
  {
    if OccursAt(s, k, t) then Some(k)
    else if k == |s| then None
    else FindFrom(s, t, k + 1)
  }

  /** The end of the maximal whitespace run that starts at `k` (a greedy `\s*`). */
  function SkipWs(s: string, k: nat): (r: nat)
    requires k <= |s|
    ensures k <= r <= |s| && AllWs(s, k, r)
    ensures r < |s| ==> !IsWs(s[r])
    decreases |s| - k
  {
    if k < |s| && IsWs(s[k]) then SkipWs(s, k + 1) else k
  }

  /**
    The start of the maximal whitespace run that ends at `hi`, but never below
    `lo`: where a lazy group followed by `\s*` stops in front of a closer at `hi`.
  */
  function SkipWsBack(s: string, lo: nat, hi: nat): (r: nat)
    requires lo <= hi <= |s|
    ensures lo <= r <= hi && AllWs(s, r, hi)
    ensures lo < r ==> !IsWs(s[r - 1])
    decreases hi
  {
    if lo < hi && IsWs(s[hi - 1]) then SkipWsBack(s, lo, hi - 1) else hi
  }

  /**
    One way the pattern can match `s`: the opener at `start`, the leading `\s*`
    over [start + 7, groupStart), group 1 over [groupStart, groupEnd), the
    trailing `\s*` over [groupEnd, closer), and the closer at `closer`.
  */
  datatype Match = Match(start: nat, groupStart: nat, groupEnd: nat, closer: nat)

  predicate IsMatch(s: string, m: Match) {
    && m.start + |Opener| <= m.groupStart <= m.groupEnd <= m.closer
    && OccursAt(s, m.start, Opener)
    && OccursAt(s, m.closer, Closer)
    && AllWs(s, m.start + |Opener|, m.groupStart)
    && AllWs(s, m.groupEnd, m.closer)
  }

  /**
    The order in which `re.search` tries matches: leftmost start first; at one
    start, the greedy leading `\s*` longest first; then the lazy group shortest
    first; then the greedy trailing `\s*` longest first. The first match tried
    is the one reported.
  */
  predicate TriedNoLaterThan(m: Match, n: Match) {
    || m.start < n.start
    || (m.start == n.start && m.groupStart > n.groupStart)
    || (m.start == n.start && m.groupStart == n.groupStart && m.groupEnd < n.groupEnd)
    || (m.start == n.start && m.groupStart == n.groupStart && m.groupEnd == n.groupEnd
        && m.closer >= n.closer)
  }

  /** A closer cannot begin inside a whitespace run, because a backtick is not whitespace. */
  lemma CloserNotInWs(s: string, lo: nat, hi: nat, p: nat)
    requires lo <= hi <= |s| && AllWs(s, lo, hi)
    requires lo <= p && OccursAt(s, p, Closer)
    ensures hi <= p
  {
    assert s[p] == s[p..p + |Closer|][0] == '`';
  }

  /**
    `re.search(pattern, s, re.DOTALL)`: the leftmost opener; no match if no closer
    starts at or after its end; otherwise the leading whitespace is skipped,
    the first closer is found, and the group stops before the whitespace that
    precedes that closer.
  */
  function Search(s: string): (r: Option<Match>)
    ensures r.Some? ==> IsMatch(s, r.value)
    ensures r.Some? ==> NoneFrom(s, Opener, 0, r.value.start)
    ensures r.Some? ==> NoneFrom(s, Closer, r.value.start + |Opener|, r.value.closer)
    ensures r.Some? ==> !IsWs(s[r.value.groupStart])
    ensures r.Some? && r.value.groupStart < r.value.groupEnd ==> !IsWs(s[r.value.groupEnd - 1])
  {
    match FindFrom(s, Opener, 0)
    case None => None
    case Some(i) =>
      match FindFrom(s, Closer, i + |Opener|)
      case None => None
      case Some(p) =>
        var a := SkipWs(s, i + |Opener|);
        CloserNotInWs(s, i + |Opener|, a, p);
        Some(Match(i, a, SkipWsBack(s, a, p), p))
  }

  /** `clean_json_string`: group 1 of the match, or the input unchanged. */
  function Clean(s: string): (r: string)
    ensures |r| <= |s|
  {
    match Search(s)
    case Some(m) => s[m.groupStart..m.groupEnd]
    case None => s
  }
}
