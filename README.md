# Response sanitizer of the AI keyword tool

The keyword tool asks a completion service for a JSON array of "findings"
(question, relevancy, type). It passes the reply text through
`clean_json_string` before decoding it. That function searches the reply for a
Markdown code fence tagged `json`, using the regular expression
`` ```json\s*(.*?)\s*``` `` under `re.DOTALL`. On a match it returns the fenced
payload with the whitespace around it trimmed. Otherwise it returns the reply
unchanged, and JSON decoding downstream may then fail.

This project models that function in Dafny and proves what it promises. No
regex library is used:

- `Sanitizer.Search` computes the match directly. It finds the leftmost
  "```json", skips the whitespace after it, and finds the first "```" after
  the opener. The group then stops before the whitespace that comes before
  that closer.
- `Sanitizer.Clean` is `clean_json_string`: group 1 on a match, else the input.
- `Sanitizer.IsMatch` says declaratively when the pattern matches at given
  positions. `Sanitizer.TriedNoLaterThan` gives the order in which Python's
  backtracking engine tries matches. The lemma
  `SanitizerProperties.SearchIsFirstTriedMatch` proves that `Search` returns
  exactly the first match that order reaches, which is the one `re.search`
  reports. It also proves that `Search` finds nothing exactly when no match
  exists.
- Module `SanitizerProperties` proves the remaining properties:
  - the two pass-through cases;
  - the shape of an extracted payload;
  - a round trip through fencing;
  - idempotence;
  - case sensitivity and the leftmost-opener rule, on concrete replies.

Files: `sanitizer.dfy` (module `Sanitizer`, the model) and
`sanitizer_properties.dfy` (module `SanitizerProperties`, the lemmas).

`\s` is modelled by `Sanitizer.IsWs`, which accepts the ASCII whitespace
characters: space, `\t`, `\n`, `\r`, `\v` and `\f`. Python's `\s` on `str`
is wider: it follows `str.isspace`, so it also matches U+001C..U+001F, U+0085,
U+00A0, U+2028 and other Unicode whitespace. The general properties rely on
only one fact about `IsWs`: a backtick is not whitespace. The lemmas about
concrete replies (`FencedArrayIsExtracted`, `LeftmostOpenerExample`) also use
that line feed and space are whitespace and that `[`, `]` and `a` are not,
which holds for Python's class too.

One boundary case is easy to get wrong. Take the fenced text
`"```json" + w1 + B + w2 + "```"`, where B holds no "```" and does not
begin or end with whitespace. Cleaning it gives B back, except when w2 is
empty and B ends with a backtick. In that case the first "```" starts one
character early, so that backtick is lost (`"```jsonx````"` cleans to `"x"`).
`RoundTrip` therefore also requires that B does not end with a backtick when
w2 is empty. `TrailingBacktickIsLost` shows the case. JSON text never ends
with a backtick, so this does not affect the tool.

The other side condition, that B holds no "```", is a real restriction of the
tool and not a convenience of the proof. A JSON payload with "```" inside a
string value is cut at that point, because the lazy group stops at the first
closer (`PayloadHasNoCloser`). Fencing and cleaning therefore does not give
back every JSON value.

## Model

| member | source | states |
|---|---|---|
| `Sanitizer.IsWs` | ai-keyword-tool/api/index.py:13 | defines the regex class `\s` as its ASCII subset: space, tab, line feed, carriage return, vertical tab and form feed |
| `Sanitizer.IsMatch` | ai-keyword-tool/api/index.py:13 | defines one way the pattern matches: "```json" at `start`, whitespace up to `groupStart`, group 1 over [`groupStart`, `groupEnd`), whitespace up to `closer`, and "```" at `closer` |
| `Sanitizer.TriedNoLaterThan` | ai-keyword-tool/api/index.py:14 | defines the order in which `re.search` tries matches: leftmost start, then longest leading `\s*`, then shortest group, then longest trailing `\s*` |
| `Sanitizer.FindFrom` | ai-keyword-tool/api/index.py:13-14 | finds the first index at or after `k` where a literal occurs, with no occurrence before it; returns `None` only when no occurrence starts at or after `k` |
| `Sanitizer.SkipWs` | ai-keyword-tool/api/index.py:13 | a greedy `\s*` ends at the first non-whitespace character (or the end of the text), with only whitespace skipped |
| `Sanitizer.SkipWsBack` | ai-keyword-tool/api/index.py:13 | the lazy group stops at the start of the whitespace run that ends at the closer, never before the group's start, with only whitespace between the stop and the closer |
| `Sanitizer.Search` | ai-keyword-tool/api/index.py:13-14 | any match it returns is a match of the pattern; its opener is the leftmost "```json" and its closer the first "```" after that opener; the group neither begins nor ends with whitespace |
| `Sanitizer.Clean` | ai-keyword-tool/api/index.py:12-17 | the result is never longer than the input |
| `Sanitizer.CloserNotInWs` | ai-keyword-tool/api/index.py:13 | a "```" cannot start inside a whitespace run, so a greedy `\s*` never swallows the closer |
| `SanitizerProperties.SearchIsFirstTriedMatch` | ai-keyword-tool/api/index.py:13-14 | `Search` finds no match exactly when the pattern matches nowhere; otherwise it finds the first match in `re.search`'s order (leftmost start, longest leading `\s*`, shortest group, longest trailing `\s*`) |
| `SanitizerProperties.SearchAt` | ai-keyword-tool/api/index.py:13-16 | given the leftmost opener and the first closer after it, the match runs from the end of the whitespace after the opener to the start of the whitespace before the closer |
| `SanitizerProperties.NoOpenerIsIdentity` | ai-keyword-tool/api/index.py:14-17 | a reply without "```json" has no match and comes back unchanged |
| `SanitizerProperties.UnclosedOpenerIsIdentity` | ai-keyword-tool/api/index.py:14-17 | a reply whose leftmost "```json" has no "```" after it has no match and comes back unchanged |
| `SanitizerProperties.MatchIsSliceAfterOpener` | ai-keyword-tool/api/index.py:13-16 | the output is shorter than the input exactly when there is a match; on a match it is a contiguous piece of the input after the leftmost opener, at least the opener and closer lengths shorter |
| `SanitizerProperties.PayloadHasNoCloser` | ai-keyword-tool/api/index.py:13 | on a match the output contains no "```" |
| `SanitizerProperties.PayloadIsTrimmed` | ai-keyword-tool/api/index.py:13 | on a match a non-empty output neither begins nor ends with whitespace |
| `SanitizerProperties.RoundTrip` | ai-keyword-tool/api/index.py:13-16 | `Clean(pre + "```json" + w1 + B + w2 + "```" + post) == B` for `pre` without "```json", whitespace `w1` and `w2`, any `post`, and `B` with no "```", no surrounding whitespace and no trailing backtick touching the closer |
| `SanitizerProperties.FencedPayload` | ai-keyword-tool/api/index.py:13-16 | in a reply whose opener, whitespace runs, payload and closer lie at known positions, `Clean` returns the payload |
| `SanitizerProperties.CleanIdempotent` | ai-keyword-tool/api/index.py:12-17 | cleaning twice gives the same result as cleaning once |
| `SanitizerProperties.FencedArrayIsExtracted` | ai-keyword-tool/api/index.py:13-16 | a JSON array fenced as "```json", line break, the array, line break, "```" comes back as the bare array if it holds no "```" |
| `SanitizerProperties.UpperCaseTagExample` | ai-keyword-tool/api/index.py:13-14 | the tag is case-sensitive: a "```JSON" fence comes back unchanged |
| `SanitizerProperties.BareFenceExample` | ai-keyword-tool/api/index.py:13-14 | a bare "```" fence without the `json` tag comes back unchanged |
| `SanitizerProperties.LeftmostOpenerExample` | ai-keyword-tool/api/index.py:13-14 | with two `json` fences, only the leftmost one is extracted |
| `SanitizerProperties.TrailingBacktickIsLost` | ai-keyword-tool/api/index.py:13-16 | a payload that ends in a backtick and touches the closer loses that backtick, so `RoundTrip` needs its side condition |

## Left out

- The Flask app and the routes `home` and `analyze` (ai-keyword-tool/api/index.py:7, 19-20, 150-155, 185-186) are left out. They are HTTP plumbing with no logic of their own.
- The embedded HTML, CSS and JavaScript page (ai-keyword-tool/api/index.py:22-148) is left out. It is user interface, not Python.
- The OpenAI client construction and the `chat.completions.create` call (ai-keyword-tool/api/index.py:10, 174-178) are left out. The first reads an environment variable and the second calls an external service over the network.
- `json.loads`, `jsonify` and the catch-all `except` that prints the error and returns `[]` (ai-keyword-tool/api/index.py:180-183) are left out. They wrap library parsing and serialisation that is not part of this model, plus process output.
- The prompt f-string (ai-keyword-tool/api/index.py:157-171) is left out. It is plain interpolation.
- A reply whose content is `None` makes `re.search` raise `TypeError`, and the catch-all handler turns that into `[]`. The model takes a string, so this path is not modelled.
- Sanitizer.IsWs: matches only space, tab, line feed, carriage return, vertical tab and form feed, whereas Python's `\s` on `str` matches every character `str.isspace` accepts. The general lemmas depend only on a backtick not being whitespace, so they hold for either class. The exact payload boundaries differ when whitespace that `\s` matches and `IsWs` does not (U+001C..U+001F, U+0085, U+00A0, U+2028, …) surrounds the payload.
- Strings are sequences of Unicode scalar values. Python `str` can also hold lone surrogates, which are not modelled.
