# simdict core, modelled in Dafny

simdict is a desktop dictionary: the user types a word, the program asks
Bing's dictionary for it and shows a short translation snippet. This project
models the program's logic in `src/main.rs`:

- the **meta-description extractor** `parse_bing_response_fallback`, which cuts
  the text between `<meta name="description" content="` and the first `" />`
  after it (`extract.dfy`, module `Extract`);
- the **snippet formatter** `parse_bing_response` with the group shaping of
  `regex_search` / `regex_search_all`: an optional phonetic line
  `· [<trimmed phonetic>]`, then one `· <pos> <trs>` line per explanation
  match, joined by `\n` (`snippet.dfy`, module `Snippet`). The regex engine is
  not modelled; what it captured is an input (`Snippet.Captures`);
- the **fetch chain** `fetch_translation` over the two endpoint attempts
  `fetch_from_bing` and `fetch_from_bing_fallback`, and the empty-query guard of
  the search handler (`fetch.dfy`, module `Fetch`). Each HTTP exchange is an
  input (`Fetch.Exchange`: the request failed, or a status code and the body
  text, if it could be read);
- string helpers with Rust's meaning: `str::find`, `str::trim` with
  `char::is_whitespace`, joining and splitting lines (`text.dfy`, module
  `Text`), and `Option`/`Result` (`wrappers.dfy`).

`parse_bing_response` keeps the source's imperative shape: `ParseBingResponse`
builds the result string, its two loops are the methods `ExplanationLines` and
`PushLines`, and the trailing `\n` is popped. It is proved equal to the
specification function `BingSnippet`, about which the lemmas below are proved.
`regex_search_all`'s collecting loop is the method `RegexSearchAll`, proved
against `KeptGroups`. The extractor and the fetch chain are pure functions, as
in the source.

## Model

| member | source | states |
|---|---|---|
| `Text.IsWhitespace` | src/main.rs:154 | the characters Rust's `char::is_whitespace` accepts, that is, the Unicode White_Space set |
| `Text.LeadingWhitespace` | src/main.rs:154 | counts exactly the whitespace prefix: every counted character is whitespace and the next one is not |
| `Text.TrailingWhitespace` | src/main.rs:154 | counts exactly the whitespace suffix: every counted character is whitespace and the one before is not |
| `Text.Trim` | src/main.rs:154 | `str::trim`: never longer than its input (its full characterisation is `TrimSpec`) |
| `Text.TrimSpec` | src/main.rs:154 | `trim` keeps the infix after the leading whitespace; all it removes at either end is whitespace and the result neither starts nor ends with whitespace |
| `Text.TrimEmptyIffBlank` | src/main.rs:21-23 | `word.trim().is_empty()` holds exactly when every character of the word is whitespace |
| `Text.FindFrom` | src/main.rs:228 | returns the first index at or after the start where the pattern occurs, or `None` when there is none |
| `Text.Find` | src/main.rs:231 | `str::find`: the returned index is an occurrence and no earlier index is; `None` means no occurrence at all |
| `Text.FirstAt` | src/main.rs:228 | `p` is where the first occurrence of a pattern starts |
| `Text.FindFirst` | src/main.rs:228 | a known first occurrence is exactly what `find` returns |
| `Text.SplitLines` | src/main.rs:175-182 | the source never splits on `\n`; this is Rust's `split('\n')`, the inverse used to state what lines 175-182 build, and it always yields at least one piece |
| `Text.Terminated` | src/main.rs:175-178 | the text that pushing each line and then `\n` builds |
| `Text.JoinLines` | src/main.rs:175-182 | the lines separated by single `\n`s with none at the end; at least one character per separator plus the first line |
| `Text.TerminatedSnoc` | src/main.rs:176-177 | pushing one more line and `\n` extends the text by exactly that |
| `Text.TerminatedAppend` | src/main.rs:175-178 | terminating two runs of lines is terminating their concatenation |
| `Text.JoinLinesStartsWithFirst` | src/main.rs:175-182 | the joined text starts with its first line |
| `Text.JoinLinesSnoc` | src/main.rs:175-182 | joining one more line adds `\n` and that line |
| `Text.TerminatedIsJoinedPlusNewline` | src/main.rs:175-182 | each line followed by `\n` is the lines joined by `\n` plus one final `\n`, so popping it leaves the joined text |
| `Text.SplitJoinLines` | src/main.rs:175-182 | splitting joined lines on `\n` gives back the lines when none contains `\n` |
| `Extract.ParseFallback` | src/main.rs:224-237 | without the start marker the result is `None`; a result fits in the page together with both markers |
| `Extract.NoStartMarker` | src/main.rs:224-236 | no `<meta name="description" content="` in the page gives `None` |
| `Extract.NoEndMarker` | src/main.rs:226-236 | start marker present but no `" />` after its first occurrence gives `None` |
| `Extract.EndMarkerGivesResult` | src/main.rs:228-233 | conversely, a start marker with a `" />` anywhere after the end of its first occurrence always gives a result |
| `Extract.ShiftedOccurrence` | src/main.rs:229-231 | an end marker found in the text after the start marker is one in the page at the shifted index, and back |
| `Extract.FramedAt` | src/main.rs:228-232 | start marker, `r` and end marker one after another from `p` form an occurrence of their concatenation |
| `Extract.Unframe` | src/main.rs:228-232 | conversely, such an occurrence puts `r` and the end marker at their places |
| `Extract.ExtractedSound` | src/main.rs:228-232 | a result `r` stands between start and end marker at the first start marker and no end marker begins inside it |
| `Extract.ExtractedComplete` | src/main.rs:228-232 | markers framing `r` at the first start marker with no end marker inside give `Some(r)` |
| `Extract.ExtractedIff` | src/main.rs:228-232 | with the first start marker at `p`, the result is `Some(r)` exactly when start marker + `r` + end marker stands at `p` and no end marker begins inside `r` |
| `Extract.ExtractedIsFramed` | src/main.rs:228-232 | a result `r` stands between the markers at the first start marker's position |
| `Extract.NoEndMarkerInside` | src/main.rs:229-232 | the result never contains `" />` |
| `Extract.DescriptionExample` | src/main.rs:224-237 | a page with description `hello` yields `Some("hello")` |
| `Snippet.Participating` | src/main.rs:207-211 | `filter_map` over the groups: no more texts than groups (which texts, and in which order, is stated by the three lemmas below) |
| `Snippet.ParticipatingAppend` | src/main.rs:207-211 | filtering keeps the order of the groups: the filtered concatenation is the concatenation of the filtered parts |
| `Snippet.ParticipatingSingle` | src/main.rs:210 | a group that took part contributes its text, one that did not contributes nothing |
| `Snippet.AllParticipate` | src/main.rs:207-211 | when every group took part, every text is kept, at its own position |
| `Snippet.CapturedTexts` | src/main.rs:193-195 | `skip(1)` then `filter_map`: fewer texts than groups, because the whole-match group 0 is skipped |
| `Snippet.RegexSearch` | src/main.rs:188-198 | `regex_search` has a result exactly when the pattern matched |
| `Snippet.KeptGroups` | src/main.rs:206-216 | every kept match has at least one captured text, and no more matches are kept than found |
| `Snippet.NothingCapturedLast` | src/main.rs:206-216 | no match captured anything exactly when none before the last did and the last did not either |
| `Snippet.KeptGroupsEmptyIff` | src/main.rs:213-218 | nothing is kept exactly when no match captured any text |
| `Snippet.SearchAllResult` | src/main.rs:218-222 | `None` exactly when no match captured any text; otherwise a non-empty list with at most one entry per match |
| `Snippet.RegexSearchAll` | src/main.rs:200-223 | the loop collects exactly `KeptGroups` of the matches; `None` exactly when nothing was kept |
| `Snippet.KeptGroupsAppend` | src/main.rs:206-216 | order among kept matches is preserved: keeping from a concatenation concatenates what is kept |
| `Snippet.CapturelessMatchDropped` | src/main.rs:213-215 | a match with no captured text is dropped and changes nothing else |
| `Snippet.PhoneticLine` | src/main.rs:154 | the phonetic line is `· [`, the trimmed capture and `]`: it starts with the bullet, then `[`, and ends with `]` |
| `Snippet.PairLine` | src/main.rs:166 | a pair line is `· `, the part of speech, one space and the translation |
| `Snippet.HasPhonetic` | src/main.rs:152-153 | the phonetic pattern matched and captured at least one text |
| `Snippet.PhoneticLines` | src/main.rs:152-156 | the snippet's header: at most one line, and one exactly when the phonetic pattern captured a text |
| `Snippet.SnippetLines` | src/main.rs:175-182 | the snippet's lines, the phonetic line before the pair lines of :154 and :166; none exactly when there is no phonetic text and no pair |
| `Snippet.PairLines` | src/main.rs:162-167 | at most one line per match |
| `Snippet.ExplanationLines` | src/main.rs:160-169 | the first loop yields exactly one `· <pos> <trs>` line per match with two or more texts, in match order |
| `Snippet.PushLines` | src/main.rs:175-178 | the second loop appends every line followed by `\n`, in order |
| `Snippet.HeaderIsTerminatedPhonetic` | src/main.rs:152-156 | the text before the loops is the phonetic line plus `\n`, and empty exactly when there is no phonetic line |
| `Snippet.SnippetFromTerminated` | src/main.rs:175-182 | the pushed text is the snippet followed by one `\n` |
| `Snippet.Format` | src/main.rs:171-184 | the specification of the formatter: `None` exactly when there is no phonetic line and no pair line, otherwise the lines joined by `\n` |
| `Snippet.BingSnippet` | src/main.rs:147-185 | what `parse_bing_response` returns for the regex results; a captured phonetic text always gives a result |
| `Snippet.ParseBingResponse` | src/main.rs:147-185 | the imperative formatter returns exactly `BingSnippet` of the regex results |
| `Snippet.PairLinesAppend` | src/main.rs:162-167 | lines of concatenated matches are the concatenated lines (match order kept) |
| `Snippet.ShortMatchIgnored` | src/main.rs:163-167 | a match with fewer than two captured texts contributes no line |
| `Snippet.PairLinesEmptyIff` | src/main.rs:161-169 | no explanation line exactly when no match has two captured texts |
| `Snippet.FormatNoneIff` | src/main.rs:152-173 | `None` exactly when there is no phonetic text and no match with a (pos, trs) pair |
| `Snippet.SnippetStartsWithBullet` | src/main.rs:152-184 | a snippet is never empty: it starts with `· ` |
| `Snippet.PairLinesStartWithBullet` | src/main.rs:166 | every explanation line starts with `· ` |
| `Snippet.PairLinesHaveNoNewline` | src/main.rs:166 | explanation lines hold no `\n` when the captured texts hold none |
| `Snippet.PhoneticLineHasNoNewline` | src/main.rs:154 | the phonetic line holds no `\n` when the capture holds none |
| `Snippet.FormatLines` | src/main.rs:175-182 | splitting the snippet on `\n` gives exactly the phonetic line (if any) followed by the pair lines in match order |
| `Snippet.HelloPhoneticLine` | src/main.rs:154 | the phonetic capture `h ə ˈ l oʊ` becomes the line `· [h ə ˈ l oʊ]` |
| `Snippet.HelloPairLines` | src/main.rs:166 | the pair (`int.`, `hello`) becomes the line `· int. hello` |
| `Snippet.TwoLineExample` | src/main.rs:147-185 | a phonetic capture and one pair give the two lines `· [h ə ˈ l oʊ]` and `· int. hello` |
| `Fetch.IsSuccess` | src/main.rs:100 | `StatusCode::is_success`: statuses 200 to 299 |
| `Fetch.Usable` | src/main.rs:100-114 | an exchange is usable when it was received with a 2xx status, its body was read, and the extractor returned a non-empty text |
| `Fetch.Attempt` | src/main.rs:100-114 | an attempt succeeds exactly when the status is 2xx, the body was read and the extractor returned a non-empty text, and then returns that text; each of the five failures is classified (request, status, unreadable body, `None` from the extractor, `""` from the extractor) |
| `Fetch.PrimaryParser` | src/main.rs:107-108 | the primary extractor: `parse_bing_response` on what the regex engine finds in the page |
| `Fetch.FetchFromBing` | src/main.rs:86-115 | a success is the non-empty `parse_bing_response` result of a 2xx body |
| `Fetch.FetchFromBingFallback` | src/main.rs:117-145 | a success is the non-empty `parse_bing_response_fallback` result of a 2xx body |
| `Fetch.PrimaryNeverEmpty` | src/main.rs:108-112 | the primary attempt never fails with "No valid data" |
| `Fetch.FetchTranslation` | src/main.rs:60-84 | never fails and never yields `""`: the primary result if usable, else the fallback result if usable, else exactly the constant `NoData`, the text `No Data` of line 83 |
| `Fetch.PrimaryShortCircuits` | src/main.rs:63-71 | once the primary endpoint answered 2xx with a page the primary extractor parses, the result is that snippet and the fallback response does not affect it |
| `Fetch.TranslationOrigin` | src/main.rs:60-84 | the result is `No Data` or what one extractor found in a 2xx body |
| `Fetch.BothServerErrors` | src/main.rs:60-84 | both endpoints answering 500 yields exactly `No Data` |
| `Fetch.FallbackRescues` | src/main.rs:73-77 | an unparseable primary page and a fallback page with a description yield that description |
| `Fetch.OnSearch` | src/main.rs:20-30 | a whitespace-only query fetches nothing and leaves the display alone; any other query shows the non-empty `fetch_translation` text |

## Left out

- HTTP: building the `reqwest` client, the user-agent strings, the endpoint URLs and the percent-encoding of the query are network I/O and foreign crates; each attempt's outcome is the input `Fetch.Exchange`. A failure of any of the `?` steps before the status check is `SendFailed`.
- The model cannot observe whether the fallback request is sent; `Fetch.PrimaryShortCircuits` states instead that its response does not matter once the primary succeeded.
- The regex engine (`Regex::new`, `captures`, `captures_iter`, lazy `.*?`) is a crate; the capture groups are inputs. Both patterns are constants that compile, so the `Regex::new(..).ok()?` failure path is not modelled.
- `Snippet.FormatLines` assumes no captured text holds `\n`: the patterns' `.` never matches a newline, but that is a property of the regex, which is not modelled.
- The "Error: ..." text of the search handler and of the startup search is not modelled: `Fetch.FetchTranslation` is proved never to fail, so that arm cannot run.
- The Slint window (`MainWindow`, `set_translation`, `set_input_text`, `on_quit`, the event loop), the weak handle upgrades and the startup search thread are UI and cross-thread glue.
- Command-line argument collection, `env_logger` and the `debug!`/`info!`/`warn!` lines are I/O with no effect on results.
- The tests at the end of `src/main.rs` call the live service and only print, so they state nothing to model.
- Rust's `find` and slices work on byte offsets of UTF-8; the model works on characters, which gives the same substrings because the markers are ASCII.
