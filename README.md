# find-se-papers: search, ranking, pagination and ingestion, in Dafny

This project models the core of the find-se-papers web application. The
application is a fork of arxiv-sanity that lists software-engineering papers.
The model covers two programs:

- **serve.py, the index page.** It chooses one of three rankings of the
  stored papers:
  - a free-text search scored by token matches in authors, title and summary;
  - newest first;
  - a random shuffle.

  It can keep only papers younger than a number of days, and it cuts the
  result into pages of 25.
- **add_swepapers.py, the ingestion script.** It reads rows of an external
  paper table and drops rows with a NULL column. It strips numeric footnote
  markers from author names and sorts the papers by year, newest first.
  Then it upserts each paper into the papers store and the metas store,
  logging the papers whose save raised.

Modules:

- `PyText` (pytext.dfy): the Python `str` behaviour the code relies on, over
  ASCII:
  - `lower`, `strip`, `split` and `join`;
  - non-overlapping `count`;
  - code-point ordering of strings;
  - `int()` parsing, with `None` for `ValueError`.
- `Sorting` (sorting.dfy): `sorted(..., key=..., reverse=True)` as a stable
  descending sort, written as an insertion sort.
- `Stores` (stores.dfy): the two key-value stores, as a `KvStore` class whose
  `data` map is updated in place. A paper document has `authors`, `title`,
  `summary`, `_time` and `_id`; a meta document has `_time` and `_id`.
- `Query` (query.dfy): `sanitize_query`, the tokenizer, `match`, `matchu`
  and the per-paper search score.
- `Ranking` (ranking.dfy): `search_rank`, `time_rank` and `random_rank`.
- `Request` (request.dfy): the index handler `main`:
  - argument defaults and rank resolution;
  - the recency filter with its `KeyError`;
  - page numbers and pagination.
- `Ingest` (ingest.dfy): `grab_paper_entries_from_swepapers`, the two save
  functions and the upsert loop of `main`.

External inputs become parameters:

- **Database rows:** the SQL result is a `seq<Row>`, with `None` for NULL.
- **Store iteration order:** `order` is a duplicate-free list of the store's
  keys.
- **Random draws of `shuffle`:** a function `rand`. Position `i` is swapped
  with `rand(i) % (i + 1)`, for `i` from the last index down to 1.
- **Clock readings:** `time.time()` becomes `tnow`, one reading for
  `time_rank` and one for the filter.
- **Save outcomes:** whether each save raises is given by a `Fault` list.

The sanitizer character class `[^a-zA-Z0-9 -:'"]` does not say what its
comment says. The comment lists letters, digits, space, hyphen, colon,
apostrophe and double quote. The code instead reads ` -:` as a character
range from U+0020 to U+003A. That range keeps `!"#$%&'()*+,-./` and the
digits as well. The model follows the code: `Query.Allowed` is "an ASCII
letter or a character from U+0020 to U+003A", and
`Query.SanitizeKeepsPunctuation` shows `c++ (v2.0)!` passing through
unchanged.

## Model

| member | source | states |
|---|---|---|
| PyText.Lower | serve.py:130 | `lower()` keeps the length and maps each character through ASCII lower-casing |
| PyText.LowerChar | serve.py:130 | 'A'..'Z' go to 'a'..'z' at the same alphabet position; every other character is kept; the result is never upper case |
| PyText.Strip | serve.py:130 | `strip()` yields a contiguous slice that neither starts nor ends with whitespace |
| PyText.StripAllSpace | serve.py:130 | a string made only of whitespace strips to the empty string |
| PyText.Split | serve.py:130 | `split()` yields non-empty tokens without whitespace, drawn from the input; no tokens exactly when the input is all whitespace |
| PyText.SplitCons | serve.py:130 | after leading whitespace, one maximal run of non-whitespace is the first token and splitting goes on after it, which with the empty case fixes `split()` on every input |
| PyText.SplitJoin | serve.py:130 | splitting tokens joined by single spaces gives back the tokens, when none is empty or holds whitespace |
| PyText.Join | serve.py:139 | `' '.join` of no authors is empty, and of one author is that author |
| PyText.OccursAcrossSpace | serve.py:139 | a pattern without whitespace occurs in two strings joined by a whitespace character exactly when it occurs in one of them |
| PyText.JoinOccurs | serve.py:139 | a non-empty pattern without whitespace occurs in the lower-cased `' '.join(xs)` exactly when it occurs in some lower-cased `xs[k]` |
| PyText.Count | serve.py:134-135 | non-overlapping `str.count`, scanning left to right; `CountPositiveIff`, `CountBound`, `CountSelf` and `CountAcrossSpace` below fix its value on the inputs search relies on |
| PyText.CountPositiveIff | serve.py:134-135 | `s.count(p) > 0` holds exactly when `p` occurs as a substring of `s` |
| PyText.CountBound | serve.py:134 | non-overlapping occurrences of a non-empty pattern use up at most the whole string |
| PyText.CountSelf | serve.py:134-135 | a non-empty pattern occurs exactly once in itself |
| PyText.CountAcrossSpace | serve.py:134-135 | occurrences of a whitespace-free pattern never cross a whitespace character: the count over `a + c + b` is the count over `a` plus the count over `b` |
| PyText.StrLess | serve.py:145 | Python's code-point order on strings, as used inside tuple comparison; it is a strict total order by the three lemmas below |
| PyText.StrLessIrreflexive | serve.py:145 | no pid sorts before itself |
| PyText.StrLessTransitive | serve.py:145 | string order on pids is transitive |
| PyText.StrLessTotal | serve.py:145 | of two distinct pids exactly one sorts first |
| PyText.ParseInt | serve.py:219-238 | `int()` of a request argument; its meaning is given by the `ParseInt` lemmas below |
| PyText.ParseIntShow | serve.py:220 | `int(str(n)) == n` for every natural `n` |
| PyText.ParseIntShowNegative | serve.py:236 | `int('-' + str(n)) == -n` |
| PyText.ParseIntNegativeLiteral | serve.py:236 | a minus sign followed by whitespace-free digit groups parses to the negated value of the digits |
| PyText.ParseIntRejectsLetter | serve.py:219-228 | a string holding a letter makes `int()` raise `ValueError` |
| PyText.ParseIntSeparatorRejects | serve.py:219-238 | a U+001C..U+001F character anywhere makes `int()` raise, since `int()` trims only TAB..CR and SPACE |
| PyText.ParseIntSeparatorExample | serve.py:219-238 | `int("\x1c5")` raises while `int(" 5\t")` is 5 |
| PyText.StripKeepsNonSpace | serve.py:220 | stripping keeps every non-whitespace character at its shifted position |
| PyText.StripChars | serve.py:130 | stripping introduces no character that was not in the input |
| Sorting.SortDesc | add_swepapers.py:66 | the sort is a permutation in non-increasing key order, and elements with equal keys keep their input order |
| Sorting.InsertSorted | add_swepapers.py:66 | inserting into a descending list keeps it descending |
| Sorting.InsertStable | add_swepapers.py:66 | an inserted element goes ahead of the elements that share its key |
| Sorting.WithKeyElements | add_swepapers.py:66 | the equal-key subsequence holds only elements with that key, all drawn from the list |
| Sorting.DistinctPermutation | serve.py:145 | a permutation of a duplicate-free list is duplicate-free |
| Stores.KvStore.constructor | add_swepapers.py:72 | a store opened on contents holds exactly those contents |
| Stores.KvStore.Set | add_swepapers.py:73 | `store[k] = v` replaces or adds key `k` and changes nothing else |
| Query.Sanitize | serve.py:152-167 | the result keeps every allowed character as often as the query has it and holds no other character |
| Query.SanitizeIsSubsequence | serve.py:166 | the kept characters stay in their order |
| Query.SanitizeConcat | serve.py:166 | deleting runs of disallowed characters works character by character across a split |
| Query.SanitizeAllowed | serve.py:166 | a query of allowed characters comes back unchanged |
| Query.SanitizeIdempotent | serve.py:166 | sanitizing twice is the same as sanitizing once |
| Query.SanitizeKeepsPunctuation | serve.py:166 | `c++ (v2.0)!` passes the filter unchanged, because of the ` -:` range |
| Query.TokensShape | serve.py:124-130 | the empty query gives no tokens; every token is non-empty, without whitespace, lower case and made of allowed characters |
| Query.TokensWithoutWords | serve.py:128-130 | a query whose surviving characters are all whitespace gives no tokens |
| Query.Tokens | serve.py:126-130 | sanitize, lower-case, strip, split; its shape is given by `TokensShape` |
| Query.MatchU | serve.py:135 | `matchu`: the number of tokens that occur in the lower-cased text; see `MatchUIsNumOccurring` |
| Query.Match | serve.py:134 | `match`: each token's occurrence count capped at 3, summed; `MatchPositive` and `MatchTokenRises` state how it grows |
| Query.Score | serve.py:138-141 | the per-paper search score; when it is positive is given by `ScorePositive` and `SearchScorePositive` |
| Query.MatchUIsNumOccurring | serve.py:135 | `matchu` counts the tokens, repeats included, that occur as substrings, and is at most the number of tokens |
| Query.MatchUPositive | serve.py:135 | `matchu(s) > 0` exactly when some token occurs in `s.lower()` |
| Query.MatchPositive | serve.py:134 | `match(s) > 0` exactly when some token occurs in `s.lower()`; each token adds at most 3 |
| Query.MatchTokenRises | serve.py:134 | one more space-separated occurrence of a token in the text raises its `min(3, count)` term by exactly 1 while it is below 3, and leaves it at 3 after that |
| Query.ScorePositive | serve.py:139-141 | a paper scores above 0 exactly when a token occurs in its joined authors (if any), its title (if non-empty) or its summary; the score is at most 33 per token |
| Query.AuthorsOccur | serve.py:139 | a token occurs in the joined author string exactly when it occurs in one author's name |
| Query.SearchScorePositive | serve.py:138-142 | a paper enters the search result exactly when a token occurs in one of its authors' names, its non-empty title or its summary |
| Ranking.HitLessOrder | serve.py:145 | tuple order on `(score, pid)` is a strict total order |
| Ranking.HitNotLessTransitive | serve.py:145 | "not smaller" is transitive on `(score, pid)` |
| Ranking.InsertHitDescending | serve.py:145 | inserting a pair into a descending list keeps it descending |
| Ranking.SortHits | serve.py:145 | `pairs.sort(reverse=True)` is a permutation in non-increasing tuple order |
| Ranking.DistinctHitsStrict | serve.py:145 | without repeated pairs the sorted order is strictly decreasing |
| Ranking.ScorePapers | serve.py:136-143 | the loop keeps one pair for each paper with a positive score, holding that score, and no pair twice, in any iteration order |
| Ranking.RankingFromPairs | serve.py:145-147 | sorting the pairs and splitting them into ids and scores gives the search ranking |
| Ranking.SearchRank | serve.py:123-148 | an empty query gives `[], []`; otherwise every paper with a positive score and no other, each with its score, ordered by `(score, pid)` from the largest down |
| Ranking.StrictHitsUnique | serve.py:145 | two strictly descending pair lists with the same elements are equal |
| Ranking.SearchRankingUnique | serve.py:136-148 | the search result is determined by query and store alone, so the store's iteration order cannot change it |
| Ranking.SearchRankingDistinct | serve.py:146 | no pid appears twice in a search result |
| Ranking.RankingWithoutTokens | serve.py:136-143 | with no tokens every score is 0, so the result is empty |
| Ranking.SearchWithoutTokens | serve.py:128-148 | a non-empty query that sanitizes to whitespace only gives an empty result without error |
| Ranking.SortedItems | serve.py:117 | the sorted items are the store's entries, each key once |
| Ranking.Items | serve.py:117 | `mdb.items()` in the store's iteration order, one pair per key |
| Ranking.DaysSince | serve.py:120 | `(tnow - _time)/60/60/24`, the days elapsed since `_time` |
| Ranking.TimeRank | serve.py:115-121 | `time_rank`; what it lists is given by `TimeRankKeys`, `TimeRankOrder` and `TimeRankScoresRise` |
| Ranking.TimeRankKeys | serve.py:115-121 | `time_rank` lists every key of the metas store exactly once, with one score per key |
| Ranking.TimeRankOrder | serve.py:117-120 | `time_rank` orders by `_time`, newest first, and each score is the days elapsed since that pid's `_time` |
| Ranking.TimeRankScoresRise | serve.py:117-120 | the `time_rank` scores never decrease along the listing: newer papers come first with fewer days |
| Ranking.FisherYates | serve.py:111 | `shuffle` on given draws keeps the length; `FisherYatesPermutes` shows it permutes |
| Ranking.FisherYatesPermutes | serve.py:111 | the shuffle permutes its input |
| Ranking.SwapPermutes | serve.py:111 | one exchange permutes the list |
| Ranking.Shuffle | serve.py:111 | the array afterwards holds the Fisher-Yates shuffle of its old contents |
| Ranking.RandomRank | serve.py:108-113 | the ids are the shuffled keys of the metas store, each once, all scored 0 |
| Request.ArgOr | serve.py:188-191 | `request.args.get(name, default)`: the argument when given, else the default |
| Request.ResolveRank | serve.py:188-211 | a non-empty query forces "search"; otherwise a known rank name is kept and anything else becomes "time", so the `ValueError` branch is unreachable |
| Request.FilterDays | serve.py:219-228 | the filter's integer value if `int()` accepts it, else 20000 |
| Request.PageNumber | serve.py:235-238 | at least 1; the integer value when it is at least 1, and 1 when it is smaller or not an integer |
| Request.FilterDaysShow | serve.py:220 | a written number of days is used as it is |
| Request.FilterDaysWithLetter | serve.py:222-228 | a filter with a letter in it falls back to 20000 days |
| Request.PageNumberShow | serve.py:236 | a written page number of at least 1 is used as it is |
| Request.PageNumberNegative | serve.py:236 | a negative page number gives page 1 |
| Request.PageNumberWithLetter | serve.py:237-238 | a page argument with a letter in it gives page 1 |
| Request.Recent | serve.py:231 | `(tnow - kv[pid]['_time']) < deltat`, compared exactly |
| Request.Keep | serve.py:231 | the kept positions are exactly those whose paper is younger than `deltat` seconds, in increasing order |
| Request.FirstMissing | serve.py:231 | the first pid the metas store lacks, where `kv[pid]` raises, or none when all are present |
| Request.TimeFilter | serve.py:213-232 | no filter keeps both lists; if a pid lacks metadata the result is `KeyError`; otherwise exactly the papers younger than the filter survive, in order and still paired with their scores |
| Request.Paginate | serve.py:240-243 | a page holds at most 25 entries: those from `(page - 1) * 25` on, and none past the end |
| Request.PageOf | serve.py:240-243 | element `i` is entry `i % 25` of page `i / 25 + 1` |
| Request.PageOnlyOne | serve.py:240-243 | entry `j` of a page is an element that belongs to that page alone |
| Request.PageBeyondEnd | serve.py:241-242 | pages starting past the last element are empty |
| Request.PaginateThirty | serve.py:240-243 | of 30 papers, page 1 shows the first 25, page 2 the last 5, and page 3 nothing |
| Request.PaginateIsSlice | serve.py:240-242 | a page is the slice between its start and end index |
| Request.IncreasingSlice | serve.py:232 | a slice of increasing positions is increasing |
| Request.SelectSlice | serve.py:232 | selecting positions and then slicing is slicing the positions |
| Request.PaginateNarrows | serve.py:242-243 | paging a filtered ranking keeps ids and scores at the same positions of the ranking |
| Request.Finish | serve.py:213-243 | the filter's `KeyError` passes through; otherwise both lists are cut to the same page of at most 25 |
| Request.FinishNarrows | serve.py:213-243 | the page shows part of the ranking in its order, each id with its own score |
| Request.Reals | serve.py:248 | `float(score)` per entry, same length |
| Request.Index | serve.py:179-243 | the ranking is the one the resolved mode promises (the search ranking, `time_rank`, or the shuffle with zero scores), and the response is that ranking filtered and paginated |
| Request.SearchFilterMissingMeta | serve.py:231 | with a time filter, a ranked pid that is missing from the metas store aborts the request with `KeyError` |
| Ingest.DigitRun | add_swepapers.py:35 | length of the leading digit run, which is maximal |
| Ingest.MarkerAt | add_swepapers.py:35 | the length of the match of `\s+\b\d+\b` at the front, when there is one, is positive and within the string |
| Ingest.MarkerAtSound | add_swepapers.py:35 | a match found is a non-empty whitespace run, then a non-empty digit run, then the end or a non-word character |
| Ingest.MarkerAtNoDigit | add_swepapers.py:35 | a string without digits has no match at its front |
| Ingest.MarkerFound | add_swepapers.py:35 | a non-empty whitespace run, then a non-empty digit run, then the end or a non-word character, is always found, whole |
| Ingest.MarkerBeforeWord | add_swepapers.py:35 | whitespace and digits followed by a letter or underscore are no match, because the `\b` after the digits fails |
| Ingest.MarkerAtAppend | add_swepapers.py:35 | text appended after a whitespace character cannot change the match at the front of text that does not end in whitespace |
| Ingest.StripMarkers | add_swepapers.py:50-52 | the substitution never lengthens a name; what it removes and keeps is given by `StripMarkersAround` and `StripMarkersNoMatch` |
| Ingest.StripMarkersNoMatch | add_swepapers.py:50-52 | where no match starts at any position the name is left unchanged |
| Ingest.StripMarkersGluedDigits | add_swepapers.py:50-52 | a name, a whitespace character, then digits glued to a word, is kept whole |
| Ingest.StripMarkersOrdinal | add_swepapers.py:50-52 | `"Lee 2nd"` is left unchanged |
| Ingest.StripMarkersNoDigit | add_swepapers.py:50-52 | a name without digits is left unchanged |
| Ingest.StripMarkersKeeps | add_swepapers.py:50-52 | only whitespace and digits are deleted; every other character keeps its count |
| Ingest.StripMarkersAppend | add_swepapers.py:50-52 | the substitution works separately on text that does not end in whitespace and on a following piece that starts with whitespace |
| Ingest.StripMarkersAround | add_swepapers.py:50-52 | a whitespace run followed by a standalone digit word is removed wherever it stands after text that does not end in whitespace, and the text on both sides is handled as on its own |
| Ingest.StripTrailingMarker | add_swepapers.py:50-52 | a name without digits or without whitespace (not ending in whitespace), then whitespace, then digits, comes back as the bare name |
| Ingest.StripMarkersExample | add_swepapers.py:50-52 | `"Smith 13"` becomes `"Smith"` |
| Ingest.StripMarkersDigitName | add_swepapers.py:50-52 | `"R2D2 3"` becomes `"R2D2"`: digits inside a name are kept |
| Ingest.StripMarkersNoSpace | add_swepapers.py:50-52 | a name without whitespace is left unchanged, digits included, since every match starts with whitespace |
| Ingest.Complete | add_swepapers.py:48 | none of the four columns is NULL |
| Ingest.NormalizeAuthors | add_swepapers.py:49-52 | a single author string becomes a one-element list; a list is cleaned element by element |
| Ingest.Normalize | add_swepapers.py:41-61 | a row gives a paper exactly when no column is NULL; `doi` and `_id` are the row's doi, `summary` is empty, `_time` is the year, and the title and cleaned authors are the row's |
| Ingest.Accepted | add_swepapers.py:41-62 | the papers the row loop collects; see `AcceptedFromRows`, `AcceptedComplete` and `AcceptedShape` |
| Ingest.AcceptedFromRows | add_swepapers.py:41-62 | every collected paper comes from some row |
| Ingest.AcceptedComplete | add_swepapers.py:48-62 | every complete row contributes its paper |
| Ingest.AcceptedShape | add_swepapers.py:39-62 | at most one paper per row, each with `_id == doi` and an empty summary |
| Ingest.DroppedRow | add_swepapers.py:48-64 | a row with a NULL column adds nothing |
| Ingest.GrabPaperEntries | add_swepapers.py:39-67 | the result is the stable newest-year-first sort of the accepted papers: a permutation of them, in non-increasing year order, with each year's papers in row order |
| Ingest.ToPaperDoc | add_swepapers.py:73 | the `{k: paper[k] for k in required_keys}` document written by `SavePaper` |
| Ingest.ToMetaDoc | add_swepapers.py:78 | the `{_time, _id: doi}` document written by `SaveMeta` |
| Ingest.SavePaper | add_swepapers.py:69-73 | the papers store gains or replaces the key `doi` with `{authors, title, summary, _time, _id}`, and nothing else changes |
| Ingest.SaveMeta | add_swepapers.py:75-78 | the metas store gains or replaces the key `doi` with `{_time, _id: doi}`, and nothing else changes |
| Ingest.Upserts | add_swepapers.py:85-91 | a sequence of `store[k] = v` writes; its meaning is given by the four `Upserts` lemmas below |
| Ingest.PaperWrites | add_swepapers.py:85-88 | the papers-store writes of the loop; `SaveAll` and `WritesWithoutFaults` tie it to the stores |
| Ingest.MetaWrites | add_swepapers.py:85-88 | the metas-store writes, skipped for a paper whose first save raised |
| Ingest.Failed | add_swepapers.py:85-90 | the logged dois, in order |
| Ingest.UpsertsLastWins | add_swepapers.py:85-91 | a key holds the value of its last write |
| Ingest.UpsertsUntouched | add_swepapers.py:85-91 | a key that is never written keeps its presence and value |
| Ingest.UpsertsOverlay | add_swepapers.py:85-91 | the writes act as one map laid over the old store |
| Ingest.UpsertsIdempotent | add_swepapers.py:85-91 | repeating the same writes changes nothing more |
| Ingest.WritesWithoutFaults | add_swepapers.py:85-88 | without faults every paper is written to both stores in list order and none is logged |
| Ingest.IngestLastWriteWins | add_swepapers.py:73-88 | with duplicate dois, each doi ends up holding the documents of its last paper in both stores |
| Ingest.SaveAll | add_swepapers.py:85-91 | each store equals its old contents updated by the writes that did not raise; a paper save that raises skips the meta save; the failed dois are logged in order |
| Ingest.IngestMain | add_swepapers.py:80-91 | the stores end as the sorted accepted papers' writes applied in order |
| Ingest.IngestIdempotent | add_swepapers.py:80-91 | a second run with the same rows and outcomes leaves both stores as one run does |

## Left out

- Flask routing, sessions, the `g.user` context, templates and `render_pid`: these only render the page. The other routes (`/stats`, `/about`) and the static JavaScript files are left out for the same reason.
- Store access (`get_papers`, `get_metas` and the sqlitedict files behind them) is not modelled: a store is a map, and its iteration order is a parameter.
- The PostgreSQL connection, `load_dotenv`, logging setup and progress printing in add_swepapers.py are I/O. The fetched rows are a parameter, and the log is the returned list of failed dois.
- The original `except:` catches any exception; the model lets only the two saves raise, which covers what the `try` block can throw apart from I/O faults in store access.
- Ranking.TimeRank, Request.Recent: the day scores `(tnow - _time) / 86400` and the filter test `tnow - _time < deltat` are computed exactly in real numbers, not as IEEE floats.
- Ranking.SearchRank: scores are integers. The source accumulates them as floats, but every term is a small integer, so the values agree.
- Ranking.Shuffle: the generator behind `random.shuffle` is not modelled. Its draws are the parameter `rand`, and the model fixes the Fisher-Yates order `shuffle` uses.
- Sorting.SortDesc: the Timsort behind `sorted` (add_swepapers.py:66, serve.py:117) is modelled as a functional insertion sort. The result is the same, because both sorts are stable.
- Ranking.SortHits: the in-place `pairs.sort(reverse=True)` (serve.py:145) is modelled as a functional insertion sort on the `(score, pid)` tuples. The pairs are distinct, so any correct sort gives the same list.
- PyText.IsSpace, PyText.Lower, Ingest.MarkerAt: characters are restricted to ASCII; Unicode whitespace, Unicode digits and non-ASCII case mapping (which `str.lower` and the regex classes `\s`, `\d`, `\w` also cover) are not modelled.
- PyText.ParseInt: only the ASCII forms of `int()` are accepted (optional sign, digits with single underscores, surrounding TAB..CR and SPACE); non-ASCII digits and the non-ASCII whitespace that `int()` also trims are not. The limit of 4300 digits that CPython 3.11 and later impose on `int()` (a `ValueError`) is not modelled.
- Ingest.Normalize: an `authors` value that is neither text nor an array of text, or an array holding a NULL element, makes `re.sub` raise `TypeError` at add_swepapers.py:50-52, which ends the run before any save. `AuthorsField` has no such values, so this abort is not modelled.
- Query.Score: author entries that are dicts (`a['name']`) are not modelled; the stores hold plain author strings, which is what add_swepapers.py writes.
