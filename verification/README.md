# Indeed job-listing watcher — a Dafny model of its core

The watcher polls an Indeed search page for web-developer jobs in France once
an hour. For each result card it extracts a listing:

- title, company and location;
- a link, which is the listing's identity;
- a publication date, with relative French phrases such as "il y a 3 jours"
  or "hier" resolved against the clock.

It then reconciles the batch into a SQLite table keyed by URL. A listing whose
URL is new is inserted and reported as new. A known URL only has its
`last_seen` timestamp refreshed. A small Flask view lists the stored listings,
newest `last_seen` first, optionally narrowed by a `LIKE '%q%'` search on
title, company or location.

This project models that core as pure functions over immutable data, and proves
what each step promises:

- `relative_date.dfy`: the date resolver `convertir_date_relative`.
- `text.dfy`: the string primitives the core relies on: `lower()`, the `in`
  substring test and `strip()`.
- `extract.dfy`: the per-card extraction loop of the scraper's `get_annonces`,
  where a card with a missing part is skipped without disturbing the others.
- `listing.dfy`: the stored entity.
- `store.dfy`: the reconciliation `save_annonces`, as a fold of one
  insert-or-update step over the batch. It is proved equal to an independent
  closed form: append the first listing of each unseen URL, then give every
  row the `last_seen` of the last batch listing with its URL. The order
  matters: a batch holding one unseen URL twice inserts the first listing and
  then updates it with the second one's stamp.
- `search.dfy`: the web view's `get_annonces(search)`. It covers SQLite's
  `LIKE` with its `%` and `_` wildcards and ASCII case folding, the filter, a
  stable sort by `last_seen` descending, and the five-column projection.
- `pipeline.dfy`: one pass of the main loop, which extracts and then saves,
  with a single clock reading.
- `outcome.dfy`: `Option` and `Result`.

Modelling choices:

- **Time.** A point in time is a count of microseconds since 0001-01-01T00:00.
  It is bounded by the last representable instant of 9999-12-31.
- **Dates.** A day is the number of days since 0001-01-01.
- **Overflow.** Subtracting past the first representable instant raises
  `OverflowError` in Python. The model returns `Err(OutOfRange)`, and the
  extraction loop's `except` then skips that card. A count too large for
  `timedelta` itself (over 999 999 999 days) raises the same error. Such a
  duration is longer than any representable instant lies after 0001-01-01,
  so the model's one comparison with `now` covers that case too.
- **The table.** It is the sequence of its rows in `id` order. The `UNIQUE`
  constraint on `url` is the invariant `UniqueUrls`, which every operation
  preserves.

Behaviour of the code worth knowing:

- **`last_seen` is overwritten, not kept monotone.** `save_annonces` sets
  `last_seen` to the incoming stamp, whatever it is. It does not increase
  `last_seen` per URL whatever the input. `Store.SaveAllFreshness` and
  `Pipeline.CycleNeverGoesBack` state monotonicity only under a clock that
  does not run backwards.
- **The search ignores ASCII case.** SQLite's `LIKE` folds ASCII letters, so
  "web" finds "Développeur Web". A plain case-sensitive substring test would
  not.
- **Wildcards in the search text are live.** A `%` or `_` in the search text
  acts as a wildcard, because `get_annonces` splices the text into the
  pattern unescaped. The "contains" characterisation (`Search.LikeIsContains`)
  therefore holds for wildcard-free search text.
- **Only the first matching span is used.** The publication-date span is the
  first span after the card that mentions "il y a" (`find_next`). Only the
  first `il y a N word` phrase in it is read.

## Model

| member | source | states |
|---|---|---|
| Text.Strip | scraper.py:86-88 | `strip()` yields the text with only leading and trailing whitespace (Python's `isspace` set) removed: the input is the result framed by two whitespace runs, and the result neither starts nor ends with whitespace |
| RelativeDate.Back | scraper.py:57 | subtracting a duration from now and taking `.date()` gives the day that contains the earlier instant, and fails exactly when that instant would fall before 0001-01-01 |
| RelativeDate.NumeralRoundTrip | scraper.py:61 | `int()` of the decimal digits of any natural number gives that number back, so the captured group is read as the number written |
| RelativeDate.MatchAt | scraper.py:59 | a match of `il y a (\d+) (\w+)` at a position captures a non-empty digit run and a non-empty maximal word run separated by one space |
| RelativeDate.MatchAtComplete | scraper.py:59 | every place where the pattern's shape occurs is found by the matcher, with the same groups (greedy `\d+` and `\w+` take maximal runs) |
| RelativeDate.Search | scraper.py:59 | `re.search` returns the leftmost match: it is a match, no match starts earlier, and when it finds none there is none anywhere |
| RelativeDate.Resolve | scraper.py:51-70 | an unresolved text comes back exactly as given, and a resolved date is never later than the reference day |
| RelativeDate.ResolveToday | scraper.py:54-55 | a text mentioning "aujourd" in any letter case resolves to the reference day, whatever else it holds |
| RelativeDate.ResolveYesterday | scraper.py:56-57 | a text mentioning "hier" but not "aujourd" resolves to the day before, even when it also holds an "il y a" phrase; it fails on the first representable day |
| RelativeDate.ResolveAgo | scraper.py:59-68 | "il y a N jour(s)/heure(s)/minute(s)" resolves to the day N days, hours or minutes back |
| RelativeDate.ResolveUnchanged | scraper.py:54-70 | the text is passed through unchanged exactly when neither keyword occurs and either no phrase matches or its unit names none of jour, heure and minute |
| Extract.DateSpanFrom | scraper.py:90 | `find_next` picks the first span from a position on whose text mentions "il y a" in any case, or reports that none does |
| Extract.CardDate | scraper.py:90-91 | no date span gives "inconnue"; otherwise the date is the resolver's reading of the stripped span text, which is never after today and, when unresolved, is that stripped text |
| Extract.ExtractCardMeaning | scraper.py:85-100 | a card yields a listing exactly when title, company, location and link are all present and the date does not overflow; the listing then has stripped fields, `url = "https://fr.indeed.com" + href` and `last_seen` = now |
| Extract.ExtractAll | scraper.py:84-105 | the loop yields at most one listing per card, each stamped with the clock reading and with a URL on the site root |
| Extract.EveryCardAccounted | scraper.py:84-103 | every card is either collected or logged as skipped |
| Extract.ExtractAllAppend | scraper.py:84-105 | cards are processed independently: the listings of two runs of cards are the two results concatenated |
| Extract.BadCardIsolated | scraper.py:101-103 | a card whose processing raises is dropped and changes nothing about the listings of the cards around it |
| Extract.GoodCardsKept | scraper.py:84-100 | when every card succeeds, the listings are those cards' listings, one per card, in card order |
| Extract.OneCardWithoutTitle | scraper.py:86 | a page where one card lacks its title and the others are complete yields one listing fewer than it has cards, with one `NoTitle` warning |
| Store.Upsert | scraper.py:110-119 | the insert succeeds exactly when the URL is not stored; either way the table's URLs gain the listing's URL, its length grows only on insert, and uniqueness of URLs is kept |
| Store.SaveAll | scraper.py:107-121 | the table grows by exactly the number of reported listings, its URLs become the old ones plus the batch's, and uniqueness is kept |
| Store.SaveAllClosedForm | scraper.py:107-121 | the loop's result equals an independent description: the first listing of each unseen URL appended in batch order, then every row given the `last_seen` of the last batch listing with its URL |
| Store.SaveAllReportsNew | scraper.py:108-116 | the reported list is exactly the first batch listing of each URL the table did not hold, in batch order, without repeats |
| Store.SaveAllKeepsRows | scraper.py:116-119 | stored rows keep every field but `last_seen` and their place, nothing is deleted, an absent URL's row is untouched, and a present one takes the stamp of its last batch listing |
| Store.SaveAllKeepsUnique | scraper.py:45 | the table never holds two rows with one URL |
| Store.SaveAllIdempotent | scraper.py:107-121 | saving the same batch a second time reports nothing and leaves the table exactly as it was |
| Store.SaveAllAllNew | scraper.py:111-115 | a batch of distinct, all-unseen URLs is inserted whole, in order, and reported whole |
| Store.SaveAllFreshness | scraper.py:117-119 | when the batch is stamped no earlier than anything stored, no `last_seen` goes back, and one stamped strictly later moves forward |
| Store.OverlappingCycles | scraper.py:107-121 | batches {A, B} then {B', C}: the table ends as A, B with B''s `last_seen`, C; the second save reports only C |
| Search.Where | app.py:19 | the filter keeps exactly the rows whose title, company or location is `LIKE` the pattern, in table order |
| Search.Insert | app.py:20 | inserting into a newest-first sequence gives a newest-first permutation of it plus the new row |
| Search.OrderBySeen | app.py:20 | `ORDER BY last_seen DESC` gives a permutation of its input that is newest first |
| Search.LikeIsContains | app.py:19-22 | for search text without wildcards, `LIKE '%q%'` holds exactly when the text contains `q`, ignoring ASCII case |
| Search.WebMatchesDeveloperWeb | app.py:19-22 | the search "web" finds the title "Développeur Web" |
| Search.WebMissesAnalysteData | app.py:19-22 | the search "web" leaves out a listing titled "Analyste Data" with empty company and location |
| Search.GetAnnoncesAll | app.py:24-29 | without a search text, every stored listing comes back exactly once, as its five columns title, company, location, date and URL |
| Search.GetAnnoncesMatching | app.py:15-23 | with a non-empty wildcard-free search text, a listing's row comes back exactly when its title, company or location contains the text, ignoring ASCII case |
| Search.GetAnnoncesNewestFirst | app.py:16-29 | the rows come ordered by the stored `last_seen`, newest first |
| Search.WhereOrderBySeen | app.py:16-23 | filtering before or after the sort gives the same rows |
| Search.GetAnnoncesNarrows | app.py:11-33 | the rows of a search are a subsequence of the rows of the unfiltered query |
| Pipeline.RunCycle | scraper.py:161-162 | one pass accounts for every card, keeps URLs unique, and reports only listings stamped now whose URL was not stored |
| Pipeline.CycleStamps | scraper.py:161-162 | after a pass, a stored row whose URL was collected carries now as `last_seen`, every other stored row is unchanged, and the appended rows are the reported listings |
| Pipeline.CycleNeverGoesBack | scraper.py:117-119 | while the clock is no earlier than every stored `last_seen`, a pass moves none back and leaves none later than now |
| Pipeline.CycleRepeated | scraper.py:159-166 | repeating a pass on the same page at the same clock reading changes nothing and reports nothing |

## Left out

- Fetching the page: the HTTP request with its error path that returns an empty list, and the HTML parser with its CSS selectors. A card is given as the texts its selectors would find.
- `export_html`: it formats the same query as text and writes a file.
- `envoyer_email`: SMTP delivery, the environment variables and the skip on an empty list. The model's reported list is what would be e-mailed.
- The hourly `while True` loop, `time.sleep`, logging text, the Flask route and template rendering, and the database connection and commit.
- Reading the clock. It becomes a parameter, and one extraction pass uses a single reading. The scraper calls `datetime.now()` once per card for `last_seen` and once per resolver call.
- Text formats. Dates and timestamps are numbers, not `isoformat()` strings. Ordering by the number agrees with SQLite ordering the ISO text: the text has fixed-width fields, and the optional fraction only makes a string longer.
- Unicode. `lower()`, `\d` and `\w` are modelled for ASCII: non-ASCII letters are neither folded nor word characters, and non-ASCII digits are not digits. SQLite's `LIKE` folds only ASCII, as modelled.
- `int()`'s limit on the length of digit strings, and SQLite's `LIKE` escape handling. The query has no `ESCAPE` clause.
- Search.GetAnnoncesNewestFirst: rows with equal `last_seen` come in table order in the model. SQL leaves their order unspecified, so the property proved is the ordering by stamp alone.
- Search.WhereOrderBySeen: filtering commutes with the sort as sequences because the model breaks `last_seen` ties in table order. SQL leaves the order of equal stamps unspecified, so it guarantees the commutation only for the rows' order among distinct `last_seen` values; rows from one pass share a stamp, so ties are common.
- Search.GetAnnoncesNarrows: the search's rows are a subsequence of the unfiltered rows under the model's table-order tie-break. SQL guarantees that only among rows with distinct `last_seen`; among equal stamps two queries may order rows differently.
- Search.LikeIsContains: stated only for search text without `%` or `_`. With wildcards, `Search.Like` gives the exact meaning and no substring reading applies.
