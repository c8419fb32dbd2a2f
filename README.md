# App-review topic trends, modelled in Dafny

The system turns batches of app-store reviews into a rolling 30-day count of
how many reviews mention each topic. It then renders that count as a report.
A day's run passes through five agents, in order:

1. **Cleaner** (`CleanerMemory`, `cleaner.dfy`): lowercases each review text
   and turns every character outside `[a-z0-9\s]` into a space. It then
   collapses whitespace runs and strips the ends. Reviews whose text comes
   out empty are dropped.
2. **Topic discovery** (`TopicDiscovery`, `discovery.dfy`): classifies each
   cleaned review by the first seed topic that has a word, lowercased,
   occurring as a substring of the lowercased text. The seed "App crash"
   matches the text "happy", for example. When no seed topic matches, it
   uses the first rule of a fixed keyword table that fires. It returns one candidate per topic, with the review texts as
   evidence, in order of first occurrence.
3. **Topic deduplicator** (`TopicDeduplicator`, `deduplicator.dfy`): folds
   each candidate into the canonical topic store. If the candidate equals a
   canonical name or alias, ignoring case, it is merged as an alias. If not,
   it becomes a new canonical topic. The store is seeded with the seed
   topics when the agent is created.
4. **Topic counter** (`TopicCounter`, `counter.dfy`): for the run's date,
   zeroes the count of every canonical topic. It then adds one to the first
   matching topic of each review not counted on an earlier run, recognised
   by an MD5 fingerprint of text and rating. It records the new
   fingerprints and drops counts older than the 30-day retention window.
5. **Report generator** (`ReportGenerator`, `report.dfy`): builds the 30
   days ending at the target date and fills every topic's row with zeros
   where a count is missing. It drops all-zero rows and renders the rest as
   a JSON-shaped report, a CSV table and an HTML table.

`foundation.dfy` holds the shared pieces:

- `Wrappers.Option`, standing for Python's `None`-or-value.
- Dates as day numbers (`Calendar`).
- Python's insertion-ordered `dict` as a key sequence plus a map (`OrderedDict`).
- The string functions the agents call, with Python's semantics (`Text`).
- The rule that both discovery and the counter use to match a review to a
  topic (`Matching`): some word of the lowercased topic name is a substring
  of the lowercased text.

The stores are values, and each agent's `run` takes and returns them. The
loops that build or update a store or an output are methods with `while`
loops. These are the cleaner's, discovery's and counter's review loops, the
deduplicator's candidate loop, seeding, zeroing, the sliding window, the date range and the
report, CSV and HTML loops. Each method's `ensures` gives its result in full.
Most methods are equated with a function that is recursive over the input
(`CleanAll`, `Discovered`, `ResolveAll`, `CountAll`, `Seeded`, `Rows`). The
sliding window (`Retain`, `Windowed`) and the dense report (`FullReport`)
are map comprehensions. The date range is stated in closed form:
`dates[i] == target - 29 + i`. The source's promises are proved as lemmas
about these functions.

The first-match searches return from inside their loop: `_find_match`,
`_is_semantically_same`, `_match_seed_topic`, `_match_keyword_topic` and
`_match_review_to_topic`. They are recursive functions (`FindMatchIn`,
`IsSemanticallySame`, `FirstNameMatch`, `FirstFiringRule`). Lemmas state
that each returns the first match in order, or none exactly when nothing
matches.

## Model

| member | source | states |
|---|---|---|
| Matching.FirstNameMatchSpec | agents/topic_counter.py:68-75 | the topic matched to a review is the first topic, in store order, that has a word occurring in the lowercased text; no topic is matched exactly when no topic has such a word |
| Matching.BlankNameNeverMatches | agents/topic_discovery.py:101-104 | a topic name that is empty or all whitespace has no words, so it never matches any review |
| Matching.MatchedNameNotEmpty | agents/topic_counter.py:47 | a matched topic is never the falsy `""`, so every match passes the `if matched_topic` test |
| CleanerMemory.CleanTextFacts | agents/cleaner_memory.py:38-49 | the cleaned text holds only `a-z`, `0-9` and single spaces, with no space at either end, and it keeps exactly the letters and digits of the lowercased input, in order |
| CleanerMemory.CollapseSpaceFacts | agents/cleaner_memory.py:48 | on a text of letters, digits and whitespace, collapsing whitespace leaves only letters, digits and single spaces, and keeps every letter and digit in order |
| CleanerMemory.StripFacts | agents/cleaner_memory.py:49 | stripping a collapsed text gives the normal form and loses no letter or digit |
| CleanerMemory.KeepAlnumReplaceSpecial | agents/cleaner_memory.py:47 | replacing special characters by spaces loses no letter or digit |
| CleanerMemory.CleanTextIdempotent | agents/cleaner_memory.py:38-49 | cleaning an already-cleaned text changes nothing |
| CleanerMemory.CleanTextFixesCleanText | agents/cleaner_memory.py:38-49 | a text already in the normal form is its own cleaning |
| CleanerMemory.CleanTextEmptyIff | agents/cleaner_memory.py:38-49 | a text cleans to `""` exactly when it contains no ASCII letter or digit |
| CleanerMemory.Run | agents/cleaner_memory.py:22-36 | the loop returns the cleaned batch: no longer than the input, and every kept text non-empty and in normal form |
| CleanerMemory.CleanAllShape | agents/cleaner_memory.py:24-34 | the cleaned batch is never longer than the input, and every text in it is non-empty and clean |
| CleanerMemory.CleanAllMembers | agents/cleaner_memory.py:24-34 | a review is in the output exactly when some input review's text cleans to a non-empty text; the output carries that cleaned text and the input's rating unchanged |
| CleanerMemory.CleanAllConcat | agents/cleaner_memory.py:24-36 | cleaning two batches in turn gives the concatenation of their cleanings, so input order is kept |
| TopicDiscovery.FirstFiringRule | agents/topic_discovery.py:108-120 | the keyword topic comes from the first table rule with a primary key in the text and either no secondary keys or a secondary key in the text; no earlier rule fires |
| TopicDiscovery.KeywordOnlyWithoutSeed | agents/topic_discovery.py:84 | a matching seed topic always wins; the keyword table decides only when no seed topic matches |
| TopicDiscovery.ReviewTopicOrigin | agents/topic_discovery.py:79-86 | a review's topic is a seed topic or a topic of the keyword table |
| TopicDiscovery.Run | agents/topic_discovery.py:77-93 | the loop returns the candidate list of the grouping dictionary specified by `Discovered` |
| TopicDiscovery.DiscoveredKeys | agents/topic_discovery.py:88 | the grouping dictionary's keys are the matched topics, each once, in order of first occurrence |
| TopicDiscovery.DiscoveredEvidence | agents/topic_discovery.py:79-88 | a topic is a key exactly when some review is classified under it, and its list is the texts of exactly those reviews, in review order |
| TopicDiscovery.RunTopics | agents/topic_discovery.py:77-93 | the returned topics are pairwise distinct and are exactly the topics of the matched reviews |
| TopicDiscovery.RunTopicsOrder | agents/topic_discovery.py:90-93 | the returned candidates are in order of their topic's first matching review |
| TopicDiscovery.RunEvidence | agents/topic_discovery.py:90-93 | every candidate's evidence is the texts of the reviews classified under its topic, in review order |
| TopicDiscovery.RunTopicOrigin | agents/topic_discovery.py:84-93 | every returned topic is a seed topic or a keyword-table topic |
| TopicDiscovery.RunTotalEvidence | agents/topic_discovery.py:77-93 | the evidence lists together hold one text per matched review, so no review is lost or counted twice |
| TopicDeduplicator.IsSemanticallySame | agents/topic_deduplicator.py:98-119 | a candidate is the same topic exactly when, ignoring case, it equals the canonical name or one of its aliases |
| TopicDeduplicator.FindMatchInSpec | agents/topic_deduplicator.py:86-96 | the match is the first canonical topic, in store order, that the candidate is the same as; there is none exactly when no topic is |
| TopicDeduplicator.MissMeansAbsent | agents/topic_deduplicator.py:86-96 | when no match is found, the candidate is not already a canonical name |
| TopicDeduplicator.FindMatchCaseInsensitive | agents/topic_deduplicator.py:110-118 | candidates that differ only in case find the same canonical topic |
| TopicDeduplicator.MergeAlias | agents/topic_deduplicator.py:121-132 | merging an alias keeps the store well formed and its key order unchanged |
| TopicDeduplicator.MergeAliasEffect | agents/topic_deduplicator.py:121-132 | merging touches only the matched topic: its aliases gain the candidate at the end unless already present, its creation date is kept and its update date becomes today |
| TopicDeduplicator.CreateNewTopicEffect | agents/topic_deduplicator.py:134-139 | creating a topic stores it with no aliases and both dates today, appended after the existing topics |
| TopicDeduplicator.ResolveOneEffect | agents/topic_deduplicator.py:55-66 | per candidate: a miss appends a new topic named by the candidate; a match keeps the keys and adds the candidate to the matched topic's aliases; a `""` match takes the create branch |
| TopicDeduplicator.Run | agents/topic_deduplicator.py:50-69 | the loop returns the store specified by `ResolveAll` over the candidate topics, in order |
| TopicDeduplicator.ResolveAllKeys | agents/topic_deduplicator.py:52-66 | after the run, the store's keys are the old keys followed by the candidates that created a topic, each once, in order |
| TopicDeduplicator.ResolveAllKeysOrigin | agents/topic_deduplicator.py:52-66 | no topic is ever removed, and every topic after the run was there before or is one of the candidates |
| TopicDeduplicator.CreatedAreCandidates | agents/topic_deduplicator.py:64-66 | every created topic is one of the candidate topics |
| TopicDeduplicator.MatchAfterCreate | agents/topic_deduplicator.py:52-66 | once a candidate has created a topic, a later candidate equal to it ignoring case matches that topic |
| TopicDeduplicator.LaterMergesIntoEarlier | agents/topic_deduplicator.py:52-66 | of two new candidates equal ignoring case, the first creates the topic and the second becomes its alias |
| TopicDeduplicator.ResolvingAliasesAreUnique | agents/topic_deduplicator.py:86-96 | when every alias is found first at its own topic, no alias string is held by two topics |
| TopicDeduplicator.ResolveOneKeepsAliasesResolve | agents/topic_deduplicator.py:55-66 | merging or creating one candidate keeps every alias found first at its own topic; a merged candidate is found first at the topic it joined |
| TopicDeduplicator.ResolveAllKeepsAliasesUnique | agents/topic_deduplicator.py:52-66 | if every alias is found first at its own topic before the run, the same holds after it, and no alias is held by two topics |
| TopicDeduplicator.SeededKeepsAliasesResolve | agents/topic_deduplicator.py:19-25 | seeding adds only alias-free topics at the end, so every alias is still found first at its own topic |
| TopicDeduplicator.SeededThenRunAliasesUnique | agents/topic_deduplicator.py:19-66 | a store seeded from empty and then updated by `run` never holds an alias under two topics |
| TopicDeduplicator.UnresolvedAliasGetsShared | agents/topic_deduplicator.py:52-63 | from a store where "b" holds alias "x" after key "X", the candidate "x" merges into "X" as well, so "x" is held by two topics |
| TopicDeduplicator.SeedTopics | agents/topic_deduplicator.py:19-25 | the seeding loop returns the store specified by `Seeded` |
| TopicDeduplicator.SeededEffect | agents/topic_deduplicator.py:19-25 | seeding appends the missing seed topics, in order, with no aliases and today's dates, and leaves existing topics untouched |
| TopicDeduplicator.SeededNoop | agents/topic_deduplicator.py:19-25 | seeding a store that already has every seed topic changes nothing |
| TopicDeduplicator.SeedIdempotent | agents/topic_deduplicator.py:19-25 | seeding twice, on any two days, is the same as seeding once; re-seeding never overwrites an entry |
| TopicCounter.HashKeyInjective | agents/topic_counter.py:62-66 | for ratings missing or from 0 to 9, two reviews give the same hashed string exactly when they have the same text and rating |
| TopicCounter.HashKeyCollision | agents/topic_counter.py:62-66 | with two-digit ratings, different reviews can give the same hashed string (text "a1" with rating 2 and text "a" with rating 12) |
| TopicCounter.NewSeenIsUnseen | agents/topic_counter.py:34-50 | the fingerprints gathered in `new_seen` are exactly the batch's fingerprints that were not seen on earlier runs |
| TopicCounter.ZeroTopics | agents/topic_counter.py:30-32 | the zeroing loop returns the store specified by `ZeroInit` |
| TopicCounter.CountReview | agents/topic_counter.py:37-50 | one pass of the review loop changes the store as `CountOne` specifies and adds the review's fingerprint to `new_seen` when it was not seen before |
| TopicCounter.CountReviews | agents/topic_counter.py:36-50 | the review loop returns the store specified by `CountAll`, and `new_seen` holds the batch's previously unseen fingerprints |
| TopicCounter.RetainDates | agents/topic_counter.py:82-84 | the deletion loop keeps exactly the dates on or after the cut-off, with their counts |
| TopicCounter.ApplySlidingWindow | agents/topic_counter.py:77-84 | every topic keeps only the dates on or after the cut-off; no topic is removed |
| TopicCounter.Run | agents/topic_counter.py:26-55 | the new trend store is the one specified by `RunTrend` and stays well formed; the seen set grows by exactly the batch's fingerprints |
| TopicCounter.ZeroInitKeys | agents/topic_counter.py:30-31 | zeroing appends the topics new to the trend store, in order, after the existing ones |
| TopicCounter.ZeroInitEntry | agents/topic_counter.py:30-32 | zeroing sets each topic's count for the date to 0 and keeps its other dates; other topics are untouched |
| TopicCounter.CountOneEntry | agents/topic_counter.py:37-48 | one review adds one to its first matching topic at the date, if it was not seen before, and changes nothing else |
| TopicCounter.CountAllEntry | agents/topic_counter.py:36-50 | the review loop adds each topic's tally of unseen matching reviews to its count at the date and changes nothing else |
| TopicCounter.SeenReviewIgnored | agents/topic_counter.py:40-41 | a review whose fingerprint was already seen adds nothing to any count |
| TopicCounter.ReplayCountsNothing | agents/topic_counter.py:40-41 | a batch whose fingerprints were all seen before counts nothing |
| TopicCounter.DuplicateInBatchCountsTwice | agents/topic_counter.py:36-50 | two identical unseen reviews in one batch are both counted, because only earlier runs' fingerprints are checked |
| TopicCounter.TallyBound | agents/topic_counter.py:36-50 | a topic's count for the run is at most the batch size, and 0 for a name that is not a topic |
| TopicCounter.RunTrendKeys | agents/topic_counter.py:30-55 | after a run, the trend store's keys are the old ones followed by the new topics, in order |
| TopicCounter.RunTopicEffect | agents/topic_counter.py:30-55 | after a run, each topic's count for the date is its tally, the dates kept are the prior and new dates within the window, and the other counts are unchanged |
| TopicCounter.RunKeepsCountsNonNegative | agents/topic_counter.py:30-55 | a run never makes a count negative |
| TopicCounter.ReplayResetsCounts | agents/topic_counter.py:30-50 | re-running a date with an already-recorded batch leaves that date's count at 0 rather than keeping the earlier count |
| ReportGenerator.GenerateDateRange | agents/report_generator.py:45-55 | the loop produces 30 consecutive days ending at the target date |
| ReportGenerator.DateRangeOrder | agents/report_generator.py:45-55 | the columns run from target−29 to the target, strictly increasing, and hold exactly the days in that interval |
| ReportGenerator.BuildFullReport | agents/report_generator.py:23-27 | the loop gives every trend topic, in store order, a row with exactly the window's days, each holding its stored count or 0 |
| ReportGenerator.DenseActivity | agents/report_generator.py:30-34 | a dense row has a positive value exactly when the topic has a positive stored count on some day of the window |
| ReportGenerator.ReportContents | agents/report_generator.py:23-34 | a topic is reported exactly when it has a positive count within the window; its row has exactly the window's days, each with the stored count or 0 |
| ReportGenerator.OutsideWindowIgnored | agents/report_generator.py:23-34 | counts outside the window do not affect the report |
| ReportGenerator.ActiveKeysOrder | agents/report_generator.py:30-34 | the kept topics appear in the order of the full report |
| ReportGenerator.ReportOrder | agents/report_generator.py:23-34 | the report is a well-formed dictionary whose topics appear in trend-store order |
| ReportGenerator.HeaderRowCells | agents/report_generator.py:68 | the header row is "Topic" followed by the window's days, in order |
| ReportGenerator.DataRowCells | agents/report_generator.py:71 | a data row is the topic followed by its count on each day of the window, in column order |
| ReportGenerator.RowsShape | agents/report_generator.py:68-71 | the table is the header row followed by one data row per reported topic, in report order |
| ReportGenerator.CsvRows | agents/report_generator.py:63-73 | the CSV loop writes exactly the table: header, then one row per reported topic |
| ReportGenerator.HtmlHeader | agents/report_generator.py:149-152 | the header loop writes one header cell per column of the header row |
| ReportGenerator.HtmlDataRow | agents/report_generator.py:156-159 | the row loop writes one data cell per column of the topic's row |
| ReportGenerator.HtmlRows | agents/report_generator.py:148-159 | the HTML table is the markup of exactly the CSV table, so both views show the same rows and columns |
| ReportGenerator.Run | agents/report_generator.py:18-39 | the report, CSV and HTML are built from the same 30-day columns and the same filtered rows |
| ReportGenerator.ReportShowsTally | agents/report_generator.py:23-34 | after a counter run, a topic counted on the target date is reported, and its target-date cell is the run's tally |
| ReportGenerator.OldestRetainedDayNotReported | agents/report_generator.py:47 | the counter keeps target−30, which the 30-column report does not show |

## Left out

- Files and JSON are not modelled: reading and writing the stores, the seed file and the report files, the fallbacks to an empty store, and directory creation. The stores are passed in and returned as values.
- MD5 is a function parameter `hash`. Its collision resistance is not assumed; the fingerprint lemmas are stated on the hashed string.
- Dates are integer day numbers. Parsing with `strptime`, `isoformat` rendering and `_today()` are not modelled; today's date is a parameter.
- Lowercasing covers ASCII letters only. Python's full Unicode `lower()` is not modelled, but `\s` and `str.split()` use Python's whitespace set.
- The HTML output is modelled as a sequence of row-open, header-cell, data-cell and row-close tokens. The stylesheet and the literal tag text are not modelled, and neither is the fact that topic names are written without HTML escaping.
- The CSV output is modelled as rows of cells. The `csv` module's quoting is not modelled.
- Updates in place are modelled as new store values. The source mutates each store in place, and `_merge_alias` appends to the alias list in place. No two topic entries share an alias list, because each entry is created with a fresh `[]` (agents/topic_deduplicator.py:19-25 and :134-139), so no aliasing is lost.
- The order of dates inside one topic's counts is not modelled, because counts are a `map`. Nothing reads that order except the JSON writer.
- The review ingestor, `main.py`, the daily controller and `config.py` are not part of this model. `ReportGenerator.ReportShowsTally` chains the counter and the report directly.
- TopicCounter.HashKeyInjective: stated only for ratings that are missing or from 0 to 9. `HashKeyCollision` shows two-digit ratings collide.
- TopicCounter.RetainDates: the source's `datetime` comparison is modelled as comparison of day numbers.
- A cleaned review always carries a "rating" key, so the counter's `review.get("rating", "")` default never applies. A missing rating is `None`, and the counter hashes it as the string "None".

## Behaviours of the code a reader may not expect

- Two identical reviews in the same batch are both counted. The skip at agents/topic_counter.py:40 tests only the fingerprints loaded from earlier runs. The batch's own fingerprints are collected in `new_seen` (line 50) and merged only after the loop (lines 52-53). See `TopicCounter.DuplicateInBatchCountsTwice`.
- Re-running a date resets that date's counts to 0 before counting (agents/topic_counter.py:32). Replaying an already-counted batch therefore leaves 0, not the earlier count. See `TopicCounter.ReplayResetsCounts`.
- The counter matches reviews against canonical topic names only (agents/topic_counter.py:71-72). Aliases play no part in counting.
- The counter keeps dates on or after target−30, which is 31 days (agents/topic_counter.py:79-84). The report shows 30 (agents/report_generator.py:47). See `ReportGenerator.OldestRetainedDayNotReported`.
- A `""` match is falsy, so it takes the create branch (agents/topic_deduplicator.py:57). See `TopicDeduplicator.ResolveOneEffect`.
- When every alias leads back to its own topic (searching for the alias finds its topic first), no alias is held by two topics (`TopicDeduplicator.ResolvingAliasesAreUnique`). Seeding and `run` keep this invariant, so a store seeded from empty never shares an alias (`TopicDeduplicator.SeededThenRunAliasesUnique`). A store loaded in some other shape can come to share one (`TopicDeduplicator.UnresolvedAliasGetsShared`).
