# codex-metrics core in Dafny

A model, with proofs, of the two pieces of data transformation in
codex-metrics:

- **Record parsing** (`app/metrics.py`). `_parse_common` turns one decoded
  record into a `Metric`. It copies the record and pops `name`, `date` and
  `value`. The date goes through `date.fromisoformat` and the value through
  `float`. Every other key becomes metadata. `parse_json` and `parse_csv` map
  that step over a list of records.
- **Active-user aggregation and pagination** (`app/loaders.py`).
  - `_aggregate_active_users` groups commit-search events by (repository, day)
    and collects the set of author logins for each group.
  - It emits one `active_users` metric per group, sorted by the (repository,
    day) pair. The metric's value is the number of distinct logins.
  - `load_active_users` applies it to a document's `items`.
  - `fetch_active_users` requests search pages 1, 2, 3, … in turn. It
    aggregates each page on its own and concatenates the results. It stops on
    status 422 or when a page has no `next` link.

Modules, one per file:

| file | module | contents |
|---|---|---|
| results.dfy | `Results` | `Option` and `Result` |
| dates.dfy | `Dates` | calendar dates, `date.isoformat`, `date.fromisoformat` and their round trip |
| ordering.dfy | `Ordering` | Python's `<` on strings and on `(str, str)` tuples, and `sorted` over a set of keys |
| metrics.dfy | `Metrics` | `Metric`, `float()` on decoded values, `_parse_common`, `parse_json`, `parse_csv` |
| loaders.dfy | `Loaders` | events, day extraction, the grouping loop, sorted emission, `load_active_users`, headers and the pagination loop |
| loader_facts.dfy | `LoaderFacts` | what aggregation and pagination compute, stated against set-comprehension reference definitions |
| loader_examples.dfy | `LoaderExamples` | worked examples: four commits on two repositories, a two-page fetch, cross-page double counting |

How the model is built:

- **Imperative loops stay loops.**
  - `AggregateActiveUsers` is a `for` loop that updates the grouping dictionary.
  - `FetchActiveUsers` is a `while true` loop that advances `page` and extends
    `allMetrics`.
  - `ParseCsv` is a `for` loop that appends one metric per row.
  - The first two are proved equal to the recursive specification functions
    `Aggregate` and `Crawl`. The lemmas in `LoaderFacts` then state what those
    functions mean.
  - `ParseCsv` is proved to meet the same contract as the recursive
    `ParseJson`: every row parses, in order, or the first failing row's error
    is raised.
- **Pure code stays pure.** The list comprehensions and the day-extraction
  expression are functions.
- **Values:**
  - A decoded record is a `map<string, Field>`. `Field` covers a string, a
    number, a boolean, `null` and a nested value. Python keeps JSON values as
    they are and does not coerce them, so `name` and the metadata are `Field`s.
  - Floating-point numbers are `real`.
- **Server and network:**
  - The remote search endpoint is a finite sequence of responses, one per page
    from page 1 on.
  - Every page past the end of that sequence answers 422. That is how GitHub's
    search answers a page past its result cap, and it makes the loop terminate.
  - `FetchActiveUsers` also returns the requests it sent, so their order and
    headers can be stated.
  - The pagination functions `Step`, `Crawl` and `LastPage` take the per-page
    aggregation as a parameter. `FetchActiveUsers` passes `Aggregate`, and the
    pagination lemmas hold for any aggregation.
  - The loop body is the method `FetchPage`, which `FetchActiveUsers` calls
    once per page.

Behaviour of the code worth knowing, which the model keeps:

- **Parse errors do not name the record.** A parse error names the missing key
  or the offending value, not the index of the record. Python raises a bare
  `KeyError`/`ValueError`.
- **Only HTTP errors name the page.** A failing status raises an `HTTPError`
  for the request of that page, which the model records as `HttpError(page,
  status)`. Items that do not aggregate re-raise the aggregation's own
  exception, which carries no page number. The model's `BadItems(page, cause)`
  adds the page, so the model's error says more than Python's does.
- **Invalid days fail.** Only an event whose extracted day is empty is skipped.
  A non-empty day that is not an ISO date makes the whole call fail at
  `date.fromisoformat`.
- **Order and errors.** Output is independent of event order only when every
  repository and author lookup succeeds. When some lookup fails, whether the
  call fails does not depend on order, but which lookup error is raised does.
- **Metadata values are not made strings.** They keep their decoded JSON value.
- **Days are sorted as strings.** Python sorts the day strings, not dates.
  `Ordering.IsoOrderIsChronological` proves the two orders agree on ISO dates.

## Model

| member | source | states |
|---|---|---|
| Dates.FromIsoFormat | app/metrics.py:26 | a string `date.fromisoformat` accepts is a valid calendar date whose ISO form is exactly that string |
| Dates.IsoFormatRoundTrip | app/metrics.py:26 | every valid date's `YYYY-MM-DD` form is accepted and decodes back to the same date |
| Ordering.StrLessIrreflexive | app/loaders.py:37 | no string is less than itself under Python's string order |
| Ordering.StrLessTransitive | app/loaders.py:37 | Python's string order is transitive |
| Ordering.StrLessTotal | app/loaders.py:37 | any two distinct strings are ordered one way or the other |
| Ordering.StrLessAfterPrefix | app/loaders.py:37 | a common prefix does not change how two strings compare |
| Ordering.IsoOrderIsChronological | app/loaders.py:37 | sorting ISO day strings is sorting the days chronologically, and equal strings mean equal days |
| Ordering.KeyLessTotal | app/loaders.py:37 | the tuple order on (repo, day) keys is total |
| Ordering.KeyLessTransitive | app/loaders.py:37 | the tuple order on (repo, day) keys is transitive |
| Ordering.Least | app/loaders.py:37 | a nonempty key set has a least key, which is in the set and below every other member |
| Ordering.SortedKeys | app/loaders.py:37 | `sorted` lists each key of the set exactly once, in strictly ascending order |
| Ordering.AscendingUnique | app/loaders.py:37 | two strictly ascending lists with the same members are equal, so the sorted order is unique |
| Metrics.ToFloat | app/metrics.py:27 | `float(v)` succeeds exactly on a number, a boolean or a numeric string; a number is kept, `True`/`False` give 1.0/0.0, a string is read as a decimal; `null`, a list or an object raise |
| Metrics.DateOf | app/metrics.py:26 | `date.fromisoformat(v)` succeeds exactly on a string in ISO form; a non-string raises; the date read back writes as that same string |
| Metrics.ParseDecimal | app/metrics.py:27 | `float(s)` on a string accepts only nonempty text; the value is at least 0 unless the text starts with '-', and at most 0 when it does |
| Metrics.ParseDecimalShape | app/metrics.py:27 | `float(s)` succeeds exactly when `s` is an optional '+' or '-' followed by ASCII digits and at most one '.', with at least one digit |
| Metrics.ParseUnsignedShape | app/metrics.py:27 | an unsigned numeral is accepted exactly when it is ASCII digits with at most one '.' and at least one digit |
| Metrics.ParseDecimalSigned | app/metrics.py:27 | `-W.F` reads as minus the value of `W.F`, and `+W.F` as the value itself |
| Metrics.ParseDecimalSign | app/metrics.py:27 | a '-' before any accepted unsigned numeral reads as minus its value, and a '+' as the value itself |
| Metrics.ParseUnsignedDigits | app/metrics.py:27 | a run of digits without a point reads as its decimal value |
| Metrics.ParseDecimalAccepts | app/metrics.py:27 | `"-2.5"` reads as -2.5 |
| Metrics.ParseDecimalFractionOnly | app/metrics.py:27 | `".5"` reads as 0.5 |
| Metrics.ParseDecimalRejects | app/metrics.py:27 | `"1e5"`, `"."`, `"1.2.3"` and `"-"` are rejected |
| Metrics.ParseDecimalPoint | app/metrics.py:27 | a numeral `W.F` (either part may be empty, not both) reads as W plus F divided by 10 to the number of F's digits |
| Metrics.ParseDecimalOfNumeral | app/metrics.py:27 | `float` reads a decimal numeral, with or without a minus sign, as its integer value |
| Metrics.ParseCommon | app/metrics.py:22-28 | parsing succeeds exactly when the three keys are present, the date is ISO and the value is numeric; the result carries the record's name, decoded date and value, and metadata equal to the record minus the three keys; each failure is the first one in pop order |
| Metrics.ParseRecordRoundTrip | app/metrics.py:22-28 | a metric written as a record, with metadata not using the reserved keys, parses back to itself |
| Metrics.ParseJson | app/metrics.py:31-39 | fails exactly when some record fails, with the first failing record's error; otherwise one metric per record, in order |
| Metrics.ParseCsv | app/metrics.py:42-53 | the appending loop succeeds exactly when every row parses, yields one metric per row in row order, and otherwise raises the first failing row's error |
| Metrics.JsonExample | tests/test_metrics.py:11-19 | the JSON test record parses to `Metric("pull_request_count", 2023-01-01, 10.0, {"repo": "example"})` |
| Metrics.CsvExample | tests/test_metrics.py:22-33 | the CSV test row, all text, parses to the same metric with value 5.0 |
| Loaders.BeforeT | app/loaders.py:26 | `split("T", 1)[0]` is the longest prefix with no 'T', followed by a 'T' when shorter than the string |
| Loaders.ScanErrorPersists | app/loaders.py:18-20 | once a lookup has failed the loop is over: later events do not change the outcome |
| Loaders.EmitKeys | app/loaders.py:30-38 | the comprehension succeeds exactly when every key's day is ISO, emitting for each key in order the metric of its repo, decoded day and user count; otherwise it raises for the first invalid day |
| Loaders.AggregateActiveUsers | app/loaders.py:15-39 | the grouping loop with early failure on a missing repository or author computes `Aggregate` |
| Loaders.LoadActiveUsers | app/loaders.py:42-47 | the aggregation of `items`, where missing or empty `items` yields no metrics |
| Loaders.RaisesForStatus | app/loaders.py:65 | `raise_for_status` raises exactly for a client error (4xx) or a server error (5xx) |
| Loaders.Headers | app/loaders.py:52-54 | `Accept` is always sent; `Authorization: Bearer <token>` is sent exactly when the token is present and non-empty; nothing else is sent |
| Loaders.LastPage | app/loaders.py:61-70 | the page the loop stops at is the first from the start page on that does not continue |
| Loaders.FetchPage | app/loaders.py:62-69 | one pass of the loop body, calling the aggregation loop on the page's items: a 422 response stops with no metrics; any other 4xx/5xx status fails with that page and status; items the aggregation rejects fail with the aggregation's error, to which the model adds the page (Python's re-raised error has none); otherwise the page's metrics are kept, and the loop goes on exactly when the response has a next link |
| Loaders.FetchActiveUsers | app/loaders.py:50-72 | the loop returns `Crawl(Aggregate, server, 1)` and sends requests for pages 1, 2, … up to the stopping page, each with the search URL, the headers, the query and 100 per page |
| LoaderFacts.DayRule | app/loaders.py:21-26 | the day comes from the commit author's date, else `created_at`, else is empty, and is the part before the first 'T' |
| LoaderFacts.ScanFailsAtFirst | app/loaders.py:18-20 | when the grouping loop fails, it raises the lookup error of the first event whose repository or author is missing: `MissingRepository` if the repository is missing, else `MissingAuthor` |
| LoaderFacts.ScanSucceedsIff | app/loaders.py:18-20 | the grouping loop finishes exactly when every event has a repository and an author |
| LoaderFacts.ScanGroups | app/loaders.py:17-28 | the dictionary's keys are exactly the (repo, day) pairs of dated events, each mapped to the set of those events' logins |
| LoaderFacts.EmitFollowsKeys | app/loaders.py:30-37 | the emitted metrics follow the sorted keys one to one, each the metric of its key's group |
| LoaderFacts.AggregateMetrics | app/loaders.py:30-36 | every metric is named `active_users`, has metadata exactly `{"repo": repo}`, is for an active key and counts that key's distinct contributors |
| LoaderFacts.AggregateAscending | app/loaders.py:37 | the metrics are strictly ascending by (repo, day), so no key appears twice |
| LoaderFacts.AggregateCoversActiveKeys | app/loaders.py:27-37 | every active (repo, day) key has a metric, and there are exactly as many metrics as active keys |
| LoaderFacts.EmitFailsIff | app/loaders.py:30-38 | emission fails exactly when the day of some group's key is not an ISO date |
| LoaderFacts.AggregateFailsIff | app/loaders.py:18-33 | aggregation fails exactly when some lookup fails or some active key's day is not an ISO date |
| LoaderFacts.AggregateRaises | app/loaders.py:15-39 | a failing aggregation raises the first failed lookup's error when some lookup fails, and otherwise the `ValueError` of the least active (repo, day) key, in sorted order, whose day is not an ISO date |
| LoaderFacts.EmitRaisesLeastInvalid | app/loaders.py:30-38 | a failing emission raises for the least key, in sorted order, whose day is not an ISO date |
| LoaderFacts.AggregateSameElements | app/loaders.py:17-37 | two event lists with the same members fail together and otherwise give the same metrics |
| LoaderFacts.AggregatePermutation | app/loaders.py:17-37 | any permutation of the events fails together with the original and otherwise gives the same metrics |
| LoaderFacts.AddKnownEvent | app/loaders.py:27-28 | adding an event already seen leaves the dictionary unchanged |
| LoaderFacts.AggregateDuplicate | app/loaders.py:17-37 | repeating any event does not change the result |
| LoaderFacts.UndatedEventIgnored | app/loaders.py:26-28 | an event whose day is empty does not change the result |
| LoaderFacts.StepOutcome | app/loaders.py:62-69 | what one page does to the loop: 422 ends it with nothing; it fails exactly when the status raises (an `HttpError` naming the page and status) or the items do not aggregate (the aggregation's error, to which the model adds the page); otherwise the page's metrics are kept, and it goes on exactly when there is a next link |
| LoaderFacts.CrawlFailsAtLastPage | app/loaders.py:59-72 | a failed fetch fails at the page it stops at, with that page's error |
| LoaderFacts.FetchStopsOnUnprocessable | app/loaders.py:61-64 | a 422 reached after continuing pages stops the fetch there, returning the earlier pages' metrics in page order |
| LoaderFacts.FetchStopsWithoutNext | app/loaders.py:66-69 | a successful page without a next link, reached after continuing pages, stops the fetch there, returning the earlier pages' metrics followed by its own |
| LoaderFacts.CrawlConcatenatesPages | app/loaders.py:59-72 | a clean stop returns every page's metrics concatenated in page order; an error at the stopping page is returned and earlier metrics are dropped |
| LoaderFacts.FetchRaisesOnErrorStatus | app/loaders.py:63-65 | a 4xx/5xx status other than 422 reached after continuing pages makes the fetch fail at that page with that status |
| LoaderFacts.LastPageIsFirstStop | app/loaders.py:61-70 | the stopping page is the first page that does not continue |
| LoaderExamples.DayBeforeT | app/loaders.py:26 | a day without 'T' followed by `T<time>` is read back as that day |
| LoaderExamples.ExampleGroups | app/loaders.py:17-28 | four commits group to {alice, bob}, {bob} and {alice} under their three keys |
| LoaderExamples.ExampleOrder | app/loaders.py:37 | the three keys sort as (repo1, 2023-01-01), (repo1, 2023-01-02), (repo2, 2023-01-01) |
| LoaderExamples.AggregateExample | app/loaders.py:15-39 | the four commits aggregate to counts 2, 1 and 1 in that order |
| LoaderExamples.SingleCommit | app/loaders.py:15-39 | one commit yields one metric with count 1 |
| LoaderExamples.FetchTwoPagesExample | app/loaders.py:59-72 | a page with one commit and a `next` link, then an empty page without one, gives one metric after two requests |
| LoaderExamples.FetchUnprocessableExample | app/loaders.py:63-64 | an immediate 422 is an empty result after one request, not an error |
| LoaderExamples.CrossPageDoubleCount | app/loaders.py:67 | the same user, repository and day on two pages gives two metrics |
| LoaderExamples.SamePageCountsOnce | app/loaders.py:17-28 | the same commit twice on one page gives one metric with count 1 |

## Left out

- HTTP is not modelled: `requests.get`, transport errors, `resp.json()` failures and the parsing of the `Link` header. A response is a status, the decoded `items` (absent or a list of events) and a has-next flag.
- A server that never stops answering is not modelled. The server is a finite sequence, and pages past its end answer 422.
- Opening files and the `json`/`csv` decoding are not modelled. The parsers work on already decoded records, and an event is reduced to the four paths the aggregation reads.
- Malformed event shapes are reduced to `None`. A failing repository or author lookup, whether a `KeyError` or a `TypeError` on `null`, becomes the `MissingRepository`/`MissingAuthor` error. A commit date path with an absent key falls back to `created_at`, as `.get` does. Null values are not modelled as Python treats them; see the line on null fields below.
- Null fields in an event are treated as absent, where Python raises or carries on:
  - A `null` `commit` or `commit.author` raises `AttributeError` in Python on the next `.get` (app/loaders.py:22-24). The model falls back to `created_at`.
  - A `null` or non-string `date`/`created_at` raises `AttributeError` in Python at `.split` (app/loaders.py:26). The model treats the event as undated and skips it.
  - A `null` `full_name` or `login` is accepted in Python as `None`. It only fails at `sorted` (app/loaders.py:37), and only when a `None` repository is compared with a string one. The model raises `MissingRepository`/`MissingAuthor` at once.
  - `"items": null` makes Python raise `TypeError` when iterating (app/loaders.py:18, reached from :47 and :67). The model's decoded items are a list, and an absent or null list reads as `[]`, giving no metrics.
- `Metrics.ParseDecimal`: accepts only an optional sign, digits and an optional fraction. Python's `float()` also accepts exponents, `inf`/`nan`, surrounding whitespace and underscores, which the model rejects.
- Floating-point rounding is not modelled: values are exact reals.
- `Metrics.ToFloat`: a JSON integer beyond the range of a double makes `float()` raise `OverflowError`; the model returns its exact value.
- `Metrics.ParseDecimal`: Python's `float()` also reads non-ASCII decimal digits (for example Arabic-Indic digits); the model accepts ASCII digits only.
- `Loaders.FetchActiveUsers`: the defaults `query="codex"` and `token=None` of `fetch_active_users` are not modelled; the query and the token are always passed.
- `Dates.FromIsoFormat`: accepts exactly `YYYY-MM-DD` with ASCII digits and years 1 to 9999. This is the form that `date.fromisoformat` accepted before Python 3.11. The extra forms accepted since 3.11 (such as `YYYYMMDD` and ISO week dates) are not modelled.
- `raise_for_status` is modelled as raising for statuses 400 to 599. Any other non-422 status goes on to decode the page.
- "The caller's record is not mutated" is not a separate lemma. Records are immutable values in the model, so `_parse_common` working on a copy holds by construction.
- `app/main.py` (the Streamlit page, the chart and reading `GITHUB_TOKEN`) and `theme.py` (a plotting template) are not part of this model.
