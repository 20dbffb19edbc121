/** Active-user aggregation over commit-search events, and the paginated fetch
    that feeds it page by page (app/loaders.py). */
module Loaders {
  import opened Results
  import opened Dates
  import opened Ordering
  import opened Metrics

  /** One commit-search item, reduced to the paths the aggregation reads:
      `repository` is `item["repository"]["full_name"]`, `author` is
      `item["author"]["login"]` (`None` when either lookup fails, including GitHub's
      `"author": null`), `commitDate` is `item["commit"]["author"]["date"]` when that
      whole path exists, and `createdAt` is `item["created_at"]`. */
  datatype Event = Event(repository: Option<string>, author: Option<string>,
                         commitDate: Option<string>, createdAt: Option<string>)

  /** Why `_aggregate_active_users` raised: a `KeyError`/`TypeError` on the
      repository or author lookup, or the `ValueError` of `date.fromisoformat`. */
  datatype AggregateError = MissingRepository | MissingAuthor | InvalidDay(day: string)

  const ACTIVE_USERS := "active_users"

  /** `s.split("T", 1)[0]`: the part of `s` before its first 'T'. */
  function BeforeT(s: string): (r: string)
    ensures |r| <= |s| && r == s[..|r|]
    ensures forall i :: 0 <= i < |r| ==> r[i] != 'T'
    ensures |r| < |s| ==> s[|r|] == 'T'
  {
    if s == [] then []
    else if s[0] == 'T' then []
    else [s[0]] + BeforeT(s[1..])
  }

  /** The timestamp an event is dated by: the commit author's date if present,
      else `created_at`, else the empty string. */
  function Timestamp(e: Event): string {
    match e.commitDate
    case Some(d) => d
    case None => e.createdAt.GetOr("")
  }

  function DayOf(e: Event): string {
    BeforeT(Timestamp(e))
  }

  predicate Attributed(e: Event) {
    e.repository.Some? && e.author.Some?
  }

  /** The `users_by_repo_day` dictionary: (repo, day) to the set of logins. */
  type Groups = map<Key, set<string>>

  /** One iteration of the grouping loop on an event whose lookups succeed. */
  function AddEvent(g: Groups, e: Event): Groups
    requires Attributed(e)
  {
    var day := DayOf(e);
    if day == "" then g
    else
      var k := (e.repository.value, day);
      g[k := (if k in g then g[k] else {}) + {e.author.value}]
  }

  /** The grouping loop over a list of events: the dictionary it builds, or the
      error of the first event whose lookups fail. */
  function Scan(items: seq<Event>): Result<Groups, AggregateError>
    decreases |items|
  {
    if items == [] then Ok(map[])
    else
      match Scan(items[..|items| - 1])
      case Err(err) =>
        Err(err)
      case Ok(g) =>
        var e := items[|items| - 1];
        if e.repository.None? then Err(MissingRepository)
        else if e.author.None? then Err(MissingAuthor)
        else Ok(AddEvent(g, e))
  }

  /** The metric emitted for one (repo, day) group. */
  function ActiveUsersMetric(repo: string, d: Date, users: set<string>): Metric {
    Metric(Text(ACTIVE_USERS), d, |users| as real, map["repo" := Text(repo)])
  }

  /** The first key, in the given order, whose day is not an ISO date is `ks[i]`. */
  predicate FirstInvalidDay(ks: seq<Key>, i: int) {
    0 <= i < |ks| && FromIsoFormat(ks[i].1).None?
    && forall j :: 0 <= j < i ==> FromIsoFormat(ks[j].1).Some?
  }

  /** A first invalid day after a valid first key is the first invalid day of the whole list. */
  lemma FirstInvalidDayAfter(ks: seq<Key>, i: int)
    requires |ks| > 0 && FromIsoFormat(ks[0].1).Some? && FirstInvalidDay(ks[1..], i)
    ensures FirstInvalidDay(ks, i + 1) && ks[i + 1] == ks[1..][i]
  {
    forall j | 0 <= j < i + 1 ensures FromIsoFormat(ks[j].1).Some? {
      if j > 0 {
        assert ks[j] == ks[1..][j - 1];
      }
    }
  }

  /** The metrics of the keys `ks`, one per key in order. */
  predicate MetricsOfKeys(g: Groups, ks: seq<Key>, ms: seq<Metric>)
    requires forall i :: 0 <= i < |ks| ==> ks[i] in g
  {
    |ms| == |ks| && forall i :: 0 <= i < |ks| ==>
      FromIsoFormat(ks[i].1).Some? &&
      ms[i] == ActiveUsersMetric(ks[i].0, FromIsoFormat(ks[i].1).value, g[ks[i]])
  }

  lemma MetricsOfKeysCons(g: Groups, ks: seq<Key>, d: Date, ms: seq<Metric>)
    requires |ks| > 0 && forall i :: 0 <= i < |ks| ==> ks[i] in g
    requires FromIsoFormat(ks[0].1) == Some(d) && MetricsOfKeys(g, ks[1..], ms)
    ensures MetricsOfKeys(g, ks, [ActiveUsersMetric(ks[0].0, d, g[ks[0]])] + ms)
  {
    var out := [ActiveUsersMetric(ks[0].0, d, g[ks[0]])] + ms;
    forall i | 1 <= i < |ks|
      ensures FromIsoFormat(ks[i].1).Some? &&
        out[i] == ActiveUsersMetric(ks[i].0, FromIsoFormat(ks[i].1).value, g[ks[i]])
    {
      var tail := ks[1..];
      assert tail[i - 1] == ks[i];
      ConsIndex(out[0], ms, i);
    }
  }

  lemma ConsIndex<T>(x: T, s: seq<T>, i: int)
    requires 1 <= i <= |s|
    ensures ([x] + s)[i] == s[i - 1]
  {
  }

  /** The list comprehension over the given keys, in the given order; it fails
      at the first key whose day is not an ISO date. */
  function EmitKeys(g: Groups, ks: seq<Key>): (r: Result<seq<Metric>, AggregateError>)
    requires forall i :: 0 <= i < |ks| ==> ks[i] in g
    ensures r.Ok? <==> forall i :: 0 <= i < |ks| ==> FromIsoFormat(ks[i].1).Some?
    ensures r.Ok? ==> MetricsOfKeys(g, ks, r.value)
    ensures r.Err? ==> exists i :: FirstInvalidDay(ks, i) && r.error == InvalidDay(ks[i].1)
    decreases |ks|
  {
    if ks == [] then Ok([])
    else
      match FromIsoFormat(ks[0].1)
      case None =>
        assert FirstInvalidDay(ks, 0);
        Err(InvalidDay(ks[0].1))
      case Some(d) =>
        var tail := ks[1..];
        assert forall i :: 0 <= i < |tail| ==> tail[i] == ks[i + 1];
        var rest := EmitKeys(g, tail);
        match rest
        case Err(err) =>
          assert exists i :: FirstInvalidDay(ks, i) && err == InvalidDay(ks[i].1) by {
            var i :| FirstInvalidDay(tail, i) && err == InvalidDay(tail[i].1);
            FirstInvalidDayAfter(ks, i);
          }
          Err(err)
        case Ok(ms) =>
          MetricsOfKeysCons(g, ks, d, ms);
          Ok([ActiveUsersMetric(ks[0].0, d, g[ks[0]])] + ms)
  }

  /** The sorted list comprehension over the dictionary's items. */
  function Emit(g: Groups): Result<seq<Metric>, AggregateError> {
    EmitKeys(g, SortedKeys(g.Keys))
  }

  /** What `_aggregate_active_users(items)` returns or raises. */
  function Aggregate(items: seq<Event>): Result<seq<Metric>, AggregateError> {
    match Scan(items)
    case Err(err) => Err(err)
    case Ok(g) => Emit(g)
  }

  /** Once the grouping loop has failed on a prefix, later events change nothing. */
  lemma {:induction false} ScanErrorPersists(items: seq<Event>, n: nat)
    requires n <= |items| && Scan(items[..n]).Err?
    ensures Scan(items) == Scan(items[..n])
    decreases |items| - n
  {
    if n < |items| {
      assert items[..n + 1][..n] == items[..n];
      ScanErrorPersists(items, n + 1);
    } else {
      assert items[..n] == items;
    }
  }

  /** `_aggregate_active_users`: group the events by (repo, day), then emit one
      metric per group in ascending key order. */
  method AggregateActiveUsers(items: seq<Event>) returns (r: Result<seq<Metric>, AggregateError>)
    ensures r == Aggregate(items)
  {
    var usersByRepoDay: Groups := map[];
    for i := 0 to |items|
      invariant Scan(items[..i]) == Ok(usersByRepoDay)
    {
      var item := items[i];
      assert items[..i + 1][..i] == items[..i];
      if item.repository.None? {
        ScanErrorPersists(items, i + 1);
        return Err(MissingRepository);
      }
      if item.author.None? {
        ScanErrorPersists(items, i + 1);
        return Err(MissingAuthor);
      }
      var repo := item.repository.value;
      var user := item.author.value;
      var dt := match item.commitDate case Some(d) => d case None => item.createdAt.GetOr("");
      var day := BeforeT(dt);
      if day != "" {
        var key := (repo, day);
        var users := if key in usersByRepoDay then usersByRepoDay[key] else {};
        usersByRepoDay := usersByRepoDay[key := users + {user}];
      }
    }
    assert items[..|items|] == items;
    r := Emit(usersByRepoDay);
  }

  /** `load_active_users` on an already decoded document: `data.get("items", [])`. */
  method LoadActiveUsers(items: Option<seq<Event>>) returns (r: Result<seq<Metric>, AggregateError>)
    ensures r == Aggregate(items.GetOr([]))
    ensures items.None? || items == Some([]) ==> r == Ok([])
  {
    r := AggregateActiveUsers(items.GetOr([]));
  }

  // ---------------------------------------------------------------------------
  // Paginated fetch

  const SEARCH_URL := "https://api.github.com/search/commits"
  const ACCEPT := "application/vnd.github+json"
  const PER_PAGE := 100
  /** GitHub's answer to an invalid query or to a page past the searchable results. */
  const UNPROCESSABLE := 422

  /** One response: its status, the decoded `items` (absent when the body has
      none) and whether its `Link` header holds a `next` link. */
  datatype Response = Response(status: int, items: Option<seq<Event>>, hasNext: bool)

  /** One GET request: the URL, the headers and the query parameters q, per_page and page. */
  datatype Request = Request(url: string, headers: map<string, string>, query: string, perPage: int, page: int)

  datatype FetchError = HttpError(page: int, status: int) | BadItems(page: int, cause: AggregateError)

  /** The header dictionary: `Authorization` only for a truthy token. */
  function Headers(token: Option<string>): (h: map<string, string>)
    ensures "Accept" in h && h["Accept"] == ACCEPT
    ensures "Authorization" in h <==> token.Some? && token.value != ""
    ensures "Authorization" in h ==> h["Authorization"] == "Bearer " + token.value
    ensures h.Keys <= {"Accept", "Authorization"}
  {
    var h := map["Accept" := ACCEPT];
    if token.Some? && token.value != "" then h["Authorization" := "Bearer " + token.value] else h
  }

  function RequestFor(query: string, token: Option<string>, page: int): Request {
    Request(SEARCH_URL, Headers(token), query, PER_PAGE, page)
  }

  /** The remote endpoint: `server[p - 1]` answers page `p`; every page past the
      end of `server` is answered with 422. */
  function Respond(server: seq<Response>, page: int): Response {
    if 1 <= page <= |server| then server[page - 1] else Response(UNPROCESSABLE, None, false)
  }

  /** `raise_for_status()` raises for client and server errors only. */
  predicate RaisesForStatus(status: int): (b: bool)
    ensures b <==> status / 100 == 4 || status / 100 == 5
  {
    400 <= status < 600
  }

  /** The aggregation the loop applies to each page's items: `Aggregate` in
      `FetchActiveUsers`. The loop's own properties hold whatever it is. */
  type Aggregator = seq<Event> -> Result<seq<Metric>, AggregateError>

  /** What the loop does with one page: go on to the next page with these
      metrics, stop with them, or fail. */
  datatype PageOutcome = Continue(metrics: seq<Metric>) | Finish(metrics: seq<Metric>) | Fail(error: FetchError)

  /** What the loop does with one page, given the aggregation applied to its items. */
  function Step(agg: Aggregator, server: seq<Response>, page: int): (o: PageOutcome)
    ensures o.Continue? ==> 1 <= page <= |server|
  {
    var resp := Respond(server, page);
    if resp.status == UNPROCESSABLE then Finish([])
    else if RaisesForStatus(resp.status) then Fail(HttpError(page, resp.status))
    else
      match agg(resp.items.GetOr([]))
      case Err(err) => Fail(BadItems(page, err))
      case Ok(ms) => if resp.hasNext then Continue(ms) else Finish(ms)
  }

  function Prepend(ms: seq<Metric>, r: Result<seq<Metric>, FetchError>): Result<seq<Metric>, FetchError> {
    match r
    case Ok(rest) => Ok(ms + rest)
    case Err(err) => Err(err)
  }

  lemma PrependNothing(r: Result<seq<Metric>, FetchError>)
    ensures Prepend([], r) == r
  {
    if r.Ok? {
      assert [] + r.value == r.value;
    }
  }

  lemma PrependTwice(ms: seq<Metric>, more: seq<Metric>, r: Result<seq<Metric>, FetchError>)
    ensures Prepend(ms, Prepend(more, r)) == Prepend(ms + more, r)
  {
    if r.Ok? {
      assert ms + (more + r.value) == (ms + more) + r.value;
    }
  }

  /** The result of the loop started at `page`. */
  function Crawl(agg: Aggregator, server: seq<Response>, page: int): Result<seq<Metric>, FetchError>
    requires page >= 1
    decreases |server| + 1 - page
  {
    match Step(agg, server, page)
    case Continue(ms) => Prepend(ms, Crawl(agg, server, page + 1))
    case Finish(ms) => Ok(ms)
    case Fail(err) => Err(err)
  }

  /** The page at which the loop started at `page` stops: the first one that
      does not continue. */
  function LastPage(agg: Aggregator, server: seq<Response>, page: int): (n: int)
    requires page >= 1
    ensures page <= n && !Step(agg, server, n).Continue?
    ensures forall q :: page <= q < n ==> Step(agg, server, q).Continue?
    decreases |server| + 1 - page
  {
    if Step(agg, server, page).Continue? then LastPage(agg, server, page + 1) else page
  }

  /** One iteration of the loop in `fetch_active_users`, up to the decision to go on. */
  method FetchPage(server: seq<Response>, page: int) returns (o: PageOutcome)
    ensures o == Step(Aggregate, server, page)
    ensures Respond(server, page).status == UNPROCESSABLE ==> o == Finish([])
    ensures Respond(server, page).status != UNPROCESSABLE && RaisesForStatus(Respond(server, page).status) ==>
      o == Fail(HttpError(page, Respond(server, page).status))
    ensures Respond(server, page).status != UNPROCESSABLE && !RaisesForStatus(Respond(server, page).status) ==>
      var agg := Aggregate(Respond(server, page).items.GetOr([]));
      && (o.Fail? <==> agg.Err?)
      && (agg.Err? ==> o == Fail(BadItems(page, agg.error)))
      && (agg.Ok? ==> o.metrics == agg.value && (o.Continue? <==> Respond(server, page).hasNext))
  {
    var resp := Respond(server, page);
    if resp.status == UNPROCESSABLE {
      return Finish([]);
    }
    if RaisesForStatus(resp.status) {
      return Fail(HttpError(page, resp.status));
    }
    var pageMetrics := AggregateActiveUsers(resp.items.GetOr([]));
    if pageMetrics.Err? {
      return Fail(BadItems(page, pageMetrics.error));
    }
    if resp.hasNext {
      return Continue(pageMetrics.value);
    }
    return Finish(pageMetrics.value);
  }

  /** `fetch_active_users` against the pages `server` serves. Besides the result
      it returns the requests it sent, in order. */
  method FetchActiveUsers(server: seq<Response>, query: string, token: Option<string>)
    returns (r: Result<seq<Metric>, FetchError>, sent: seq<Request>)
    ensures r == Crawl(Aggregate, server, 1)
    ensures |sent| == LastPage(Aggregate, server, 1)
    ensures forall i :: 0 <= i < |sent| ==> sent[i] == RequestFor(query, token, i + 1)
  {
    var allMetrics: seq<Metric> := [];
    var page := 1;
    sent := [];
    PrependNothing(Crawl(Aggregate, server, 1));
    while true
      invariant 1 <= page <= LastPage(Aggregate, server, 1) && page <= |server| + 1
      invariant LastPage(Aggregate, server, page) == LastPage(Aggregate, server, 1)
      invariant Crawl(Aggregate, server, 1) == Prepend(allMetrics, Crawl(Aggregate, server, page))
      invariant |sent| == page - 1
      invariant forall i :: 0 <= i < |sent| ==> sent[i] == RequestFor(query, token, i + 1)
      decreases |server| + 1 - page
    {
      sent := sent + [RequestFor(query, token, page)];
      assert forall i :: 0 <= i < |sent| ==> sent[i] == RequestFor(query, token, i + 1);
      var outcome := FetchPage(server, page);
      match outcome
      case Fail(err) =>
        return Err(err), sent;
      case Finish(ms) =>
        return Ok(allMetrics + ms), sent;
      case Continue(ms) =>
        PrependTwice(allMetrics, ms, Crawl(Aggregate, server, page + 1));
        allMetrics := allMetrics + ms;
        page := page + 1;
    }
  }
}
