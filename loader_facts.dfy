/** What the aggregation and the paginated fetch compute, stated against
    reference definitions: which (repo, day) keys are active, who was active on
    each, and how pages combine. */
module LoaderFacts {
  import opened Results
  import opened Dates
  import opened Ordering
  import opened Metrics
  import opened Loaders

  /** The (repo, day) group an event falls into, if it is dated. */
  function KeyOf(e: Event): Option<Key> {
    if e.repository.Some? && DayOf(e) != "" then Some((e.repository.value, DayOf(e))) else None
  }

  /** Every (repo, day) pair some dated event of `items` falls into. */
  ghost function ActiveKeys(items: seq<Event>): set<Key> {
    set e | e in items && KeyOf(e).Some? :: KeyOf(e).value
  }

  /** The distinct logins of the events of `items` in group `k`. */
  ghost function Contributors(items: seq<Event>, k: Key): set<string> {
    set e | e in items && e.author.Some? && KeyOf(e) == Some(k) :: e.author.value
  }

  predicate AllAttributed(items: seq<Event>) {
    forall i :: 0 <= i < |items| ==> Attributed(items[i])
  }

  /** The repository recorded in a metric's metadata. */
  function RepoOf(m: Metric): string {
    if "repo" in m.metadata && m.metadata["repo"].Text? then m.metadata["repo"].text else ""
  }

  /** The (repo, day) pair a metric speaks for. */
  function MetricKey(m: Metric): Key {
    (RepoOf(m), if Valid(m.date) then ToIsoFormat(m.date) else "")
  }

  /** The day is read from the commit author's date when the event has one,
      else from `created_at`, else it is empty; in each case it is the longest
      prefix without a 'T', ending just before the first 'T' if there is one. */
  lemma DayRule(e: Event)
    ensures var src := if e.commitDate.Some? then e.commitDate.value else e.createdAt.GetOr("");
      && DayOf(e) == src[..|DayOf(e)|]
      && (forall i :: 0 <= i < |DayOf(e)| ==> DayOf(e)[i] != 'T')
      && (|DayOf(e)| < |src| ==> src[|DayOf(e)|] == 'T')
    ensures e.commitDate.None? && e.createdAt.None? ==> DayOf(e) == ""
  {
  }

  lemma ActiveKeysSnoc(pre: seq<Event>, e: Event)
    ensures ActiveKeys(pre + [e]) == ActiveKeys(pre) + (if KeyOf(e).Some? then {KeyOf(e).value} else {})
  {
    assert forall x :: x in pre + [e] <==> x in pre || x == e;
  }

  lemma ContributorsSnoc(pre: seq<Event>, e: Event, k: Key)
    ensures Contributors(pre + [e], k)
         == Contributors(pre, k) + (if e.author.Some? && KeyOf(e) == Some(k) then {e.author.value} else {})
  {
    assert forall x :: x in pre + [e] <==> x in pre || x == e;
  }

  /** The grouping loop gets through the list exactly when every repository and
      author lookup succeeds. */
  lemma {:induction false} ScanSucceedsIff(items: seq<Event>)
    ensures Scan(items).Ok? <==> AllAttributed(items)
    decreases |items|
  {
    if items != [] {
      var pre := items[..|items| - 1];
      ScanSucceedsIff(pre);
      assert forall i :: 0 <= i < |pre| ==> pre[i] == items[i];
    }
  }

  /** The error a failed lookup on `e` raises: the repository is looked up first. */
  function LookupError(e: Event): AggregateError {
    if e.repository.None? then MissingRepository else MissingAuthor
  }

  /** `items[i]` is the first event whose repository or author lookup fails. */
  predicate FirstUnattributed(items: seq<Event>, i: int) {
    0 <= i < |items| && !Attributed(items[i]) && forall j :: 0 <= j < i ==> Attributed(items[j])
  }

  /** When the grouping loop fails, it raises the lookup error of the first
      event whose repository or author is missing. */
  lemma {:induction false} ScanFailsAtFirst(items: seq<Event>)
    ensures Scan(items).Err? ==>
      exists i :: FirstUnattributed(items, i) && Scan(items).error == LookupError(items[i])
    decreases |items|
  {
    if items != [] && Scan(items).Err? {
      var n := |items| - 1;
      var pre := items[..n];
      assert forall j :: 0 <= j < n ==> pre[j] == items[j];
      ScanFailsAtFirst(pre);
      if Scan(pre).Err? {
        var i :| FirstUnattributed(pre, i) && Scan(pre).error == LookupError(pre[i]);
        assert FirstUnattributed(items, i);
      } else {
        ScanSucceedsIff(pre);
        assert FirstUnattributed(items, n);
      }
    }
  }

  /** `g` holds exactly the active keys of `items`, each with its contributors. */
  ghost predicate GroupsOf(g: Groups, items: seq<Event>) {
    g.Keys == ActiveKeys(items) && forall k :: k in g ==> g[k] == Contributors(items, k)
  }

  /** One iteration of the grouping loop keeps the dictionary in step with the events seen. */
  lemma AddEventGroups(g: Groups, pre: seq<Event>, e: Event)
    requires Attributed(e) && GroupsOf(g, pre)
    ensures GroupsOf(AddEvent(g, e), pre + [e])
  {
    var g' := AddEvent(g, e);
    ActiveKeysSnoc(pre, e);
    forall k | k in g' ensures g'[k] == Contributors(pre + [e], k) {
      ContributorsSnoc(pre, e, k);
    }
  }

  /** The dictionary the loop builds holds exactly the active keys, each with its
      set of distinct contributors. */
  lemma {:induction false} ScanGroups(items: seq<Event>)
    requires Scan(items).Ok?
    ensures Scan(items).value.Keys == ActiveKeys(items)
    ensures forall k :: k in Scan(items).value ==> Scan(items).value[k] == Contributors(items, k)
    decreases |items|
  {
    if items == [] {
      assert GroupsOf(map[], items);
    } else {
      var pre := items[..|items| - 1];
      var e := items[|items| - 1];
      assert items == pre + [e];
      ScanGroups(pre);
      AddEventGroups(Scan(pre).value, pre, e);
    }
  }

  /** The metric emitted for a key speaks for that key. */
  lemma MetricOfKey(g: Groups, k: Key, m: Metric)
    requires k in g && FromIsoFormat(k.1).Some?
    requires m == ActiveUsersMetric(k.0, FromIsoFormat(k.1).value, g[k])
    ensures Valid(m.date) && MetricKey(m) == k
  {
    assert RepoOf(m) == k.0;
  }

  /** The emitted metrics follow the sorted keys one to one. */
  lemma EmitFollowsKeys(g: Groups, ms: seq<Metric>)
    requires Emit(g) == Ok(ms)
    ensures |ms| == |g.Keys|
    ensures forall i :: 0 <= i < |ms| ==>
      && Valid(ms[i].date)
      && MetricKey(ms[i]) == SortedKeys(g.Keys)[i]
      && ms[i] == ActiveUsersMetric(MetricKey(ms[i]).0, ms[i].date, g[MetricKey(ms[i])])
  {
    var ks := SortedKeys(g.Keys);
    assert MetricsOfKeys(g, ks, ms);
    forall i | 0 <= i < |ms|
      ensures Valid(ms[i].date) && MetricKey(ms[i]) == ks[i]
    {
      MetricOfKey(g, ks[i], ms[i]);
    }
  }

  /** Every metric of a successful aggregation is named "active_users", carries
      `{"repo": repo}` as metadata and counts the distinct contributors of an
      active (repo, day) key. */
  lemma AggregateMetrics(items: seq<Event>, ms: seq<Metric>)
    requires Aggregate(items) == Ok(ms)
    ensures forall i :: 0 <= i < |ms| ==>
      && Valid(ms[i].date)
      && MetricKey(ms[i]) in ActiveKeys(items)
      && ms[i].name == Text(ACTIVE_USERS)
      && ms[i].metadata == map["repo" := Text(MetricKey(ms[i]).0)]
      && ms[i].value == |Contributors(items, MetricKey(ms[i]))| as real
  {
    var g := Scan(items).value;
    assert Emit(g) == Ok(ms);
    ScanGroups(items);
    EmitFollowsKeys(g, ms);
    var ks := SortedKeys(g.Keys);
    forall i | 0 <= i < |ms|
      ensures MetricKey(ms[i]) in ActiveKeys(items)
      ensures ms[i].value == |Contributors(items, MetricKey(ms[i]))| as real
    {
      assert ks[i] in g.Keys;
    }
  }

  /** The metrics are in strictly ascending (repo, day) order: sorted, and at most
      one per key. */
  lemma AggregateAscending(items: seq<Event>, ms: seq<Metric>)
    requires Aggregate(items) == Ok(ms)
    ensures forall i, j :: 0 <= i < j < |ms| ==> KeyLess(MetricKey(ms[i]), MetricKey(ms[j]))
  {
    var g := Scan(items).value;
    assert Emit(g) == Ok(ms);
    EmitFollowsKeys(g, ms);
  }

  /** Every active key gets a metric, so there are exactly as many metrics as
      active keys. */
  lemma AggregateCoversActiveKeys(items: seq<Event>, ms: seq<Metric>)
    requires Aggregate(items) == Ok(ms)
    ensures |ms| == |ActiveKeys(items)|
    ensures forall k :: k in ActiveKeys(items) ==> exists i :: 0 <= i < |ms| && MetricKey(ms[i]) == k
  {
    var g := Scan(items).value;
    assert Emit(g) == Ok(ms);
    ScanGroups(items);
    EmitFollowsKeys(g, ms);
    var ks := SortedKeys(g.Keys);
    forall k | k in ActiveKeys(items) ensures exists i :: 0 <= i < |ms| && MetricKey(ms[i]) == k {
      assert k in ks;
      var i :| 0 <= i < |ks| && ks[i] == k;
      assert MetricKey(ms[i]) == k;
    }
  }

  /** The aggregation fails exactly when some lookup fails or some active key's
      day is not an ISO date. */
  lemma AggregateFailsIff(items: seq<Event>)
    ensures Aggregate(items).Err? <==>
      !AllAttributed(items) || exists k :: k in ActiveKeys(items) && FromIsoFormat(k.1).None?
  {
    ScanSucceedsIff(items);
    if AllAttributed(items) {
      ScanGroups(items);
      EmitFailsIff(Scan(items).value);
    }
  }

  /** In a strictly ascending list, a key below another comes at a smaller index. */
  lemma AscendingIndexOrder(ks: seq<Key>, i: int, j: int)
    requires StrictlyAscending(ks) && 0 <= i < |ks| && 0 <= j < |ks|
    ensures KeyLess(ks[j], ks[i]) ==> j < i
  {
    if i == j {
      KeyLessIrreflexive(ks[i]);
    } else if i < j {
      KeyLessAsymmetric(ks[i], ks[j]);
    }
  }

  /** `k` is the least key of `s`, in (repo, day) order, whose day is not a calendar date. */
  predicate LeastInvalidDay(s: set<Key>, k: Key) {
    k in s && FromIsoFormat(k.1).None? && forall k' :: k' in s && KeyLess(k', k) ==> FromIsoFormat(k'.1).Some?
  }

  /** A failing emission raises the `ValueError` of the least key, in (repo, day)
      order, whose day is not a calendar date. */
  lemma EmitRaisesLeastInvalid(g: Groups)
    requires Emit(g).Err?
    ensures exists k :: LeastInvalidDay(g.Keys, k) && Emit(g).error == InvalidDay(k.1)
  {
    var ks := SortedKeys(g.Keys);
    var i :| FirstInvalidDay(ks, i) && Emit(g).error == InvalidDay(ks[i].1);
    var k := ks[i];
    forall k' | k' in g && KeyLess(k', k) ensures FromIsoFormat(k'.1).Some? {
      assert k' in ks;
      var j :| 0 <= j < |ks| && ks[j] == k';
      AscendingIndexOrder(ks, i, j);
    }
    assert LeastInvalidDay(g.Keys, k);
  }

  /** Emission fails exactly when some group's day is not a calendar date. */
  lemma EmitFailsIff(g: Groups)
    ensures Emit(g).Err? <==> exists k :: k in g && FromIsoFormat(k.1).None?
  {
    var ks := SortedKeys(g.Keys);
    if exists k :: k in g && FromIsoFormat(k.1).None? {
      var k :| k in g && FromIsoFormat(k.1).None?;
      assert k in ks;
      var i :| 0 <= i < |ks| && ks[i] == k;
    }
  }

  /** Which error a failing aggregation raises: the lookup error of the first
      event with a missing repository or author; when there is none, the
      `ValueError` of the least active key whose day is not a calendar date. */
  lemma AggregateRaises(items: seq<Event>)
    requires Aggregate(items).Err?
    ensures !AllAttributed(items) ==>
      exists i :: FirstUnattributed(items, i) && Aggregate(items).error == LookupError(items[i])
    ensures AllAttributed(items) ==>
      exists k :: LeastInvalidDay(ActiveKeys(items), k) && Aggregate(items).error == InvalidDay(k.1)
  {
    ScanSucceedsIff(items);
    if AllAttributed(items) {
      ScanGroups(items);
      var g := Scan(items).value;
      EmitRaisesLeastInvalid(g);
    } else {
      ScanFailsAtFirst(items);
    }
  }

  lemma AttributedSameElements(a: seq<Event>, b: seq<Event>)
    requires forall e :: e in a <==> e in b
    ensures AllAttributed(a) <==> AllAttributed(b)
  {
    if AllAttributed(a) {
      forall i | 0 <= i < |b| ensures Attributed(b[i]) {
        assert b[i] in a;
      }
    }
    if AllAttributed(b) {
      forall i | 0 <= i < |a| ensures Attributed(a[i]) {
        assert a[i] in b;
      }
    }
  }

  /** Two dictionaries that both group the same events are equal. */
  lemma GroupsOfSameElements(ga: Groups, a: seq<Event>, gb: Groups, b: seq<Event>)
    requires forall e :: e in a <==> e in b
    requires GroupsOf(ga, a) && GroupsOf(gb, b)
    ensures ga == gb
  {
    assert ActiveKeys(a) == ActiveKeys(b);
    forall k | k in ga ensures ga[k] == gb[k] {
      assert Contributors(a, k) == Contributors(b, k);
    }
  }

  /** The output depends only on which events occur, not on their order or
      multiplicity. Which lookup error is raised may depend on the order. */
  lemma AggregateSameElements(a: seq<Event>, b: seq<Event>)
    requires forall e :: e in a <==> e in b
    ensures Aggregate(a).Err? <==> Aggregate(b).Err?
    ensures AllAttributed(a) ==> Aggregate(a) == Aggregate(b)
  {
    ScanSucceedsIff(a);
    ScanSucceedsIff(b);
    AttributedSameElements(a, b);
    if AllAttributed(a) {
      ScanGroups(a);
      ScanGroups(b);
      GroupsOfSameElements(Scan(a).value, a, Scan(b).value, b);
    }
  }

  /** Any permutation of the events yields the same list. */
  lemma AggregatePermutation(a: seq<Event>, b: seq<Event>)
    requires multiset(a) == multiset(b)
    ensures Aggregate(a).Err? <==> Aggregate(b).Err?
    ensures AllAttributed(a) ==> Aggregate(a) == Aggregate(b)
  {
    assert forall e :: e in a <==> e in multiset(a);
    assert forall e :: e in b <==> e in multiset(b);
    AggregateSameElements(a, b);
  }

  /** Adding an event that is already among those grouped changes nothing. */
  lemma AddGroupedEvent(g: Groups, items: seq<Event>, e: Event)
    requires GroupsOf(g, items) && e in items && Attributed(e)
    ensures AddEvent(g, e) == g
  {
    if KeyOf(e).Some? {
      var k := KeyOf(e).value;
      assert k in ActiveKeys(items);
      assert e.author.value in Contributors(items, k);
      assert g[k] + {e.author.value} == g[k];
    }
  }

  /** Adding an event that is already in the list leaves the dictionary as it is. */
  lemma AddKnownEvent(items: seq<Event>, e: Event)
    requires Scan(items).Ok? && e in items
    ensures Attributed(e) && AddEvent(Scan(items).value, e) == Scan(items).value
  {
    ScanSucceedsIff(items);
    ScanGroups(items);
    AddGroupedEvent(Scan(items).value, items, e);
  }

  /** Repeating an event changes nothing. */
  lemma AggregateDuplicate(items: seq<Event>, i: nat)
    requires i < |items|
    ensures Aggregate(items + [items[i]]) == Aggregate(items)
  {
    var all := items + [items[i]];
    assert all[..|all| - 1] == items;
    if Scan(items).Ok? {
      AddKnownEvent(items, items[i]);
      assert Scan(all) == Scan(items);
    }
  }

  /** An event without a day (no date, or one starting with 'T') contributes
      nothing, once its lookups succeed. */
  lemma UndatedEventIgnored(items: seq<Event>, e: Event)
    requires Attributed(e) && DayOf(e) == ""
    ensures Aggregate(items + [e]) == Aggregate(items)
  {
    var all := items + [e];
    assert all[..|all| - 1] == items;
  }

  // ---------------------------------------------------------------------------
  // Pagination

  /** What one page makes the loop do: 422 stops it with nothing; otherwise it
      fails exactly when `raise_for_status` raises or the page's items do not
      aggregate, and the error names the page; otherwise the page's metrics are
      kept, and it goes on exactly when there is a next page. */
  lemma StepOutcome(agg: Aggregator, server: seq<Response>, page: int)
    ensures var resp, o := Respond(server, page), Step(agg, server, page);
      && (resp.status == UNPROCESSABLE ==> o == Finish([]))
      && (o.Fail? <==> resp.status != UNPROCESSABLE && (RaisesForStatus(resp.status) || agg(resp.items.GetOr([])).Err?))
      && (o.Fail? ==> o.error.page == page)
      && (!o.Fail? && resp.status != UNPROCESSABLE ==> agg(resp.items.GetOr([])) == Ok(o.metrics))
      && (o.Continue? <==> !o.Fail? && resp.status != UNPROCESSABLE && resp.hasNext)
  {
  }

  /** The metrics of pages `first` up to but excluding `stop`, all of which continue,
      concatenated in page order. */
  function PagesConcat(agg: Aggregator, server: seq<Response>, first: int, stop: int): seq<Metric>
    requires 1 <= first
    requires forall q :: first <= q < stop ==> Step(agg, server, q).Continue?
    decreases stop - first
  {
    if first >= stop then [] else Step(agg, server, first).metrics + PagesConcat(agg, server, first + 1, stop)
  }

  /** A page that continues: the loop goes on from the next page, stops where that
      run stops, and its metrics come first. */
  lemma CrawlContinues(agg: Aggregator, server: seq<Response>, page: int)
    requires page >= 1 && Step(agg, server, page).Continue?
    ensures Crawl(agg, server, page) == Prepend(Step(agg, server, page).metrics, Crawl(agg, server, page + 1))
    ensures LastPage(agg, server, page) == LastPage(agg, server, page + 1)
    ensures PagesConcat(agg, server, page, LastPage(agg, server, page))
         == Step(agg, server, page).metrics + PagesConcat(agg, server, page + 1, LastPage(agg, server, page))
  {
  }

  /** The concatenation the loop started at `page` returns, when it stops cleanly. */
  predicate ConcatenatesFrom(agg: Aggregator, server: seq<Response>, page: int)
    requires page >= 1
  {
    var n := LastPage(agg, server, page);
    && (Step(agg, server, n).Finish? ==> Crawl(agg, server, page) == Ok(PagesConcat(agg, server, page, n) + Step(agg, server, n).metrics))
    && (Step(agg, server, n).Fail? ==> Crawl(agg, server, page) == Err(Step(agg, server, n).error))
  }

  /** A continuing page passes the property on from the next page. */
  lemma ConcatenatesBack(agg: Aggregator, server: seq<Response>, page: int)
    requires page >= 1 && Step(agg, server, page).Continue? && ConcatenatesFrom(agg, server, page + 1)
    ensures ConcatenatesFrom(agg, server, page)
  {
    CrawlContinues(agg, server, page);
    var n := LastPage(agg, server, page);
    var last := Step(agg, server, n);
    var ms := Step(agg, server, page).metrics;
    if last.Finish? {
      var rest := PagesConcat(agg, server, page + 1, n);
      assert ms + (rest + last.metrics) == (ms + rest) + last.metrics;
    }
  }

  /** A page that does not continue ends the loop there. */
  lemma ConcatenatesAtStop(agg: Aggregator, server: seq<Response>, page: int)
    requires page >= 1 && !Step(agg, server, page).Continue?
    ensures ConcatenatesFrom(agg, server, page)
  {
    var last := Step(agg, server, page);
    assert LastPage(agg, server, page) == page;
    assert PagesConcat(agg, server, page, page) == [];
    if last.Finish? {
      assert [] + last.metrics == last.metrics;
    }
  }

  /** The loop requests pages until the first one that does not continue; it
      returns the concatenation of every page's metrics in page order when that
      page ends it cleanly (422, or no `next` link), and that page's error
      otherwise. Metrics of earlier pages are then discarded. */
  lemma {:induction false} CrawlConcatenatesPages(agg: Aggregator, server: seq<Response>, page: int)
    requires page >= 1
    ensures Step(agg, server, LastPage(agg, server, page)).Finish? ==>
      Crawl(agg, server, page) == Ok(PagesConcat(agg, server, page, LastPage(agg, server, page)) + Step(agg, server, LastPage(agg, server, page)).metrics)
    ensures Step(agg, server, LastPage(agg, server, page)).Fail? ==>
      Crawl(agg, server, page) == Err(Step(agg, server, LastPage(agg, server, page)).error)
    decreases |server| + 1 - page
  {
    if Step(agg, server, page).Continue? {
      CrawlConcatenatesPages(agg, server, page + 1);
      ConcatenatesBack(agg, server, page);
    } else {
      ConcatenatesAtStop(agg, server, page);
    }
  }

  /** When the loop fails, it fails at the page it stops at, with that page's error. */
  lemma CrawlFailsAtLastPage(agg: Aggregator, server: seq<Response>, page: int)
    requires page >= 1
    ensures Crawl(agg, server, page).Err? ==>
      && Step(agg, server, LastPage(agg, server, page)) == Fail(Crawl(agg, server, page).error)
      && Crawl(agg, server, page).error.page == LastPage(agg, server, page)
  {
    CrawlConcatenatesPages(agg, server, page);
    StepOutcome(agg, server, LastPage(agg, server, page));
  }

  /** A 422 reached after continuing pages ends the loop cleanly: the result is
      the metrics of the earlier pages, in page order. */
  lemma FetchStopsOnUnprocessable(agg: Aggregator, server: seq<Response>, n: int)
    requires n >= 1 && forall q :: 1 <= q < n ==> Step(agg, server, q).Continue?
    requires Respond(server, n).status == UNPROCESSABLE
    ensures LastPage(agg, server, 1) == n
    ensures Crawl(agg, server, 1) == Ok(PagesConcat(agg, server, 1, n))
  {
    LastPageIsFirstStop(agg, server, 1, n);
    CrawlConcatenatesPages(agg, server, 1);
    assert PagesConcat(agg, server, 1, n) + [] == PagesConcat(agg, server, 1, n);
  }

  /** A successful page without a `next` link, reached after continuing pages,
      ends the loop with the earlier pages' metrics followed by its own. */
  lemma FetchStopsWithoutNext(agg: Aggregator, server: seq<Response>, n: int, ms: seq<Metric>)
    requires n >= 1 && forall q :: 1 <= q < n ==> Step(agg, server, q).Continue?
    requires Respond(server, n).status != UNPROCESSABLE && !RaisesForStatus(Respond(server, n).status)
    requires agg(Respond(server, n).items.GetOr([])) == Ok(ms) && !Respond(server, n).hasNext
    ensures LastPage(agg, server, 1) == n
    ensures Crawl(agg, server, 1) == Ok(PagesConcat(agg, server, 1, n) + ms)
  {
    LastPageIsFirstStop(agg, server, 1, n);
    CrawlConcatenatesPages(agg, server, 1);
  }

  /** The loop fails with an HTTP error exactly at a page whose status makes
      `raise_for_status` raise, other than 422, when all earlier pages continued. */
  lemma FetchRaisesOnErrorStatus(agg: Aggregator, server: seq<Response>, n: int)
    requires n >= 1 && forall q :: 1 <= q < n ==> Step(agg, server, q).Continue?
    requires Respond(server, n).status != UNPROCESSABLE && RaisesForStatus(Respond(server, n).status)
    ensures LastPage(agg, server, 1) == n
    ensures Crawl(agg, server, 1) == Err(HttpError(n, Respond(server, n).status))
  {
    LastPageIsFirstStop(agg, server, 1, n);
    CrawlConcatenatesPages(agg, server, 1);
  }

  /** The first page of those from `page` on that does not continue is the last page. */
  lemma {:induction false} LastPageIsFirstStop(agg: Aggregator, server: seq<Response>, page: int, n: int)
    requires 1 <= page <= n
    requires forall q :: page <= q < n ==> Step(agg, server, q).Continue?
    requires !Step(agg, server, n).Continue?
    ensures LastPage(agg, server, page) == n
    decreases n - page
  {
    if page < n {
      LastPageIsFirstStop(agg, server, page + 1, n);
    }
  }
}
