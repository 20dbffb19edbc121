/** Worked examples of the aggregation and of the paginated fetch. */
module LoaderExamples {
  import opened Results
  import opened Dates
  import opened Ordering
  import opened Metrics
  import opened Loaders
  import opened LoaderFacts

  /** A day without 'T' followed by 'T' and a time of day reads as that day. */
  lemma {:induction false} DayBeforeT(day: string, time: string)
    requires forall i :: 0 <= i < |day| ==> day[i] != 'T'
    ensures BeforeT(day + "T" + time) == day
    decreases |day|
  {
    var s := day + "T" + time;
    if day == [] {
      assert s[0] == 'T';
    } else {
      assert s[0] == day[0] && s[1..] == day[1..] + "T" + time;
      DayBeforeT(day[1..], time);
    }
  }

  /** ISO dates contain no 'T'. */
  lemma IsoDayHasNoT(d: Date)
    requires Valid(d)
    ensures forall i :: 0 <= i < |ToIsoFormat(d)| ==> ToIsoFormat(d)[i] != 'T'
  {
  }

  const JAN_1 := Date(2023, 1, 1)
  const JAN_2 := Date(2023, 1, 2)

  /** A commit by `login` in `repo`, authored on `d` at `time`. */
  function Commit(repo: string, login: string, d: Date, time: string): Event
    requires Valid(d)
  {
    Event(Some(repo), Some(login), Some(ToIsoFormat(d) + "T" + time), None)
  }

  const EVENTS := [Commit("repo1", "alice", JAN_1, "12:00:00Z"),
                   Commit("repo1", "bob", JAN_1, "13:00:00Z"),
                   Commit("repo1", "bob", JAN_2, "10:00:00Z"),
                   Commit("repo2", "alice", JAN_1, "14:00:00Z")]
  const K1: Key := ("repo1", ToIsoFormat(JAN_1))
  const K2: Key := ("repo1", ToIsoFormat(JAN_2))
  const K3: Key := ("repo2", ToIsoFormat(JAN_1))

  lemma CommitDay(repo: string, login: string, d: Date, time: string)
    requires Valid(d)
    ensures DayOf(Commit(repo, login, d, time)) == ToIsoFormat(d)
  {
    IsoDayHasNoT(d);
    DayBeforeT(ToIsoFormat(d), time);
  }

  lemma ScanSnoc(pre: seq<Event>, e: Event)
    requires Scan(pre).Ok? && Attributed(e)
    ensures Scan(pre + [e]) == Ok(AddEvent(Scan(pre).value, e))
  {
    assert (pre + [e])[..|pre|] == pre;
  }

  lemma AddCommit(g: Groups, repo: string, login: string, d: Date, time: string)
    requires Valid(d)
    ensures var k := (repo, ToIsoFormat(d));
      AddEvent(g, Commit(repo, login, d, time)) == g[k := (if k in g then g[k] else {}) + {login}]
  {
    CommitDay(repo, login, d, time);
  }

  /** One more commit adds its author to the group of its (repo, day). */
  lemma ScanCommit(pre: seq<Event>, repo: string, login: string, d: Date, time: string)
    requires Valid(d) && Scan(pre).Ok?
    ensures var g := Scan(pre).value;
      var k := (repo, ToIsoFormat(d));
      Scan(pre + [Commit(repo, login, d, time)]) == Ok(g[k := (if k in g then g[k] else {}) + {login}])
  {
    ScanSnoc(pre, Commit(repo, login, d, time));
    AddCommit(Scan(pre).value, repo, login, d, time);
  }

  const G1: Groups := map[K1 := {"alice"}]
  const G2: Groups := map[K1 := {"alice", "bob"}]
  const G3: Groups := map[K1 := {"alice", "bob"}, K2 := {"bob"}]

  lemma ExampleGroups1()
    ensures Scan(EVENTS[..1]) == Ok(G1)
  {
    var none: set<string> := {};
    ScanCommit([], "repo1", "alice", JAN_1, "12:00:00Z");
    assert [] + [EVENTS[0]] == EVENTS[..1];
    assert none + {"alice"} == {"alice"};
  }

  lemma ExampleGroups2()
    ensures Scan(EVENTS[..2]) == Ok(G2)
  {
    ExampleGroups1();
    ScanCommit(EVENTS[..1], "repo1", "bob", JAN_1, "13:00:00Z");
    assert EVENTS[..1] + [EVENTS[1]] == EVENTS[..2];
    assert K1 in G1 && G1[K1] == {"alice"};
    assert {"alice"} + {"bob"} == {"alice", "bob"};
    assert G1[K1 := {"alice", "bob"}] == G2;
  }

  lemma ExampleGroups3()
    ensures Scan(EVENTS[..3]) == Ok(G3)
  {
    var none: set<string> := {};
    ExampleGroups2();
    ScanCommit(EVENTS[..2], "repo1", "bob", JAN_2, "10:00:00Z");
    assert EVENTS[..2] + [EVENTS[2]] == EVENTS[..3];
    IsoOrderIsChronological(JAN_1, JAN_2);
    assert K2 !in G2;
    assert none + {"bob"} == {"bob"};
  }

  /** The grouping loop's dictionary for the four commits. */
  lemma ExampleGroups()
    ensures Scan(EVENTS) == Ok(GROUPS)
  {
    var none: set<string> := {};
    ExampleGroups3();
    ScanCommit(EVENTS[..3], "repo2", "alice", JAN_1, "14:00:00Z");
    assert EVENTS[..3] + [EVENTS[3]] == EVENTS;
    assert K3 !in G3;
    assert none + {"alice"} == {"alice"};
  }

  lemma Repo1BeforeRepo2()
    ensures StrLess("repo1", "repo2")
  {
    assert "repo1" == "repo" + "1" && "repo2" == "repo" + "2";
    StrLessAfterPrefix("repo", "1", "2");
  }

  lemma ExampleKeysAscending()
    ensures StrictlyAscending([K1, K2, K3])
  {
    Repo1BeforeRepo2();
    IsoOrderIsChronological(JAN_1, JAN_2);
  }

  lemma ExampleOrder()
    ensures SortedKeys({K1, K2, K3}) == [K1, K2, K3]
  {
    ExampleKeysAscending();
    var ks := SortedKeys({K1, K2, K3});
    assert forall k :: k in ks <==> k in [K1, K2, K3];
    AscendingUnique(ks, [K1, K2, K3]);
  }

  lemma Three<T>(s: seq<T>, x: T, y: T, z: T)
    requires |s| == 3 && s[0] == x && s[1] == y && s[2] == z
    ensures s == [x, y, z]
  {
  }

  const GROUPS: Groups := map[K1 := {"alice", "bob"}, K2 := {"bob"}, K3 := {"alice"}]

  /** The metrics the example's three groups become, in the order (repo, day). */
  const EXPECTED := [ActiveUsersMetric("repo1", JAN_1, {"alice", "bob"}),
                     ActiveUsersMetric("repo1", JAN_2, {"bob"}),
                     ActiveUsersMetric("repo2", JAN_1, {"alice"})]

  lemma EmitExample()
    ensures EmitKeys(GROUPS, [K1, K2, K3]) == Ok(EXPECTED)
  {
    IsoFormatRoundTrip(JAN_1);
    IsoFormatRoundTrip(JAN_2);
    var r := EmitKeys(GROUPS, [K1, K2, K3]);
    assert r.Ok?;
    assert r.value[0] == EXPECTED[0];
    assert r.value[1] == EXPECTED[1];
    assert r.value[2] == EXPECTED[2];
    Three(r.value, EXPECTED[0], EXPECTED[1], EXPECTED[2]);
  }

  /** Four commits, two of them by bob in repo1 on different days, give
      (repo1, 2023-01-01, 2), (repo1, 2023-01-02, 1) and (repo2, 2023-01-01, 1). */
  lemma AggregateExample()
    ensures Aggregate(EVENTS) == Ok(EXPECTED)
  {
    ExampleGroups();
    assert GROUPS.Keys == {K1, K2, K3};
    ExampleOrder();
    EmitExample();
  }

  /** A page holding one commit yields one metric with value 1. */
  lemma SingleCommit(repo: string, login: string, d: Date, time: string)
    requires Valid(d)
    ensures Aggregate([Commit(repo, login, d, time)]) == Ok([ActiveUsersMetric(repo, d, {login})])
  {
    var e := Commit(repo, login, d, time);
    var k := (repo, ToIsoFormat(d));
    var none: set<string> := {};
    ScanSnoc([], e);
    assert [] + [e] == [e];
    AddCommit(map[], repo, login, d, time);
    assert none + {login} == {login};
    var g := map[k := {login}];
    assert Scan([e]) == Ok(g);
    assert g.Keys == {k};
    var ks := SortedKeys(g.Keys);
    assert ks[0] in g.Keys;
    assert ks == [k];
    IsoFormatRoundTrip(d);
    var r := EmitKeys(g, ks);
    assert r.Ok? && |r.value| == 1;
    assert r.value[0] == ActiveUsersMetric(repo, d, {login});
    assert r.value == [r.value[0]];
  }

  const ALICE_JAN_1 := Commit("repo1", "alice", JAN_1, "12:00:00Z")
  const ONE_USER := ActiveUsersMetric("repo1", JAN_1, {"alice"})

  /** Page 1 holds one commit and links to page 2, which is empty and has no
      `next` link: the fetch sends two requests and returns one metric. */
  lemma FetchTwoPagesExample()
    ensures var server := [Response(200, Some([ALICE_JAN_1]), true), Response(200, Some([]), false)];
      Crawl(Aggregate, server, 1) == Ok([ONE_USER]) && LastPage(Aggregate, server, 1) == 2
  {
    var server := [Response(200, Some([ALICE_JAN_1]), true), Response(200, Some([]), false)];
    SingleCommit("repo1", "alice", JAN_1, "12:00:00Z");
    assert Step(Aggregate, server, 1) == Continue([ONE_USER]);
    assert Aggregate([]) == Ok([]) by {
      var none: Groups := map[];
      assert SortedKeys(none.Keys) == [];
    }
    assert Step(Aggregate, server, 2) == Finish([]);
    assert [ONE_USER] + [] == [ONE_USER];
  }

  /** An immediate 422 is an empty result, not an error. */
  lemma FetchUnprocessableExample()
    ensures Crawl(Aggregate, [Response(UNPROCESSABLE, None, false)], 1) == Ok([])
    ensures LastPage(Aggregate, [Response(UNPROCESSABLE, None, false)], 1) == 1
  {
  }

  /** The same user on the same repository and day, once on each of two pages,
      is counted once per page. */
  lemma CrossPageDoubleCount()
    ensures var server := [Response(200, Some([ALICE_JAN_1]), true), Response(200, Some([ALICE_JAN_1]), false)];
      Crawl(Aggregate, server, 1) == Ok([ONE_USER, ONE_USER])
  {
    var server := [Response(200, Some([ALICE_JAN_1]), true), Response(200, Some([ALICE_JAN_1]), false)];
    SingleCommit("repo1", "alice", JAN_1, "12:00:00Z");
    assert Step(Aggregate, server, 1) == Continue([ONE_USER]);
    assert Step(Aggregate, server, 2) == Finish([ONE_USER]);
    assert [ONE_USER] + [ONE_USER] == [ONE_USER, ONE_USER];
  }

  lemma AggregateTwice(e: Event)
    ensures Aggregate([e, e]) == Aggregate([e])
  {
    AggregateDuplicate([e], 0);
    assert [e] + [[e][0]] == [e, e];
  }

  /** Aggregating both pages' commits together counts the user once. */
  lemma SamePageCountsOnce(repo: string, login: string, d: Date, time: string)
    requires Valid(d)
    ensures var c := Commit(repo, login, d, time);
      Aggregate([c, c]) == Ok([ActiveUsersMetric(repo, d, {login})])
  {
    AggregateTwice(Commit(repo, login, d, time));
    SingleCommit(repo, login, d, time);
  }
}
