/**
 The leaderboard sample, said over the responses themselves: which pages a request reads and why reading ends,
 which rows are the first of their run, and what the sample makes of them.
 */
module LeaderboardLaws {
  import opened Wrappers
  import opened Strings
  import opened LeaderboardSample

  // ---------------------------------------------------------------- what names a run

  /** The first id the response gives names the run; with none, its rank, dungeon and time do. */
  ghost predicate Named(run: Snapshot, id: string)
  {
    || run.keystoneRun == Some(id)
    || (run.keystoneRun.None? && run.loggedRun == Some(id))
    || (run.keystoneRun.None? && run.loggedRun.None? && run.keystoneTeam == Some(id))
    || (&& run.keystoneRun.None? && run.loggedRun.None? && run.keystoneTeam.None?
        && id == run.rank + ":" + run.dungeonSlug + ":" + run.completedAt)
  }

  ghost predicate SameRun(a: Snapshot, b: Snapshot)
  {
    exists id :: Named(a, id) && Named(b, id)
  }

  lemma NamedIs(run: Snapshot, id: string)
    ensures Named(run, id) <==> run.Id() == id
  {
  }

  lemma SameRunIs(a: Snapshot, b: Snapshot)
    ensures SameRun(a, b) <==> a.Id() == b.Id()
  {
    hide Named;
    NamedIs(a, a.Id());
    NamedIs(b, a.Id());
    forall id ensures Named(a, id) <==> a.Id() == id {
      NamedIs(a, id);
    }
    forall id ensures Named(b, id) <==> b.Id() == id {
      NamedIs(b, id);
    }
  }

  /** Row `k` is a run that no row before it is. */
  ghost predicate FirstRow(rows: seq<Row>, k: nat)
  {
    && k < |rows| && rows[k].Ranked?
    && forall j | 0 <= j < k && rows[j].Ranked? :: !SameRun(rows[j].run, rows[k].run)
  }

  /** The runs stand at the places, in order, and the places are exactly those of first rows. */
  ghost predicate DistinctAt(rows: seq<Row>, places: seq<nat>, runs: seq<Snapshot>)
  {
    && |places| == |runs|
    && (forall i, j | 0 <= i < j < |places| :: places[i] < places[j])
    && (forall i | 0 <= i < |places| :: places[i] < |rows| && rows[places[i]] == Ranked(runs[i]))
    && forall k: nat :: k in places <==> FirstRow(rows, k)
  }

  lemma FirstRowSnoc(front: seq<Row>, last: Row, k: nat)
    ensures FirstRow(front + [last], k) <==>
            if k == |front| then last.Ranked? && last.run.Id() !in Ids(Dedup(front)) else FirstRow(front, k)
  {
    hide SameRun, Dedup;
    var rows := front + [last];
    assert forall j | 0 <= j < |front| :: rows[j] == front[j];
    if k == |front| && last.Ranked? {
      DedupIds(front);
      forall j | 0 <= j < |front| && front[j].Ranked?
        ensures SameRun(front[j].run, last.run) <==> front[j].run.Id() == last.run.Id()
      {
        SameRunIs(front[j].run, last.run);
      }
      assert HasId(front, last.run.Id()) <==> last.run.Id() in Ids(Dedup(front));
    }
  }

  lemma FirstRowInside(rows: seq<Row>, k: nat)
    ensures FirstRow(rows, k) ==> k < |rows|
  {
  }

  /** The distinct runs of some rows are their first rows, in order. */
  lemma {:induction false} DistinctRuns(rows: seq<Row>) returns (places: seq<nat>)
    ensures DistinctAt(rows, places, Dedup(rows))
  {
    hide FirstRow, Dedup, Ids, DistinctAt;
    if rows == [] {
      places := [];
      NothingDistinct();
    } else {
      var front, last := rows[..|rows| - 1], rows[|rows| - 1];
      assert rows == front + [last];
      var before := DistinctRuns(front);
      DedupSnoc(front, last);
      FirstRowSnoc(front, last, |front|);
      if FirstRow(rows, |front|) {
        places := before + [|front|];
        OneMoreFirst(front, last, before, Dedup(front));
      } else {
        places := before;
        NoMoreFirst(front, last, before, Dedup(front));
      }
    }
  }

  lemma OtherFirsts(front: seq<Row>, last: Row)
    ensures forall k: nat | k != |front| :: FirstRow(front + [last], k) <==> FirstRow(front, k)
    ensures !FirstRow(front, |front|)
  {
    hide FirstRow;
    forall k: nat | k != |front| ensures FirstRow(front + [last], k) <==> FirstRow(front, k) {
      FirstRowSnoc(front, last, k);
    }
    FirstRowInside(front, |front|);
  }

  lemma OneMoreFirst(front: seq<Row>, last: Row, places: seq<nat>, runs: seq<Snapshot>)
    requires DistinctAt(front, places, runs) && FirstRow(front + [last], |front|) && last.Ranked?
    ensures DistinctAt(front + [last], places + [|front|], runs + [last.run])
  {
    hide FirstRow;
    OtherFirsts(front, last);
    var longer := places + [|front|];
    forall k: nat ensures k in longer <==> FirstRow(front + [last], k) {
      assert k in longer <==> k in places || k == |front|;
    }
  }

  lemma NoMoreFirst(front: seq<Row>, last: Row, places: seq<nat>, runs: seq<Snapshot>)
    requires DistinctAt(front, places, runs) && !FirstRow(front + [last], |front|)
    ensures DistinctAt(front + [last], places, runs)
  {
    hide FirstRow;
    OtherFirsts(front, last);
  }

  lemma NothingDistinct()
    ensures DistinctAt([], [], Dedup([]))
  {
  }

  ghost function RankedPlaces(rows: seq<Row>): set<nat>
  {
    set k: nat | k < |rows| && rows[k].Ranked?
  }

  lemma {:induction false} RunCountIs(rows: seq<Row>)
    ensures RunCount(rows) == |RankedPlaces(rows)|
  {
    if rows == [] {
      assert RankedPlaces(rows) == {};
    } else {
      var front, last := rows[..|rows| - 1], rows[|rows| - 1];
      RunCountIs(front);
      assert rows == front + [last];
      assert RankedPlaces(rows) == RankedPlaces(front) + if last.Ranked? then {|front|} else {};
    }
  }

  // ---------------------------------------------------------------- which pages are read

  /** The keyword, in any mix of cases. */
  ghost predicate IsCurrent(season: string)
  {
    |season| == 7 && forall k | 0 <= k < 7 :: season[k] == "current"[k] || season[k] == "CURRENT"[k]
  }

  /** A season is asked for without the blanks around it; nothing is asked for when it is blank or the keyword. */
  lemma ResolveIs(season: string)
    ensures exists bare ::
              && Bare(season, bare)
              && ResolveSeason(season) == if bare == "" || IsCurrent(bare) then None else Some(bare)
  {
    StripIff(season, Strip(season));
    CurrentIs(Strip(season));
  }

  lemma CurrentIs(season: string)
    ensures Lower(season) == CURRENT <==> IsCurrent(season)
  {
    var lower := Lower(season);
    if |season| == 7 {
      forall k | 0 <= k < 7 ensures lower[k] == CURRENT[k] <==> season[k] == "current"[k] || season[k] == "CURRENT"[k] {
        assert lower[k] == LowerChar(season[k]);
      }
    }
  }

  /** The season a response names: its own field, or its request's when that is empty. */
  ghost predicate Echoes(page: Page, season: string)
  {
    season != "" && (page.season == season || (page.season == "" && page.paramSeason == season))
  }

  lemma EchoIs(page: Page, season: string)
    ensures Echoes(page, season) <==> page.Served() == Some(season)
  {
  }

  /**
   The pages read, and the season known after the first: the one asked for, else the first page's echo. Every
   later page answers that season, every echo is that season, and reading ends at the cap or an empty page; it
   fails where no season is known for a later page, the provider fails, or an echo names another season.
   */
  ghost predicate Reading(
      fetch: Fetch, request: Request, cap: nat, pages: seq<Page>, ended: bool, known: Option<string>)
  {
    var param, n := ResolveSeason(request.season), |pages|;
    && (param.Some? ==> known == param)
    && (param.None? && n == 0 ==> known.None?)
    && (param.None? && n > 0 ==> forall season :: known == Some(season) <==> Echoes(pages[0], season))
    && n <= cap
    && (n > 0 ==> fetch(param, request.page) == Ok(pages[0]))
    && (forall k | 1 <= k < n ::
          known.Some? && fetch(ResolveSeason(known.value), request.page + k) == Ok(pages[k]))
    && (forall k, season | 0 <= k < n && Echoes(pages[k], season) :: known == Some(season))
    && (forall k | 0 <= k < n - 1 :: pages[k].rankings != [])
    && (ended <==> n == cap || (n > 0 && pages[n - 1].rankings == []))
    && (!ended ==> Stuck(fetch, if n == 0 then param else if known.Some? then ResolveSeason(known.value) else None,
                         request.page + n, n, known))
  }

  /** The next page cannot be read. */
  ghost predicate Stuck(fetch: Fetch, param: Option<string>, number: int, offset: nat, known: Option<string>)
  {
    || (offset > 0 && known.None?)
    || fetch(param, number).Rejected?
    || (known.Some? && exists season :: Echoes(fetch(param, number).value, season) && known != Some(season))
  }

  lemma {:induction false} SeasonOnward(season: Option<string>, page: Page, rest: seq<Page>)
    ensures SeasonAfter(season, [page] + rest) == SeasonAfter(SeasonAfter(season, [page]), rest)
  {
    if rest == [] {
      assert [page] + rest == [page];
    } else {
      assert ([page] + rest)[..|rest|] == [page] + rest[..|rest| - 1];
      SeasonOnward(season, page, rest[..|rest| - 1]);
    }
  }

  /** Reading fails only where the next page cannot be had, short of the cap and after no empty page. */
  lemma {:induction false} FailsAt(fetch: Fetch, request: Request, cap: nat, offset: nat, season: Option<string>)
    requires !ReadFrom(fetch, request, cap, offset, season).ended
    ensures var pages := ReadFrom(fetch, request, cap, offset, season).pages;
            && offset + |pages| < cap && (forall k | 0 <= k < |pages| :: pages[k].rankings != [])
            && NextPage(fetch, request, offset + |pages|, SeasonAfter(season, pages)).Rejected?
    decreases cap - offset
  {
    hide SeasonAfter, NextPage;
    NothingRead(season);
    if offset < cap && NextPage(fetch, request, offset, season).Ok? {
      var page := NextPage(fetch, request, offset, season).value;
      if page.rankings != [] {
        var next := SeasonAfter(season, [page]);
        FailsAt(fetch, request, cap, offset + 1, next);
        SeasonOnward(season, page, ReadFrom(fetch, request, cap, offset + 1, next).pages);
      }
    }
  }

  lemma StuckIs(fetch: Fetch, request: Request, offset: nat, season: Option<string>)
    requires offset == 0 ==> season == request.SeasonParam()
    ensures NextPage(fetch, request, offset, season).Rejected? <==>
            Stuck(fetch, if offset == 0 then request.SeasonParam() else if season.Some? then ResolveSeason(season.value) else None,
                  request.page + offset, offset, season)
  {
    hide ResolveSeason, Echoes;
    if request.SeasonParam().Some? {
      PinnedIff(request.season);
    }
    var param := if offset == 0 then request.SeasonParam() else if season.Some? then ResolveSeason(season.value) else None;
    if fetch(param, request.page + offset).Ok? {
      var page := fetch(param, request.page + offset).value;
      forall echo ensures Echoes(page, echo) <==> page.Served() == Some(echo) {
        EchoIs(page, echo);
      }
      assert page.Served().Some? ==> Echoes(page, page.Served().value);
    }
  }

  /** The first page is the answer to the season asked for, if any. */
  lemma FirstPage(fetch: Fetch, request: Request)
    requires BookOf(fetch, request).pages != []
    ensures fetch(request.SeasonParam(), request.page) == Ok(BookOf(fetch, request).pages[0])
  {
    hide ResolveSeason, SeasonAfter;
    if request.SeasonParam().Some? {
      PinnedIff(request.season);
    }
  }

  /** What any request reads from any provider. */
  lemma ReadingIs(fetch: Fetch, request: Request)
    ensures var book := BookOf(fetch, request);
            Reading(fetch, request, Cap(request), book.pages, book.ended, SeasonAfter(request.SeasonParam(), book.pages))
  {
    hide ResolveSeason, ReadFrom, SeasonAfter, NextPage, Echoes, Stuck, OneSeason;
    var book, param, cap := BookOf(fetch, request), request.SeasonParam(), Cap(request);
    var pages, n := book.pages, |book.pages|;
    var known := SeasonAfter(param, pages);
    assert pages[..n] == pages;
    BookEnds(fetch, request, cap, 0, param);
    if param.Some? {
      ReadsGivenSeason(fetch, request, param.value, n);
    } else {
      ReadsEchoedSeason(fetch, request, n);
      KnownFromFirst(fetch, request);
    }
    EchoesOne(fetch, request, pages, known);
    forall k | 1 <= k < n
      ensures known.Some? && fetch(ResolveSeason(known.value), request.page + k) == Ok(pages[k])
    {
      LaterAnswer(fetch, request, pages, known, k);
    }
    if n > 0 {
      FirstPage(fetch, request);
    } else {
      NothingRead(param);
    }
    if !book.ended {
      FailsAt(fetch, request, cap, 0, param);
      StuckIs(fetch, request, n, known);
    }
  }

  lemma EchoesOne(fetch: Fetch, request: Request, pages: seq<Page>, known: Option<string>)
    requires OneSeason(fetch, request, pages, known)
    ensures forall k, season | 0 <= k < |pages| && Echoes(pages[k], season) :: known == Some(season)
  {
    hide ResolveSeason, Echoes;
    forall k, season | 0 <= k < |pages| && Echoes(pages[k], season) ensures known == Some(season) {
      EchoIs(pages[k], season);
      assert pages[k].Served().Some?;
    }
  }

  lemma LaterAnswer(fetch: Fetch, request: Request, pages: seq<Page>, known: Option<string>, k: nat)
    requires OneSeason(fetch, request, pages, known) && 1 <= k < |pages|
    ensures known.Some? && fetch(ResolveSeason(known.value), request.page + k) == Ok(pages[k])
  {
    hide ResolveSeason;
  }

  lemma KnownFromFirst(fetch: Fetch, request: Request)
    requires request.SeasonParam().None?
    ensures var pages := BookOf(fetch, request).pages;
            pages != [] ==>
              forall season :: SeasonAfter(None, pages) == Some(season) <==> Echoes(pages[0], season)
  {
    hide ResolveSeason, ReadFrom, SeasonAfter, Echoes, NextPage;
    var pages := BookOf(fetch, request).pages;
    if pages != [] {
      BookCases(fetch, request);
      ReadsEchoedSeason(fetch, request, |pages|);
      assert pages[..|pages|] == pages;
      SeasonAfterOne(None, pages[0]);
      forall season ensures SeasonAfter(None, pages) == Some(season) <==> Echoes(pages[0], season) {
        EchoIs(pages[0], season);
        if |pages| == 1 {
          assert pages == [pages[0]];
        }
      }
    }
  }

  // ---------------------------------------------------------------- what the sample makes of them

  /** The sample is made of the rows examined, up to the run that fills it or to the end of the pages. */
  ghost predicate MadeOf(
      limit: nat, pages: seq<Page>, ended: bool, known: Option<string>, examined: seq<Row>, places: seq<nat>,
      sample: Sample)
  {
    var rows, n := Rows(pages), sample.pagesFetched;
    && n <= |pages| && examined <= rows && DistinctAt(examined, places, sample.runs) && |sample.runs| <= limit
    && |RankedPlaces(examined)| == |sample.runs| + sample.duplicates
    && (|sample.runs| < limit ==> ended && examined == rows && n == |pages|)
    && (|sample.runs| == limit ==>
          && limit > 0 && places[limit - 1] == |examined| - 1
          && n > 0 && |Rows(pages[..n - 1])| < |examined| <= |Rows(pages[..n])|)
    && sample.season == known && sample.leaderboardUrls == Urls(pages[..n])
  }

  /** Reading failed before the rows held enough distinct runs. */
  ghost predicate TooFew(limit: nat, pages: seq<Page>, ended: bool)
  {
    !ended && exists places, runs :: DistinctAt(Rows(pages), places, runs) && |runs| < limit
  }

  lemma LastIsNew(examined: seq<Row>, places: seq<nat>)
    requires examined != [] && |Dedup(examined[..|examined| - 1])| < |Dedup(examined)|
    requires DistinctAt(examined, places, Dedup(examined))
    ensures |places| == |Dedup(examined)| && places[|places| - 1] == |examined| - 1
  {
    hide FirstRow, Dedup;
    var front, last := examined[..|examined| - 1], examined[|examined| - 1];
    assert examined == front + [last];
    DedupSnoc(front, last);
    FirstRowSnoc(front, last, |front|);
    assert |front| in places;
    EndsAt(places, |front|);
  }

  lemma EndsAt(places: seq<nat>, top: nat)
    requires forall i, j | 0 <= i < j < |places| :: places[i] < places[j]
    requires top in places && forall k | 0 <= k < |places| :: places[k] <= top
    ensures places[|places| - 1] == top
  {
    var i :| 0 <= i < |places| && places[i] == top;
  }

  lemma SeasonOfPrefix(fetch: Fetch, request: Request, n: nat)
    requires n <= |BookOf(fetch, request).pages| && (n == 0 ==> BookOf(fetch, request).pages == [])
    ensures var pages := BookOf(fetch, request).pages;
            SeasonAfter(request.SeasonParam(), pages[..n]) == SeasonAfter(request.SeasonParam(), pages)
  {
    hide ResolveSeason, ReadFrom, SeasonAfter, NextPage, OneSeason;
    var param, pages := request.SeasonParam(), BookOf(fetch, request).pages;
    assert pages[..|pages|] == pages;
    if param.Some? {
      ReadsGivenSeason(fetch, request, param.value, n);
      ReadsGivenSeason(fetch, request, param.value, |pages|);
    } else if |pages| > 1 {
      BookCases(fetch, request);
      PrefixEcho(fetch, request, n);
      PrefixEcho(fetch, request, |pages|);
    } else {
      assert pages[..n] == pages;
    }
  }

  lemma PrefixEcho(fetch: Fetch, request: Request, n: nat)
    requires request.SeasonParam().None? && 0 < n <= |BookOf(fetch, request).pages|
    requires BookOf(fetch, request).pages[0].Served().Some?
    ensures SeasonAfter(None, BookOf(fetch, request).pages[..n]) == BookOf(fetch, request).pages[0].Served()
  {
    hide ResolveSeason, ReadFrom, SeasonAfter, BookOf;
    ReadsEchoedSeason(fetch, request, n);
    assert BookOf(fetch, request).pages[..n][0] == BookOf(fetch, request).pages[0];
  }

  lemma PrefixRows(pages: seq<Page>, n: nat)
    requires n <= |pages|
    ensures Rows(pages[..n]) <= Rows(pages)
  {
    hide Dedup;
    RunsOfMorePages(pages[..n], pages[n..]);
    assert pages[..n] + pages[n..] == pages;
  }

  lemma PrefixRuns(rows: seq<Row>, fewer: seq<Row>, more: seq<Row>)
    requires fewer <= rows && more <= rows && |fewer| <= |more|
    ensures |Dedup(fewer)| <= |Dedup(more)|
  {
    hide Dedup;
    DedupGrows(fewer, more[|fewer|..]);
    assert fewer + more[|fewer|..] == more;
  }

  /** The page whose rows fill the sample. */
  lemma FillingPage(pages: seq<Page>, n: nat, examined: seq<Row>, limit: nat)
    requires 0 < n <= |pages| && examined != [] && examined <= Rows(pages)
    requires |Dedup(Rows(pages[..n - 1]))| < limit <= |Dedup(Rows(pages[..n]))|
    requires |Dedup(examined[..|examined| - 1])| < limit <= |Dedup(examined)|
    ensures |Rows(pages[..n - 1])| < |examined| <= |Rows(pages[..n])|
  {
    hide Dedup, Rows;
    var rows := Rows(pages);
    PrefixRows(pages, n);
    PrefixRows(pages, n - 1);
    if |examined| <= |Rows(pages[..n - 1])| {
      PrefixRuns(rows, examined, Rows(pages[..n - 1]));
    }
    if |Rows(pages[..n])| < |examined| {
      PrefixRuns(rows, Rows(pages[..n]), examined[..|examined| - 1]);
    }
  }

  /** Any sample, or its failure, is what the pages read make of it. */
  lemma SampleIs(fetch: Fetch, request: Request)
    ensures var limit := if request.limit < 1 then 1 else request.limit;
            var cap := if request.limit < 1 && request.pages > 1 then 1 else request.pages;
            exists pages, ended, known ::
              && Reading(fetch, request, cap, pages, ended, known)
              && match SampleOf(fetch, request)
                 case Rejected => TooFew(limit, pages, ended)
                 case Ok(sample) => exists examined, places :: MadeOf(limit, pages, ended, known, examined, places, sample)
  {
    hide Dedup, Repeats, Rows, Examined, PagesNeeded, BookOf, SeasonAfter, Urls, Reading, DistinctAt, ResolveSeason, MadeOf;
    var book, limit := BookOf(fetch, request), Limit(request);
    var known := SeasonAfter(request.SeasonParam(), book.pages);
    ReadingIs(fetch, request);
    SampleIsFirstDistinctRuns(fetch, request);
    if SampleOf(fetch, request).Rejected? {
      var places := DistinctRuns(Rows(book.pages));
      assert TooFew(limit, book.pages, book.ended);
    } else {
      var examined, places := SampleMadeOf(fetch, request);
      assert MadeOf(limit, book.pages, book.ended, known, examined, places, SampleOf(fetch, request).value);
    }
  }

  lemma SampleMadeOf(fetch: Fetch, request: Request) returns (examined: seq<Row>, places: seq<nat>)
    requires SampleOf(fetch, request).Ok?
    ensures var book := BookOf(fetch, request);
            MadeOf(Limit(request), book.pages, book.ended, SeasonAfter(request.SeasonParam(), book.pages), examined, places,
                   SampleOf(fetch, request).value)
  {
    hide Dedup, Repeats, Rows, Examined, PagesNeeded, BookOf, SeasonAfter, Urls, DistinctAt, ResolveSeason, RankedPlaces, RunCount;
    var book, limit, sample := BookOf(fetch, request), Limit(request), SampleOf(fetch, request).value;
    var pages, n := book.pages, sample.pagesFetched;
    SampleIsFirstDistinctRuns(fetch, request);
    examined := DuplicatesAreTheRest(fetch, request);
    places := DistinctRuns(examined);
    RunCountIs(examined);
    NothingRead(None);
    SeasonOfPrefix(fetch, request, n);
    if |sample.runs| == limit {
      LastIsNew(examined, places);
      FillingPage(pages, n, examined, limit);
    }
  }
}
