/**
 The leaderboard sample: pages are read one after another, runs seen before are dropped and counted, and the
 season the first page names is asked for by every later page.
 */
module LeaderboardSample {
  import opened Wrappers
  import opened Sequences
  import opened Strings

  // ---------------------------------------------------------------- runs, pages, requests

  /** A run as sampled; an id the response lacks is `None`. */
  datatype Snapshot = Snapshot(
    rank: string, dungeonSlug: string, completedAt: string, keystoneRun: Option<string>, loggedRun: Option<string>,
    keystoneTeam: Option<string>)
  {
    /** The first id the response gives, else rank, dungeon and time. */
    function Id(): string
    {
      if keystoneRun.Some? then keystoneRun.value
      else if loggedRun.Some? then loggedRun.value
      else if keystoneTeam.Some? then keystoneTeam.value
      else rank + ":" + dungeonSlug + ":" + completedAt
    }
  }

  datatype Row = Malformed | Ranked(run: Snapshot)

  /** One response: the season it echoes (empty when it echoes none), its leaderboard's URL, its rows. */
  datatype Page = Page(season: string, paramSeason: string, leaderboardUrl: string, rankings: seq<Row>)
  {
    function Served(): Option<string>
    {
      if season != "" then Some(season) else if paramSeason != "" then Some(paramSeason) else None
    }
  }

  /** The provider: what it answers to a season parameter and a page number. */
  type Fetch = (Option<string>, int) -> Result<Page>

  function LowerChar(c: char): char
  {
    if 'A' <= c <= 'Z' then c - 'A' + 'a' else c
  }

  function Lower(s: string): (lower: string)
    ensures |lower| == |s| && forall k | 0 <= k < |s| :: lower[k] == LowerChar(s[k])
  {
    seq(|s|, k requires 0 <= k < |s| => LowerChar(s[k]))
  }

  const CURRENT := "current"

  /** The season parameter for a `--season` value: none for an empty one or the `current` keyword. */
  function ResolveSeason(season: string): Option<string>
  {
    var named := Strip(season);
    if named == "" || Lower(named) == CURRENT then None else Some(named)
  }

  datatype Request = Request(season: string, page: int, pages: nat, limit: int)
  {
    function SeasonParam(): Option<string>
    {
      ResolveSeason(season)
    }
  }

  // ---------------------------------------------------------------- distinct runs

  function Ids(runs: seq<Snapshot>): (ids: seq<string>)
    ensures |ids| == |runs| && forall k | 0 <= k < |runs| :: ids[k] == runs[k].Id()
  {
    seq(|runs|, k requires 0 <= k < |runs| => runs[k].Id())
  }

  /** The runs of the rows, each id once, where it first appears. */
  function Dedup(rows: seq<Row>): seq<Snapshot>
  {
    if rows == [] then []
    else
      var before, last := Dedup(rows[..|rows| - 1]), rows[|rows| - 1];
      if last.Ranked? && last.run.Id() !in Ids(before) then before + [last.run] else before
  }

  /** How many runs repeat the id of an earlier one. */
  function Repeats(rows: seq<Row>): nat
  {
    if rows == [] then 0
    else
      var front, last := rows[..|rows| - 1], rows[|rows| - 1];
      Repeats(front) + if last.Ranked? && last.run.Id() in Ids(Dedup(front)) then 1 else 0
  }

  function RunCount(rows: seq<Row>): nat
  {
    if rows == [] then 0 else RunCount(rows[..|rows| - 1]) + if rows[|rows| - 1].Ranked? then 1 else 0
  }

  lemma DedupSnoc(rows: seq<Row>, last: Row)
    ensures Dedup(rows + [last]) ==
            if last.Ranked? && last.run.Id() !in Ids(Dedup(rows)) then Dedup(rows) + [last.run] else Dedup(rows)
    ensures Repeats(rows + [last]) ==
            Repeats(rows) + if last.Ranked? && last.run.Id() in Ids(Dedup(rows)) then 1 else 0
    ensures RunCount(rows + [last]) == RunCount(rows) + if last.Ranked? then 1 else 0
  {
    assert (rows + [last])[..|rows|] == rows;
  }

  /** Every run examined is kept or counted as a repeat. */
  lemma {:induction false} RowsAccounted(rows: seq<Row>)
    ensures RunCount(rows) == |Dedup(rows)| + Repeats(rows)
  {
    if rows != [] {
      RowsAccounted(rows[..|rows| - 1]);
    }
  }

  ghost predicate FirstOf(rows: seq<Row>, run: Snapshot)
  {
    exists k :: 0 <= k < |rows| && rows[k] == Ranked(run)
                && forall j | 0 <= j < k && rows[j].Ranked? :: rows[j].run.Id() != run.Id()
  }

  lemma IdsSnoc(runs: seq<Snapshot>, last: Snapshot)
    ensures forall id :: id in Ids(runs + [last]) <==> id in Ids(runs) || id == last.Id()
  {
    assert Ids(runs + [last]) == Ids(runs) + [last.Id()];
  }

  ghost predicate HasId(rows: seq<Row>, id: string)
  {
    exists k :: 0 <= k < |rows| && rows[k].Ranked? && rows[k].run.Id() == id
  }

  /** The distinct runs miss no id and name none twice. */
  lemma {:induction false} DedupIds(rows: seq<Row>)
    ensures forall i, j | 0 <= i < j < |Dedup(rows)| :: Dedup(rows)[i].Id() != Dedup(rows)[j].Id()
    ensures forall id :: id in Ids(Dedup(rows)) <==> HasId(rows, id)
  {
    if rows != [] {
      var front, last := rows[..|rows| - 1], rows[|rows| - 1];
      hide Dedup, Ids, HasId;
      assert rows == front + [last];
      DedupSnoc(front, last);
      DedupIds(front);
      var before := Dedup(front);
      if last.Ranked? {
        IdsSnoc(before, last.run);
        forall i | 0 <= i < |before| ensures before[i].Id() in Ids(before) {
          assert Ids(before)[i] == before[i].Id();
        }
      }
      forall id ensures HasId(rows, id) <==> HasId(front, id) || (last.Ranked? && last.run.Id() == id) {
        SnocIds(front, last, id);
      }
    }
  }

  lemma SnocIds(front: seq<Row>, last: Row, id: string)
    ensures HasId(front + [last], id) <==> HasId(front, id) || (last.Ranked? && last.run.Id() == id)
  {
    var rows := front + [last];
    assert forall k | 0 <= k < |front| :: rows[k] == front[k];
    assert rows[|front|] == last;
  }

  /** Each distinct run is the first row of its id. */
  lemma {:induction false} DedupKeepsFirsts(rows: seq<Row>, k: nat)
    requires k < |Dedup(rows)|
    ensures FirstOf(rows, Dedup(rows)[k])
  {
    if rows != [] {
      var front, last := rows[..|rows| - 1], rows[|rows| - 1];
      hide Dedup, Ids;
      assert rows == front + [last];
      DedupSnoc(front, last);
      DedupIds(front);
      if k < |Dedup(front)| {
        DedupKeepsFirsts(front, k);
        var run := Dedup(front)[k];
        var i :| 0 <= i < |front| && front[i] == Ranked(run)
                 && forall j | 0 <= j < i && front[j].Ranked? :: front[j].run.Id() != run.Id();
        assert rows[i] == Ranked(run);
      } else {
        assert rows[|front|] == last;
      }
    }
  }

  /** Reading more rows only adds runs at the end. */
  lemma {:induction false} DedupGrows(rows: seq<Row>, more: seq<Row>)
    ensures Dedup(rows) <= Dedup(rows + more)
  {
    if more == [] {
      assert rows + more == rows;
    } else {
      var front, last := more[..|more| - 1], more[|more| - 1];
      DedupGrows(rows, front);
      assert (rows + more)[..|rows + more| - 1] == rows + front;
    }
  }

  // ---------------------------------------------------------------- the pages a request reads

  /** The pages read with no limit in force, and whether reading came to its end rather than failing. */
  datatype Book = Book(pages: seq<Page>, ended: bool)

  /** The season in force after some pages. */
  function SeasonAfter(season: Option<string>, pages: seq<Page>): Option<string>
  {
    if pages == [] then season
    else
      var served := pages[|pages| - 1].Served();
      if served.Some? then served else SeasonAfter(season, pages[..|pages| - 1])
  }

  /** The season parameter of the next page: the season in force, once there is one. */
  function PinnedParam(request: Request, season: Option<string>): Option<string>
  {
    if season.Some? then ResolveSeason(season.value) else request.SeasonParam()
  }

  /** The next page, unless the season it needs is unknown or it echoes another one. */
  function NextPage(fetch: Fetch, request: Request, offset: nat, season: Option<string>): Result<Page>
  {
    if offset > 0 && season.None? then Rejected
    else
      var page :- fetch(PinnedParam(request, season), request.page + offset);
      if page.Served().Some? && season.Some? && page.Served() != season then Rejected else Ok(page)
  }

  function ReadFrom(fetch: Fetch, request: Request, cap: nat, offset: nat, season: Option<string>): Book
    decreases cap - offset
  {
    if offset >= cap then Book([], true)
    else
      match NextPage(fetch, request, offset, season)
      case Rejected => Book([], false)
      case Ok(page) =>
        if page.rankings == [] then Book([page], true)
        else
          var rest := ReadFrom(fetch, request, cap, offset + 1, SeasonAfter(season, [page]));
          Book([page] + rest.pages, rest.ended)
  }

  /** A limit below one still keeps a run, but reads one page at most. */
  function Limit(request: Request): nat
  {
    if request.limit < 1 then 1 else request.limit
  }

  function Cap(request: Request): nat
  {
    if request.limit < 1 && request.pages > 1 then 1 else request.pages
  }

  function BookOf(fetch: Fetch, request: Request): Book
  {
    ReadFrom(fetch, request, Cap(request), 0, request.SeasonParam())
  }

  function Rankings(page: Page): seq<Row>
  {
    page.rankings
  }

  /** The rows of some pages, end to end. */
  function Rows(pages: seq<Page>): seq<Row>
  {
    Flatten(pages, Rankings)
  }

  /** How many rows it takes to see so many distinct runs; all of them when there are fewer. */
  function Examined(rows: seq<Row>, limit: nat): (n: nat)
    ensures n <= |rows|
  {
    if |Dedup(rows)| < limit || rows == [] then |rows|
    else if |Dedup(rows[..|rows| - 1])| >= limit then Examined(rows[..|rows| - 1], limit)
    else |rows|
  }

  /** How many pages it takes to see so many distinct runs; all of them when there are fewer. */
  function PagesNeeded(pages: seq<Page>, limit: nat): (n: nat)
    ensures n <= |pages|
  {
    if |Dedup(Rows(pages))| < limit || pages == [] then |pages|
    else if |Dedup(Rows(pages[..|pages| - 1]))| >= limit then PagesNeeded(pages[..|pages| - 1], limit)
    else |pages|
  }

  /** The distinct URLs of the pages, in order. */
  function Urls(pages: seq<Page>): seq<string>
  {
    if pages == [] then []
    else
      var before, url := Urls(pages[..|pages| - 1]), pages[|pages| - 1].leaderboardUrl;
      if url != "" && url !in before then before + [url] else before
  }

  datatype Sample = Sample(
    runs: seq<Snapshot>, season: Option<string>, pagesFetched: nat, duplicates: nat, leaderboardUrls: seq<string>)

  function SampleOfPages(request: Request, pages: seq<Page>): Sample
  {
    var rows := Rows(pages);
    var examined := rows[..Examined(rows, Limit(request))];
    Sample(
      Dedup(examined), SeasonAfter(request.SeasonParam(), pages), |pages|, Repeats(examined), Urls(pages))
  }

  /** The sample: as many pages as it takes to see enough distinct runs, or all there are. */
  function SampleOf(fetch: Fetch, request: Request): Result<Sample>
  {
    var book := BookOf(fetch, request);
    var pages := book.pages[..PagesNeeded(book.pages, Limit(request))];
    if |Dedup(Rows(pages))| < Limit(request) && !book.ended then Rejected
    else Ok(SampleOfPages(request, pages))
  }

  // ---------------------------------------------------------------- the sampling loop

  lemma RowsSnoc(pages: seq<Page>, last: Page)
    ensures Rows(pages + [last]) == Rows(pages) + last.rankings
  {
    FlattenSnoc(pages, last, Rankings);
  }

  lemma SnocFacts(pages: seq<Page>, last: Page, season: Option<string>)
    ensures SeasonAfter(season, pages + [last]) ==
            if last.Served().Some? then last.Served() else SeasonAfter(season, pages)
    ensures Urls(pages + [last]) ==
            if last.leaderboardUrl != "" && last.leaderboardUrl !in Urls(pages) then Urls(pages) + [last.leaderboardUrl]
            else Urls(pages)
  {
    assert (pages + [last])[..|pages|] == pages;
  }

  /** When the limit is reached inside the last of some pages, those are the pages needed. */
  lemma {:induction false} NeededAre(pages: seq<Page>, rest: seq<Page>, limit: nat)
    requires pages != [] && |Dedup(Rows(pages[..|pages| - 1]))| < limit <= |Dedup(Rows(pages))|
    ensures PagesNeeded(pages + rest, limit) == |pages|
  {
    hide Dedup, Rows;
    if rest == [] {
      assert pages + rest == pages;
    } else {
      var front, last := rest[..|rest| - 1], rest[|rest| - 1];
      NeededAre(pages, front, limit);
      assert (pages + rest)[..|pages + rest| - 1] == pages + front;
      RunsOfMorePages(pages, rest);
      RunsOfMorePages(pages, front);
    }
  }

  lemma RunsOfMorePages(pages: seq<Page>, rest: seq<Page>)
    ensures Rows(pages) <= Rows(pages + rest) && Dedup(Rows(pages)) <= Dedup(Rows(pages + rest))
  {
    hide Dedup;
    FlattenConcat(pages, rest, Rankings);
    DedupGrows(Rows(pages), Rows(rest));
  }

  /** When the limit is reached by the last of some rows, those are the rows examined. */
  lemma {:induction false} ExaminedAre(rows: seq<Row>, rest: seq<Row>, limit: nat)
    requires rows != [] && |Dedup(rows[..|rows| - 1])| < limit <= |Dedup(rows)|
    ensures Examined(rows + rest, limit) == |rows|
  {
    hide Dedup;
    if rest == [] {
      assert rows + rest == rows;
    } else {
      var front := rest[..|rest| - 1];
      ExaminedAre(rows, front, limit);
      assert (rows + rest)[..|rows + rest| - 1] == rows + front;
      DedupGrows(rows, rest);
      DedupGrows(rows, front);
    }
  }

  /** One page's rows, until the limit is reached. */
  method TakeRuns(
      rankings: seq<Row>, limit: int, ghost earlier: seq<Row>, seen0: set<string>, runs0: seq<Snapshot>, duplicates0: nat)
    returns (seen: set<string>, runs: seq<Snapshot>, duplicates: nat, taken: nat)
    requires runs0 == Dedup(earlier) && duplicates0 == Repeats(earlier)
    requires forall id :: id in seen0 <==> id in Ids(runs0)
    requires |runs0| < limit || runs0 == []
    ensures taken <= |rankings|
    ensures runs == Dedup(earlier + rankings[..taken]) && duplicates == Repeats(earlier + rankings[..taken])
    ensures forall id :: id in seen <==> id in Ids(runs)
    ensures |runs| < limit || runs == [] ==> taken == |rankings|
    ensures |runs| >= limit && runs != [] ==>
              taken > 0 && |Dedup(earlier + rankings[..taken - 1])| < |runs| && (|runs| == limit || |runs| == 1)
  {
    hide Dedup, Repeats, RunCount;
    seen, runs, duplicates, taken := seen0, runs0, duplicates0, 0;
    assert earlier + rankings[..0] == earlier;
    while taken < |rankings|
      invariant taken <= |rankings|
      invariant runs == Dedup(earlier + rankings[..taken]) && duplicates == Repeats(earlier + rankings[..taken])
      invariant forall id :: id in seen <==> id in Ids(runs)
      invariant |runs| < limit || runs == []
    {
      var row := rankings[taken];
      assert earlier + rankings[..taken + 1] == (earlier + rankings[..taken]) + [row];
      DedupSnoc(earlier + rankings[..taken], row);
      taken := taken + 1;
      if row.Malformed? {
        continue;
      }
      var id := row.run.Id();
      if id in seen {
        duplicates := duplicates + 1;
        continue;
      }
      seen := seen + {id};
      assert Ids(runs + [row.run]) == Ids(runs) + [id];
      runs := runs + [row.run];
      if |runs| >= limit {
        return;
      }
    }
  }

  lemma FailsShort(fetch: Fetch, request: Request, pages: seq<Page>)
    requires BookOf(fetch, request) == Book(pages, false) && |Dedup(Rows(pages))| < Limit(request)
    ensures SampleOf(fetch, request) == Rejected
  {
    assert pages[..|pages|] == pages;
  }

  lemma EndsShort(fetch: Fetch, request: Request, pages: seq<Page>)
    requires BookOf(fetch, request) == Book(pages, true) && |Dedup(Rows(pages))| < Limit(request)
    ensures SampleOf(fetch, request) ==
            Ok(Sample(Dedup(Rows(pages)), SeasonAfter(request.SeasonParam(), pages), |pages|, Repeats(Rows(pages)), Urls(pages)))
  {
    hide Dedup, Repeats, Rows, BookOf, SeasonAfter, Urls;
    assert pages[..|pages|] == pages;
    assert Rows(pages)[..|Rows(pages)|] == Rows(pages);
  }

  lemma ReachesLimit(fetch: Fetch, request: Request, read: seq<Page>, page: Page, taken: nat)
    requires read + [page] <= BookOf(fetch, request).pages
    requires 0 < taken <= |page.rankings|
    requires |Dedup(Rows(read) + page.rankings[..taken - 1])| < Limit(request)
    requires |Dedup(Rows(read) + page.rankings[..taken])| >= Limit(request)
    ensures var examined, pages := Rows(read) + page.rankings[..taken], read + [page];
            SampleOf(fetch, request) ==
            Ok(Sample(Dedup(examined), SeasonAfter(request.SeasonParam(), pages), |pages|, Repeats(examined), Urls(pages)))
  {
    hide Dedup, Repeats, Rows, BookOf, SeasonAfter, Urls, PagesNeeded, Examined;
    var book, pages, limit := BookOf(fetch, request), read + [page], Limit(request);
    var examined := Rows(read) + page.rankings[..taken];
    RowsSnoc(read, page);
    assert Rows(pages) == examined + page.rankings[taken..];
    assert examined[..|examined| - 1] == Rows(read) + page.rankings[..taken - 1];
    ExaminedAre(examined, page.rankings[taken..], limit);
    DedupGrows(Rows(read), page.rankings[..taken - 1]);
    DedupGrows(examined, page.rankings[taken..]);
    assert pages[..|pages| - 1] == read;
    NeededAre(pages, book.pages[|pages|..], limit);
    assert pages + book.pages[|pages|..] == book.pages;
    assert book.pages[..|pages|] == pages;
    assert Rows(pages)[..|examined|] == examined;
  }

  lemma ReadOn(fetch: Fetch, request: Request, cap: nat, offset: nat, season: Option<string>, page: Page)
    requires offset < cap && NextPage(fetch, request, offset, season) == Ok(page) && page.rankings != []
    ensures var rest := ReadFrom(fetch, request, cap, offset + 1, SeasonAfter(season, [page]));
            ReadFrom(fetch, request, cap, offset, season) == Book([page] + rest.pages, rest.ended)
  {
    hide SeasonAfter;
  }

  lemma SeasonAfterOne(season: Option<string>, page: Page)
    ensures SeasonAfter(season, [page]) == if page.Served().Some? then page.Served() else season
  {
    assert [page][..0] == [];
  }

  lemma NothingRead(season: Option<string>)
    ensures Dedup(Rows([])) == [] && Repeats(Rows([])) == 0 && SeasonAfter(season, []) == season && Urls([]) == []
  {
  }

  lemma BookStarts(fetch: Fetch, request: Request)
    ensures var rest := ReadFrom(fetch, request, Cap(request), 0, request.SeasonParam());
            BookOf(fetch, request) == Book([] + rest.pages, rest.ended)
  {
    hide ReadFrom;
    var rest := ReadFrom(fetch, request, Cap(request), 0, request.SeasonParam());
    assert [] + rest.pages == rest.pages;
  }

  lemma NothingFollows(fetch: Fetch, request: Request, cap: nat, offset: nat, season: Option<string>)
    ensures offset >= cap ==> ReadFrom(fetch, request, cap, offset, season) == Book([], true)
    ensures offset < cap && NextPage(fetch, request, offset, season).Rejected? ==>
              ReadFrom(fetch, request, cap, offset, season) == Book([], false)
  {
  }

  lemma LastPageRead(fetch: Fetch, request: Request, cap: nat, offset: nat, season: Option<string>, page: Page)
    requires offset < cap && NextPage(fetch, request, offset, season) == Ok(page)
    requires page.rankings == [] || offset + 1 == cap
    ensures ReadFrom(fetch, request, cap, offset, season) == Book([page], true)
  {
    hide SeasonAfter;
    if page.rankings != [] {
      ReadOn(fetch, request, cap, offset, season, page);
      assert [page] + [] == [page];
    }
  }

  method SampleLeaderboardRuns(fetch: Fetch, request: Request) returns (r: Result<Sample>)
    ensures r == SampleOf(fetch, request)
  {
    hide Dedup, Repeats, Rows, SeasonAfter, Urls, ReadFrom, SampleOf, NextPage, BookOf, ResolveSeason;
    var limit := request.limit;
    var seen: set<string>, runs: seq<Snapshot>, duplicates, urls: seq<string> := {}, [], 0, [];
    var season := request.SeasonParam();
    var offset := 0;
    ghost var read: seq<Page>, settled := [], false;
    ghost var cap, book := Cap(request), BookOf(fetch, request);
    ghost var rest := ReadFrom(fetch, request, cap, 0, season);
    NothingRead(season);
    BookStarts(fetch, request);
    while offset < request.pages
      invariant !settled && offset == |read| <= cap && rest == ReadFrom(fetch, request, cap, offset, season)
      invariant book == Book(read + rest.pages, rest.ended)
      invariant season == SeasonAfter(request.SeasonParam(), read) && urls == Urls(read)
      invariant runs == Dedup(Rows(read)) && duplicates == Repeats(Rows(read))
      invariant |runs| < Limit(request) && (limit < 1 ==> offset == 0)
      invariant forall id :: id in seen <==> id in Ids(runs)
    {
      NothingFollows(fetch, request, cap, offset, season);
      var next := NextPage(fetch, request, offset, season);
      if next.Rejected? {
        assert read + [] == read;
        FailsShort(fetch, request, read);
        return Rejected;
      }
      var page := next.value;
      SnocFacts(read, page, request.SeasonParam());
      SeasonAfterOne(season, page);
      RowsSnoc(read, page);
      ghost var before, earlier := season, Rows(read);
      var served := page.Served();
      if served.Some? {
        season := served;
      }
      if page.leaderboardUrl != "" && page.leaderboardUrl !in urls {
        urls := urls + [page.leaderboardUrl];
      }
      offset := offset + 1;
      if page.rankings == [] {
        assert earlier + [] == earlier;
        LastPageRead(fetch, request, cap, offset - 1, before, page);
        EndsShort(fetch, request, read + [page]);
        settled := true;
        break;
      }
      var taken;
      seen, runs, duplicates, taken := TakeRuns(page.rankings, limit, earlier, seen, runs, duplicates);
      assert page.rankings[..|page.rankings|] == page.rankings;
      if |runs| >= limit {
        if runs == [] {
          LastPageRead(fetch, request, cap, offset - 1, before, page);
          EndsShort(fetch, request, read + [page]);
        } else {
          FirstOfBook(fetch, request, cap, offset - 1, before, page, read);
          ReachesLimit(fetch, request, read, page, taken);
        }
        settled := true;
        break;
      }
      ReadOn(fetch, request, cap, offset - 1, before, page);
      rest := ReadFrom(fetch, request, cap, offset, season);
      assert read + ([page] + rest.pages) == (read + [page]) + rest.pages;
      read := read + [page];
    }
    r := Ok(Sample(runs, season, offset, duplicates, urls));
    if !settled {
      NothingFollows(fetch, request, cap, offset, season);
      assert read + [] == read;
      EndsShort(fetch, request, read);
    }
  }

  lemma FirstOfBook(
      fetch: Fetch, request: Request, cap: nat, offset: nat, season: Option<string>, page: Page, read: seq<Page>)
    requires offset < cap && NextPage(fetch, request, offset, season) == Ok(page)
    requires BookOf(fetch, request).pages == read + ReadFrom(fetch, request, cap, offset, season).pages
    ensures read + [page] <= BookOf(fetch, request).pages
  {
    hide SeasonAfter, BookOf;
    var rest := ReadFrom(fetch, request, cap, offset, season);
    assert rest.pages[0] == page;
    assert rest.pages == [page] + rest.pages[1..];
    assert read + rest.pages == (read + [page]) + rest.pages[1..];
  }

  // ---------------------------------------------------------------- what a sample is

  function AtMost(runs: seq<Snapshot>, limit: nat): seq<Snapshot>
  {
    if |runs| < limit then runs else runs[..limit]
  }

  lemma {:induction false} ExaminedRuns(rows: seq<Row>, limit: nat)
    requires limit >= 1
    ensures var n := Examined(rows, limit);
            && Dedup(rows[..n]) == AtMost(Dedup(rows), limit)
            && (|Dedup(rows)| < limit ==> n == |rows|)
            && (|Dedup(rows)| >= limit ==> n >= 1 && |Dedup(rows[..n - 1])| < limit)
  {
    assert rows[..|rows|] == rows;
    if |Dedup(rows)| >= limit && rows != [] {
      var front, last := rows[..|rows| - 1], rows[|rows| - 1];
      assert rows == front + [last];
      DedupSnoc(front, last);
      if |Dedup(front)| >= limit {
        ExaminedRuns(front, limit);
        var n := Examined(front, limit);
        assert front[..n] == rows[..n] && (n >= 1 ==> front[..n - 1] == rows[..n - 1]);
      }
    }
  }

  lemma {:induction false} NeededRuns(pages: seq<Page>, limit: nat)
    requires limit >= 1
    ensures var n := PagesNeeded(pages, limit);
            && (|Dedup(Rows(pages))| < limit ==> n == |pages|)
            && (|Dedup(Rows(pages))| >= limit ==>
                  n >= 1 && |Dedup(Rows(pages[..n]))| >= limit && |Dedup(Rows(pages[..n - 1]))| < limit)
  {
    hide Dedup, Rows;
    NothingRead(None);
    assert pages[..|pages|] == pages;
    if |Dedup(Rows(pages))| >= limit {
      assert pages != [];
      var front := pages[..|pages| - 1];
      if |Dedup(Rows(front))| >= limit {
        NeededRuns(front, limit);
        var n := PagesNeeded(front, limit);
        assert front[..n] == pages[..n] && front[..n - 1] == pages[..n - 1];
      }
    }
  }

  /**
   The sample is the first `limit` distinct runs of the pages end to end, up to the first empty page or the
   page cap; it fails exactly when a page fails before that many distinct runs were seen.
   */
  lemma SampleIsFirstDistinctRuns(fetch: Fetch, request: Request)
    ensures var book, limit, sample := BookOf(fetch, request), Limit(request), SampleOf(fetch, request);
            var all := Dedup(Rows(book.pages));
            && (sample.Rejected? <==> |all| < limit && !book.ended)
            && (sample.Ok? ==> sample.value.runs == AtMost(all, limit))
            && (sample.Ok? && |all| < limit ==> sample.value.pagesFetched == |book.pages|)
            && (sample.Ok? && |all| >= limit ==>
                  var n := sample.value.pagesFetched;
                  1 <= n <= |book.pages| && |Dedup(Rows(book.pages[..n - 1]))| < limit <= |Dedup(Rows(book.pages[..n]))|)
  {
    hide Dedup, Repeats, Rows, Examined, PagesNeeded, BookOf;
    var book, limit := BookOf(fetch, request), Limit(request);
    var n := PagesNeeded(book.pages, limit);
    var pages := book.pages[..n];
    NeededRuns(book.pages, limit);
    ExaminedRuns(Rows(pages), limit);
    RunsOfMorePages(pages, book.pages[n..]);
    assert pages + book.pages[n..] == book.pages;
    assert n == |book.pages| ==> pages == book.pages;
  }

  /** The URLs reported are those of the pages, each once. */
  lemma {:induction false} UrlsAre(pages: seq<Page>)
    ensures forall i, j | 0 <= i < j < |Urls(pages)| :: Urls(pages)[i] != Urls(pages)[j]
    ensures forall url :: url in Urls(pages) <==>
                          url != "" && exists k :: 0 <= k < |pages| && pages[k].leaderboardUrl == url
  {
    if pages != [] {
      var front, last := pages[..|pages| - 1], pages[|pages| - 1];
      UrlsAre(front);
      assert forall k | 0 <= k < |front| :: front[k] == pages[k];
    }
  }

  /** The rows examined end at the run that fills the sample; each run among them is kept or counted as a duplicate. */
  lemma DuplicatesAreTheRest(fetch: Fetch, request: Request) returns (examined: seq<Row>)
    requires SampleOf(fetch, request).Ok?
    ensures var sample, rows := SampleOf(fetch, request).value, Rows(BookOf(fetch, request).pages);
            && examined <= rows
            && Dedup(examined) == sample.runs
            && RunCount(examined) == |sample.runs| + sample.duplicates
            && (|sample.runs| < Limit(request) ==> examined == rows)
            && (|sample.runs| == Limit(request) ==>
                  examined != [] && |Dedup(examined[..|examined| - 1])| < Limit(request))
  {
    hide Dedup, Repeats, Rows, Examined, PagesNeeded, BookOf, RunCount;
    var book, limit := BookOf(fetch, request), Limit(request);
    var n := PagesNeeded(book.pages, limit);
    var pages := book.pages[..n];
    SampleIsFirstDistinctRuns(fetch, request);
    NeededRuns(book.pages, limit);
    ExaminedRuns(Rows(pages), limit);
    var e := Examined(Rows(pages), limit);
    examined := Rows(pages)[..e];
    RowsAccounted(examined);
    RunsOfMorePages(pages, book.pages[n..]);
    assert pages + book.pages[n..] == book.pages;
    assert e >= 1 ==> examined[..|examined| - 1] == Rows(pages)[..e - 1];
    assert n == |book.pages| ==> pages == book.pages;
    assert e == |Rows(pages)| ==> examined == Rows(pages);
    assert examined + Rows(pages)[e..] == Rows(pages);
    DedupGrows(examined, Rows(pages)[e..]);
  }

  ghost predicate BookReads(fetch: Fetch, request: Request, cap: nat, offset: nat, book: Book)
  {
    && (book.pages != [] ==> offset + |book.pages| <= cap)
    && (forall k | 0 <= k < |book.pages| - 1 :: book.pages[k].rankings != [])
    && (book.ended ==> |book.pages| + offset >= cap
                       || (book.pages != [] && book.pages[|book.pages| - 1].rankings == []))
  }

  /** Reading ends at the first empty page or at the cap, and nowhere else without failing. */
  lemma {:induction false} BookEnds(fetch: Fetch, request: Request, cap: nat, offset: nat, season: Option<string>)
    ensures BookReads(fetch, request, cap, offset, ReadFrom(fetch, request, cap, offset, season))
    decreases cap - offset
  {
    hide NextPage, SeasonAfter;
    if offset < cap && NextPage(fetch, request, offset, season).Ok? {
      var page := NextPage(fetch, request, offset, season).value;
      BookEnds(fetch, request, cap, offset + 1, SeasonAfter(season, [page]));
    }
  }

  /** Pages that all echo a season or nothing, each the answer to that season and the next page number. */
  ghost predicate Steady(fetch: Fetch, from: int, pages: seq<Page>, season: string)
  {
    forall k | 0 <= k < |pages| ::
      (pages[k].Served().Some? ==> pages[k].Served() == Some(season))
      && fetch(ResolveSeason(season), from + k) == Ok(pages[k])
  }

  lemma SteadyCons(fetch: Fetch, from: int, page: Page, rest: seq<Page>, season: string)
    requires page.Served().Some? ==> page.Served() == Some(season)
    requires fetch(ResolveSeason(season), from) == Ok(page) && Steady(fetch, from + 1, rest, season)
    ensures Steady(fetch, from, [page] + rest, season)
  {
    hide ResolveSeason;
    var pages := [page] + rest;
    forall k | 0 <= k < |pages|
      ensures pages[k].Served().Some? ==> pages[k].Served() == Some(season)
      ensures fetch(ResolveSeason(season), from + k) == Ok(pages[k])
    {
      if k > 0 {
        assert pages[k] == rest[k - 1] && from + k == from + 1 + (k - 1);
      }
    }
  }

  /** From a known season on, every page is asked for by that season and echoes it or nothing. */
  lemma {:induction false} KnownSeasonStays(
      fetch: Fetch, request: Request, cap: nat, offset: nat, season: string)
    ensures Steady(fetch, request.page + offset, ReadFrom(fetch, request, cap, offset, Some(season)).pages, season)
    decreases cap - offset
  {
    hide ResolveSeason, SeasonAfter;
    if offset < cap && NextPage(fetch, request, offset, Some(season)).Ok? {
      var page := NextPage(fetch, request, offset, Some(season)).value;
      SeasonAfterOne(Some(season), page);
      KnownSeasonStays(fetch, request, cap, offset + 1, season);
      var rest := ReadFrom(fetch, request, cap, offset + 1, Some(season)).pages;
      SteadyCons(fetch, request.page + offset, page, rest, season);
      SteadyCons(fetch, request.page + offset, page, [], season);
      assert [page] + [] == [page];
    }
  }

  lemma {:induction false} SteadyEnd(fetch: Fetch, from: int, pages: seq<Page>, season: string, n: nat)
    requires Steady(fetch, from, pages, season) && n <= |pages|
    ensures SeasonAfter(Some(season), pages[..n]) == Some(season)
  {
    hide ResolveSeason;
    if n > 0 {
      SteadyEnd(fetch, from, pages, season, n - 1);
      assert pages[..n][..n - 1] == pages[..n - 1];
      assert pages[..n][n - 1] == pages[n - 1];
    }
  }

  lemma {:induction false} SeasonFromFirst(season: Option<string>, first: Page, rest: seq<Page>)
    requires first.Served().Some?
    ensures SeasonAfter(season, [first] + rest) == SeasonAfter(first.Served(), rest)
  {
    if rest == [] {
      assert [first] + rest == [first];
      SeasonAfterOne(season, first);
    } else {
      assert ([first] + rest)[..|rest|] == [first] + rest[..|rest| - 1];
      SeasonFromFirst(season, first, rest[..|rest| - 1]);
    }
  }

  /** Some pages from the first on: one season, and every page after the first asked for by it. */
  ghost predicate OneSeason(fetch: Fetch, request: Request, pages: seq<Page>, season: Option<string>)
  {
    && (forall k | 0 <= k < |pages| && pages[k].Served().Some? :: pages[k].Served() == season)
    && (forall k | 1 <= k < |pages| ::
          season.Some? && fetch(ResolveSeason(season.value), request.page + k) == Ok(pages[k]))
  }

  lemma ReadsGivenSeason(fetch: Fetch, request: Request, season: string, n: nat)
    requires request.SeasonParam() == Some(season) && n <= |BookOf(fetch, request).pages|
    ensures OneSeason(fetch, request, BookOf(fetch, request).pages[..n], Some(season))
    ensures SeasonAfter(Some(season), BookOf(fetch, request).pages[..n]) == Some(season)
  {
    hide ResolveSeason, ReadFrom, SeasonAfter;
    KnownSeasonStays(fetch, request, Cap(request), 0, season);
    SteadyEnd(fetch, request.page + 0, BookOf(fetch, request).pages, season, n);
  }

  lemma OneSeasonCons(fetch: Fetch, request: Request, first: Page, rest: seq<Page>, season: string)
    requires first.Served() == Some(season) && Steady(fetch, request.page + 1, rest, season)
    ensures OneSeason(fetch, request, [first] + rest, Some(season))
  {
    hide ResolveSeason;
    var pages := [first] + rest;
    forall k | 1 <= k < |pages|
      ensures pages[k] == rest[k - 1] && fetch(ResolveSeason(season), request.page + k) == Ok(pages[k])
    {
      assert request.page + k == request.page + 1 + (k - 1);
    }
  }

  lemma ReadsEchoedSeason(fetch: Fetch, request: Request, n: nat)
    requires request.SeasonParam().None? && n <= |BookOf(fetch, request).pages|
    ensures var pages := BookOf(fetch, request).pages[..n];
            OneSeason(fetch, request, pages, SeasonAfter(None, pages))
  {
    hide ResolveSeason, ReadFrom, SeasonAfter, OneSeason, Steady, NextPage;
    var book, cap := BookOf(fetch, request), Cap(request);
    BookCases(fetch, request);
    if n == 0 {
      NoPages(fetch, request, SeasonAfter(None, []));
    } else {
      var first, pages := book.pages[0], book.pages[..n];
      SeasonAfterOne(None, first);
      var rest := book.pages[1..];
      assert pages == [first] + rest[..n - 1];
      if first.Served().Some? {
        var season := first.Served().value;
        if rest != [] {
          KnownSeasonStays(fetch, request, cap, 1, season);
        }
        SteadyPrefix(fetch, request.page + 1, rest, season, n - 1);
        SteadyEnd(fetch, request.page + 1, rest, season, n - 1);
        SeasonFromFirst(None, first, rest[..n - 1]);
        OneSeasonCons(fetch, request, first, rest[..n - 1], season);
      } else {
        assert pages == [first];
        OneUnnamed(fetch, request, first);
      }
    }
  }

  lemma NoPages(fetch: Fetch, request: Request, season: Option<string>)
    ensures OneSeason(fetch, request, [], season)
  {
  }

  lemma OneUnnamed(fetch: Fetch, request: Request, first: Page)
    requires first.Served().None?
    ensures OneSeason(fetch, request, [first], None)
  {
  }

  lemma SteadyPrefix(fetch: Fetch, from: int, pages: seq<Page>, season: string, n: nat)
    requires n <= |pages| && (pages == [] || Steady(fetch, from, pages, season))
    ensures Steady(fetch, from, pages[..n], season) && Steady(fetch, from, [], season)
    ensures pages == [] ==> Steady(fetch, from, pages, season)
  {
    hide ResolveSeason;
  }

  lemma BookCases(fetch: Fetch, request: Request)
    requires request.SeasonParam().None?
    ensures var pages := BookOf(fetch, request).pages;
            |pages| <= 1 ||
            (pages[0].Served().Some? &&
             pages[1..] == ReadFrom(fetch, request, Cap(request), 1, pages[0].Served()).pages)
  {
    hide ResolveSeason, SeasonAfter, ReadFrom, NextPage;
    var cap, pages := Cap(request), BookOf(fetch, request).pages;
    NothingFollows(fetch, request, cap, 0, None);
    if cap > 0 && NextPage(fetch, request, 0, None).Ok? {
      var page := NextPage(fetch, request, 0, None).value;
      if page.rankings == [] {
        LastPageRead(fetch, request, cap, 0, None, page);
      } else {
        ReadOn(fetch, request, cap, 0, None, page);
        SeasonAfterOne(None, page);
        UnknownSeasonStops(fetch, request, cap);
        assert pages[1..] == ReadFrom(fetch, request, cap, 1, page.Served()).pages;
      }
    }
  }

  /** A second page is never asked for before a season is known. */
  lemma UnknownSeasonStops(fetch: Fetch, request: Request, cap: nat)
    ensures ReadFrom(fetch, request, cap, 1, None).pages == []
  {
  }

  /** All echoes of the pages read agree with the reported season, and every page after the first was asked for by it. */
  lemma SampleKeepsOneSeason(fetch: Fetch, request: Request)
    requires SampleOf(fetch, request).Ok?
    ensures var sample := SampleOf(fetch, request).value;
            && sample.pagesFetched <= |BookOf(fetch, request).pages|
            && OneSeason(fetch, request, BookOf(fetch, request).pages[..sample.pagesFetched], sample.season)
            && (request.SeasonParam().Some? ==> sample.season == request.SeasonParam())
  {
    hide ResolveSeason, Dedup, Repeats, Examined, Rows, PagesNeeded, SeasonAfter, Urls, OneSeason, BookOf;
    var n := PagesNeeded(BookOf(fetch, request).pages, Limit(request));
    if request.SeasonParam().Some? {
      ReadsGivenSeason(fetch, request, request.SeasonParam().value, n);
    } else {
      ReadsEchoedSeason(fetch, request, n);
    }
  }

  /** A season that stands as it is: named, not padded with blanks, and not the `current` keyword. */
  predicate Plain(season: string)
  {
    season != "" && Strip(season) == season && Lower(season) != CURRENT
  }

  /** A season is asked for as it stands exactly when it is not blank around and not the `current` keyword. */
  lemma PinnedIff(season: string)
    ensures ResolveSeason(season) == Some(season) <==> Plain(season)
    ensures forall s :: ResolveSeason(season) == Some(s) ==> ResolveSeason(s) == Some(s)
  {
  }

  /** The season a sample is of: the caller's, else the one the first page echoes. */
  function SampledSeason(request: Request, first: Page): Option<string>
  {
    if request.SeasonParam().Some? then request.SeasonParam() else first.Served()
  }

  /**
   Every later page is asked for by the caller's season, else by the first page's echo; it names that season
   itself exactly when the caller gave one or the echo is plain.
   */
  lemma LaterPagesPinned(fetch: Fetch, request: Request, k: nat)
    requires SampleOf(fetch, request).Ok? && 1 <= k < SampleOf(fetch, request).value.pagesFetched
    ensures var pages := BookOf(fetch, request).pages;
            && k < |pages|
            && var season := SampledSeason(request, pages[0]);
            && season.Some? && SampleOf(fetch, request).value.season == season
            && fetch(ResolveSeason(season.value), request.page + k) == Ok(pages[k])
            && (ResolveSeason(season.value) == season <==>
                request.SeasonParam().Some? || (pages[0].Served().Some? && Plain(pages[0].Served().value)))
  {
    hide ResolveSeason, SampleOf, BookOf;
    SampleKeepsOneSeason(fetch, request);
    var sample, pages := SampleOf(fetch, request).value, BookOf(fetch, request).pages;
    assert pages[..sample.pagesFetched][k] == pages[k] && pages[..sample.pagesFetched][0] == pages[0];
    if request.SeasonParam().None? {
      BookCases(fetch, request);
    }
    PinnedIff(sample.season.value);
    PinnedIff(request.season);
  }

  lemma CurrentIsNoSeason()
    ensures ResolveSeason(CURRENT) == None
  {
    assert CURRENT[0] == 'c' && CURRENT[|CURRENT| - 1] == 't';
    assert Strip(CURRENT) == CURRENT;
    assert Lower(CURRENT) == CURRENT;
  }

  /** A response that echoes the keyword instead of a season leaves the second page unpinned. */
  lemma KeywordEchoUnpins(fetch: Fetch, request: Request, first: Page, second: Page)
    requires request.SeasonParam().None? && Cap(request) >= 2
    requires fetch(None, request.page) == Ok(first) && first.Served() == Some(CURRENT) && first.rankings != []
    requires fetch(None, request.page + 1) == Ok(second) && second.Served().None?
    ensures var pages := BookOf(fetch, request).pages;
            |pages| >= 2 && pages[..2] == [first, second]
  {
    hide ResolveSeason, ReadFrom, SeasonAfter;
    var cap := Cap(request);
    CurrentIsNoSeason();
    SeasonAfterOne(None, first);
    ReadOn(fetch, request, cap, 0, None, first);
    if second.rankings == [] || cap == 2 {
      LastPageRead(fetch, request, cap, 1, Some(CURRENT), second);
    } else {
      ReadOn(fetch, request, cap, 1, Some(CURRENT), second);
    }
  }

  lemma {:induction false} SameReading(
      fetch: Fetch, a: Request, b: Request, cap: nat, offset: nat, season: Option<string>)
    requires a.season == b.season && a.page == b.page
    ensures ReadFrom(fetch, a, cap, offset, season) == ReadFrom(fetch, b, cap, offset, season)
    decreases cap - offset
  {
    hide ResolveSeason, SeasonAfter;
    if offset < cap && NextPage(fetch, a, offset, season).Ok? {
      SameReading(fetch, a, b, cap, offset + 1, SeasonAfter(season, [NextPage(fetch, a, offset, season).value]));
    }
  }

  /** A limit below one is the limit one on the first page alone: it keeps a run. */
  lemma LimitBelowOne(fetch: Fetch, request: Request)
    requires request.limit < 1
    ensures SampleOf(fetch, request) ==
            SampleOf(fetch, request.(limit := 1, pages := if request.pages > 1 then 1 else request.pages))
  {
    hide ResolveSeason, ReadFrom, Dedup, Repeats, Rows, SeasonAfter, Urls, PagesNeeded, Examined;
    var other := request.(limit := 1, pages := if request.pages > 1 then 1 else request.pages);
    SameReading(fetch, request, other, Cap(request), 0, request.SeasonParam());
  }

  const ONE_RUN := Snapshot("1", "the-dungeon", "today", Some("7"), None, None)

  /** A provider that answers every request with the same page of one run. */
  function OneRunEverywhere(): Fetch
  {
    (season, page) => Ok(Page("", "", "", [Ranked(ONE_RUN)]))
  }

  lemma OneRunRows(page: Page)
    requires page.rankings == [Ranked(ONE_RUN)]
    ensures Dedup(Rows([page])) == [ONE_RUN]
  {
    hide Dedup;
    FlattenOne(page, Rankings);
    NothingRead(None);
    DedupSnoc([], Ranked(ONE_RUN));
    assert [] + [Ranked(ONE_RUN)] == [Ranked(ONE_RUN)];
  }

  /** A run is kept though the limit is below one. */
  lemma OneRunIsKept(request: Request)
    requires request.limit < 1 && request.pages >= 1
    ensures var sample := SampleOf(OneRunEverywhere(), request);
            sample.Ok? && sample.value.runs == [ONE_RUN]
  {
    hide ReadFrom, SampleOf, ResolveSeason, SeasonAfter, Dedup, Rows;
    var season := request.SeasonParam();
    var page := NextPage(OneRunEverywhere(), request, 0, season).value;
    LastPageRead(OneRunEverywhere(), request, 1, 0, season, page);
    OneRunRows(page);
    SampleIsFirstDistinctRuns(OneRunEverywhere(), request);
  }

  lemma NoPagesNoRuns(fetch: Fetch, request: Request)
    requires request.pages == 0
    ensures SampleOf(fetch, request).Ok? && SampleOf(fetch, request).value.runs == []
  {
    hide ReadFrom, SampleOf, ResolveSeason, Dedup, Rows;
    NothingFollows(fetch, request, 0, 0, request.SeasonParam());
    NothingRead(None);
    SampleIsFirstDistinctRuns(fetch, request);
  }

  /**
   No provider makes a request keep more runs than its limit exactly when the limit is at least one, or is
   zero with no page to read. The commands ask for at least one.
   */
  lemma AtMostLimitIff(request: Request)
    ensures (forall fetch: Fetch :: SampleOf(fetch, request).Ok? ==>
               |SampleOf(fetch, request).value.runs| <= request.limit)
            <==> request.limit >= 1 || (request.limit == 0 && request.pages == 0)
  {
    hide SampleOf, BookOf, Dedup, Rows;
    if request.limit >= 1 {
      forall fetch: Fetch | SampleOf(fetch, request).Ok?
        ensures |SampleOf(fetch, request).value.runs| <= request.limit
      {
        SampleIsFirstDistinctRuns(fetch, request);
      }
    } else if request.pages == 0 {
      forall fetch: Fetch ensures SampleOf(fetch, request).Ok? && SampleOf(fetch, request).value.runs == [] {
        NoPagesNoRuns(fetch, request);
      }
      assert SampleOf(OneRunEverywhere(), request).Ok?;
    } else {
      OneRunIsKept(request);
    }
  }
}
