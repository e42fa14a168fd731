/**
 The site index: rows keyed by slug, merged with one crawl after another. A page the crawl reads refreshes
 its row, a rename becomes a redirect row, a missing page loses its row, everything else stays.
 */
module SiteIndex {
  import opened Wrappers
  import opened Slugs

  // ---------------------------------------------------------------- rows and crawls

  datatype Status = Live | Redirected

  /** What one upsert writes: the row without its source and dates. */
  datatype Fields = Fields(
    slug: string, url: string, title: Option<string>, published: Option<string>, modified: Option<string>,
    parent: Option<string>, status: Status, redirectTo: Option<string>)

  /** Days are counted from a fixed start. */
  datatype Row = Row(fields: Fields, source: string, firstSeen: nat, lastSeen: nat)

  type Pages = map<string, Row>

  /** `refreshedAt` is in seconds. */
  datatype Index = Index(pages: Pages, refreshedAt: Option<nat>, frontier: seq<string>)

  datatype PageRow = PageRow(
    slug: string, url: string, title: Option<string>, published: Option<string>, modified: Option<string>,
    parent: Option<string>)

  datatype CrawledPage = CrawledPage(requestedUrl: string, row: PageRow, source: string)

  datatype Alias = Alias(requested: string, served: string)

  datatype StopReason = Blocked | Unavailable | MaxRequests | SeedFailed

  datatype Crawl = Crawl(
    pages: seq<CrawledPage>, aliases: seq<Alias>, notFound: seq<string>, stopReason: Option<StopReason>,
    frontier: seq<string>)
  {
    predicate StoppedEarly()
    {
      stopReason == Some(Blocked) || stopReason == Some(Unavailable)
    }

    predicate ReadAnything()
    {
      pages != [] || aliases != [] || notFound != []
    }
  }

  /** The slug a page URL names, when it names one. */
  type SlugOf = string -> Option<string>

  const SECONDS_PER_DAY: nat := 86400

  function Day(now: nat): nat
  {
    now / SECONDS_PER_DAY
  }

  // ---------------------------------------------------------------- upserts

  /** One upsert: the fields to write and the source to record if the slug is new. */
  datatype Touch = Touch(fields: Fields, source: string)

  function PageTouch(crawled: CrawledPage): Touch
  {
    var row := crawled.row;
    Touch(
      Fields(row.slug, row.url, row.title, row.published, row.modified, row.parent, Live, None), crawled.source)
  }

  function PageTouches(pages: seq<CrawledPage>): (touches: seq<Touch>)
    ensures |touches| == |pages| && forall k | 0 <= k < |pages| :: touches[k] == PageTouch(pages[k])
  {
    seq(|pages|, k requires 0 <= k < |pages| => PageTouch(pages[k]))
  }

  /** The source of the last crawled page that was requested at a URL. */
  function SourceOf(pages: seq<CrawledPage>, url: string): (source: Option<string>)
    ensures source.Some? <==> exists k :: 0 <= k < |pages| && pages[k].requestedUrl == url
  {
    if pages == [] then None
    else
      var last := pages[|pages| - 1];
      if last.requestedUrl == url then Some(last.source) else SourceOf(pages[..|pages| - 1], url)
  }

  /** A redirect row has nothing of a page but its slug, its URL and where it leads. */
  function AliasTouch(pages: seq<CrawledPage>, slugOf: SlugOf, alias: Alias): Result<Touch>
  {
    match (slugOf(alias.requested), slugOf(alias.served), SourceOf(pages, alias.requested))
    case (Some(slug), Some(target), Some(source)) =>
      Ok(Touch(Fields(slug, alias.requested, None, None, None, None, Redirected, Some(target)), source))
    case _ => Rejected
  }

  function AliasTouches(pages: seq<CrawledPage>, slugOf: SlugOf, aliases: seq<Alias>): (r: Result<seq<Touch>>)
    ensures r.Ok? <==> forall k | 0 <= k < |aliases| :: AliasTouch(pages, slugOf, aliases[k]).Ok?
    ensures r.Ok? ==> |r.value| == |aliases|
                      && forall k | 0 <= k < |aliases| :: AliasTouch(pages, slugOf, aliases[k]) == Ok(r.value[k])
  {
    if aliases == [] then Ok([])
    else
      var before :- AliasTouches(pages, slugOf, aliases[..|aliases| - 1]);
      var last :- AliasTouch(pages, slugOf, aliases[|aliases| - 1]);
      Ok(before + [last])
  }

  /** Everything a crawl writes, in order. */
  function Touches(crawl: Crawl, slugOf: SlugOf): Result<seq<Touch>>
  {
    var renames :- AliasTouches(crawl.pages, slugOf, crawl.aliases);
    Ok(PageTouches(crawl.pages) + renames)
  }

  /** The slugs of the pages a crawl found missing. */
  function Gone(notFound: seq<string>, slugOf: SlugOf): (r: Result<seq<string>>)
    ensures r.Ok? <==> forall k | 0 <= k < |notFound| :: slugOf(notFound[k]).Some?
    ensures r.Ok? ==> |r.value| == |notFound|
                      && forall k | 0 <= k < |notFound| :: slugOf(notFound[k]) == Some(r.value[k])
  {
    if notFound == [] then Ok([])
    else
      var before :- Gone(notFound[..|notFound| - 1], slugOf);
      match slugOf(notFound[|notFound| - 1])
      case None => Rejected
      case Some(slug) => Ok(before + [slug])
  }

  /** The rows and the slugs that were new when they were written. */
  datatype Table = Table(pages: Pages, added: seq<string>)

  function Upserted(table: Table, touch: Touch, today: nat): Table
  {
    var slug := touch.fields.slug;
    if slug in table.pages then
      var earlier := table.pages[slug];
      Table(table.pages[slug := Row(touch.fields, earlier.source, earlier.firstSeen, today)], table.added)
    else
      Table(table.pages[slug := Row(touch.fields, touch.source, today, today)], table.added + [slug])
  }

  function Written(before: Pages, touches: seq<Touch>, today: nat): Table
  {
    if touches == [] then Table(before, [])
    else Upserted(Written(before, touches[..|touches| - 1], today), touches[|touches| - 1], today)
  }

  lemma WrittenSnoc(before: Pages, touches: seq<Touch>, last: Touch, today: nat)
    ensures Written(before, touches + [last], today) == Upserted(Written(before, touches, today), last, today)
  {
    assert (touches + [last])[..|touches|] == touches;
  }

  /** The missing slugs that had a row, each once, in order. */
  function Dropped(pages: Pages, gone: seq<string>): seq<string>
  {
    if gone == [] then []
    else
      var front, slug := gone[..|gone| - 1], gone[|gone| - 1];
      Dropped(pages, front) + if slug in pages && slug !in front then [slug] else []
  }

  function Remaining(pages: Pages, gone: seq<string>): (left: Pages)
    ensures forall slug :: slug in left <==> slug in pages && slug !in gone
    ensures forall slug | slug in left :: left[slug] == pages[slug]
  {
    map slug | slug in pages && slug !in gone :: pages[slug]
  }

  /** The new slugs whose row is a live page. */
  function LiveOnes(pages: Pages, added: seq<string>): seq<string>
    requires forall slug | slug in added :: slug in pages
  {
    if added == [] then []
    else
      assert forall slug | slug in added[..|added| - 1] :: slug in added;
      var last := added[|added| - 1];
      LiveOnes(pages, added[..|added| - 1]) + if pages[last].fields.status == Live then [last] else []
  }

  datatype Outcome = Outcome(index: Index, live: seq<string>, dropped: seq<string>)

  function PagesOf(index: Option<Index>): Pages
  {
    if index.Some? then index.value.pages else map[]
  }

  function RefreshedAt(previous: Option<Index>, crawl: Crawl, now: nat): Option<nat>
  {
    if previous.Some? && crawl.StoppedEarly() then previous.value.refreshedAt else Some(now)
  }

  function Merged(previous: Option<Index>, crawl: Crawl, slugOf: SlugOf, now: nat): Result<Outcome>
  {
    var touches :- Touches(crawl, slugOf);
    var gone :- Gone(crawl.notFound, slugOf);
    var table := Written(PagesOf(previous), touches, Day(now));
    var pages := Remaining(table.pages, gone);
    if exists slug :: slug in table.added && slug !in pages then Rejected
    else
      Ok(Outcome(
           Index(pages, RefreshedAt(previous, crawl, now), crawl.frontier), LiveOnes(pages, table.added),
           Dropped(table.pages, gone)))
  }

  // ---------------------------------------------------------------- the merge itself

  /** The rows a merge works on, and the slugs it has added so far. */
  class PageTable {
    var pages: Pages
    var added: seq<string>

    constructor (start: Pages)
      ensures pages == start && added == []
    {
      pages := start;
      added := [];
    }

    function Contents(): Table
      reads this
    {
      Table(pages, added)
    }

    method Upsert(fields: Fields, source: string, today: nat)
      modifies this
      ensures Contents() == Upserted(old(Contents()), Touch(fields, source), today)
    {
      var slug := fields.slug;
      if slug !in pages {
        added := added + [slug];
        pages := pages[slug := Row(fields, source, today, today)];
      } else {
        pages := pages[slug := Row(fields, pages[slug].source, pages[slug].firstSeen, today)];
      }
    }

    method Pop(slug: string) returns (had: bool)
      modifies `pages
      ensures had == (slug in old(pages)) && pages == old(pages) - {slug}
    {
      had := slug in pages;
      pages := pages - {slug};
    }
  }

  method SourcesByUrl(pages: seq<CrawledPage>) returns (sources: map<string, string>)
    ensures forall url :: (url in sources <==> SourceOf(pages, url).Some?)
                          && (url in sources ==> SourceOf(pages, url) == Some(sources[url]))
  {
    sources := map[];
    assert pages[..|pages|] == pages;
    for k := 0 to |pages|
      invariant forall url :: (url in sources <==> SourceOf(pages[..k], url).Some?)
                              && (url in sources ==> SourceOf(pages[..k], url) == Some(sources[url]))
    {
      assert pages[..k + 1][..k] == pages[..k];
      sources := sources[pages[k].requestedUrl := pages[k].source];
    }
  }

  lemma RemainingSnoc(pages: Pages, gone: seq<string>, k: nat)
    requires k < |gone|
    ensures Remaining(pages, gone[..k + 1]) == Remaining(pages, gone[..k]) - {gone[k]}
    ensures Dropped(pages, gone[..k + 1]) ==
            Dropped(pages, gone[..k]) + if gone[k] in Remaining(pages, gone[..k]) then [gone[k]] else []
  {
    hide Remaining;
    assert gone[..k + 1] == gone[..k] + [gone[k]];
    assert (gone[..k] + [gone[k]])[..k] == gone[..k];
    var left, right := Remaining(pages, gone[..k + 1]), Remaining(pages, gone[..k]) - {gone[k]};
    forall slug ensures slug in left <==> slug in right {
    }
  }

  method PopAll(table: PageTable, notFound: seq<string>, slugOf: SlugOf) returns (r: Result<seq<string>>)
    modifies table`pages
    ensures r.Ok? <==> Gone(notFound, slugOf).Ok?
    ensures r.Ok? ==> var gone := Gone(notFound, slugOf).value;
                      table.pages == Remaining(old(table.pages), gone) && r.value == Dropped(old(table.pages), gone)
  {
    hide Remaining, Dropped, Gone;
    ghost var start := table.pages;
    ghost var gone: seq<string> := [];
    var dropped: seq<string> := [];
    RemainingNothing(start);
    for k := 0 to |notFound|
      invariant |gone| == k && forall j | 0 <= j < k :: slugOf(notFound[j]) == Some(gone[j])
      invariant table.pages == Remaining(start, gone) && dropped == Dropped(start, gone)
    {
      match slugOf(notFound[k]) {
        case None =>
          return Rejected;
        case Some(slug) =>
          ghost var longer := gone + [slug];
          assert longer[..k] == gone && longer[..k + 1] == longer;
          RemainingSnoc(start, longer, k);
          var had := table.Pop(slug);
          if had {
            dropped := dropped + [slug];
          } else {
            assert dropped + [] == dropped;
          }
          gone := longer;
      }
    }
    assert gone == Gone(notFound, slugOf).value;
    r := Ok(dropped);
  }

  lemma RemainingNothing(pages: Pages)
    ensures Remaining(pages, []) == pages && Dropped(pages, []) == []
  {
  }

  method UpsertAliases(
      table: PageTable, pages: seq<CrawledPage>, aliases: seq<Alias>, slugOf: SlugOf, today: nat, ghost before: Pages,
      ghost earlier: seq<Touch>) returns (ok: bool)
    requires table.Contents() == Written(before, earlier, today)
    modifies table
    ensures ok <==> AliasTouches(pages, slugOf, aliases).Ok?
    ensures ok ==> table.Contents() == Written(before, earlier + AliasTouches(pages, slugOf, aliases).value, today)
  {
    hide Written, SourceOf, AliasTouches;
    var sources := SourcesByUrl(pages);
    ghost var touches, renames: seq<Touch> := earlier, [];
    assert earlier + [] == earlier;
    for k := 0 to |aliases|
      invariant |renames| == k && touches == earlier + renames
      invariant forall j | 0 <= j < k :: AliasTouch(pages, slugOf, aliases[j]) == Ok(renames[j])
      invariant table.Contents() == Written(before, touches, today)
    {
      var requested, served := aliases[k].requested, aliases[k].served;
      var slug, target := slugOf(requested), slugOf(served);
      if slug.None? || target.None? || requested !in sources {
        assert AliasTouch(pages, slugOf, aliases[k]).Rejected?;
        return false;
      }
      var fields := Fields(slug.value, requested, None, None, None, None, Redirected, Some(target.value));
      ghost var touch := Touch(fields, sources[requested]);
      WrittenSnoc(before, touches, touch, today);
      assert earlier + (renames + [touch]) == touches + [touch];
      table.Upsert(fields, sources[requested], today);
      touches, renames := touches + [touch], renames + [touch];
    }
    ghost var all := AliasTouches(pages, slugOf, aliases);
    assert all.value == renames;
    ok := true;
  }

  method MergeCrawl(previous: Option<Index>, crawl: Crawl, slugOf: SlugOf, now: nat) returns (r: Result<Outcome>)
    ensures r == Merged(previous, crawl, slugOf, now)
  {
    hide Written, AliasTouches, Gone, Remaining, Dropped, LiveOnes, Day, PagesOf, RefreshedAt;
    var today := Day(now);
    var table := new PageTable(PagesOf(previous));
    ghost var before, touches := table.pages, PageTouches(crawl.pages);
    WrittenNothing(before, today);
    for k := 0 to |crawl.pages|
      invariant table.Contents() == Written(before, touches[..k], today)
    {
      assert touches[..k + 1] == touches[..k] + [touches[k]];
      WrittenSnoc(before, touches[..k], touches[k], today);
      var touch := PageTouch(crawl.pages[k]);
      table.Upsert(touch.fields, touch.source, today);
    }
    assert touches[..|crawl.pages|] == touches;
    var ok := UpsertAliases(table, crawl.pages, crawl.aliases, slugOf, today, before, touches);
    if !ok {
      return Rejected;
    }
    var added := table.added;
    var dropped := PopAll(table, crawl.notFound, slugOf);
    if dropped.Rejected? {
      return Rejected;
    }
    var live := ReadLive(table.pages, added);
    if live.Rejected? {
      return Rejected;
    }
    var merged := Index(table.pages, RefreshedAt(previous, crawl, now), crawl.frontier);
    r := Ok(Outcome(merged, live.value, dropped.value));
  }

  lemma WrittenNothing(before: Pages, today: nat)
    ensures Written(before, [], today) == Table(before, [])
  {
  }

  method ReadLive(pages: Pages, added: seq<string>) returns (r: Result<seq<string>>)
    ensures r.Ok? <==> forall slug | slug in added :: slug in pages
    ensures r.Ok? ==> r.value == LiveOnes(pages, added)
  {
    var live: seq<string> := [];
    assert added[..|added|] == added;
    for k := 0 to |added|
      invariant forall slug | slug in added[..k] :: slug in pages
      invariant live == LiveOnes(pages, added[..k])
    {
      assert added[..k + 1] == added[..k] + [added[k]];
      assert added[..k + 1][..k] == added[..k];
      if added[k] !in pages {
        return Rejected;
      }
      if pages[added[k]].fields.status == Live {
        live := live + [added[k]];
      }
    }
    r := Ok(live);
  }

  // ---------------------------------------------------------------- what a merge leaves, row by row

  /** The touches of one slug, in order. */
  function TouchesOf(touches: seq<Touch>, slug: string): seq<Touch>
  {
    if touches == [] then []
    else
      var last := touches[|touches| - 1];
      TouchesOf(touches[..|touches| - 1], slug) + if last.fields.slug == slug then [last] else []
  }

  /** The row a slug ends with: the last fields written, the first source and date it ever had, today. */
  function RowAfter(before: Pages, writes: seq<Touch>, slug: string, today: nat): Row
    requires writes != []
  {
    var fields := writes[|writes| - 1].fields;
    if slug in before then Row(fields, before[slug].source, before[slug].firstSeen, today)
    else Row(fields, writes[0].source, today, today)
  }

  ghost predicate Distinct(slugs: seq<string>)
  {
    forall i, j | 0 <= i < j < |slugs| :: slugs[i] != slugs[j]
  }

  ghost predicate WrittenAt(before: Pages, writes: seq<Touch>, after: Table, slug: string, today: nat)
  {
    && (slug in after.pages <==> slug in before || writes != [])
    && (slug in after.added <==> slug !in before && writes != [])
    && (slug in after.pages ==>
          after.pages[slug] == if writes != [] then RowAfter(before, writes, slug, today) else before[slug])
  }

  lemma TouchesOfSnoc(front: seq<Touch>, last: Touch, slug: string)
    ensures TouchesOf(front + [last], slug) ==
            if last.fields.slug == slug then TouchesOf(front, slug) + [last] else TouchesOf(front, slug)
  {
    assert (front + [last])[..|front|] == front;
  }

  lemma UpsertedAt(before: Pages, writes: seq<Touch>, table: Table, last: Touch, slug: string, today: nat)
    requires WrittenAt(before, writes, table, slug, today)
    ensures WrittenAt(
              before, if last.fields.slug == slug then writes + [last] else writes, Upserted(table, last, today), slug,
              today)
  {
  }

  lemma {:induction false} WrittenRows(before: Pages, touches: seq<Touch>, slug: string, today: nat)
    ensures WrittenAt(before, TouchesOf(touches, slug), Written(before, touches, today), slug, today)
  {
    if touches != [] {
      hide Written, TouchesOf, Upserted, WrittenAt;
      var front, last := touches[..|touches| - 1], touches[|touches| - 1];
      assert touches == front + [last];
      WrittenRows(before, front, slug, today);
      WrittenSnoc(before, front, last, today);
      TouchesOfSnoc(front, last, slug);
      UpsertedAt(before, TouchesOf(front, slug), Written(before, front, today), last, slug, today);
    }
  }

  lemma {:induction false} AddedDistinct(before: Pages, touches: seq<Touch>, today: nat)
    ensures Distinct(Written(before, touches, today).added)
    ensures forall slug | slug in Written(before, touches, today).added :: slug in Written(before, touches, today).pages
  {
    if touches != [] {
      hide Written;
      var front, last := touches[..|touches| - 1], touches[|touches| - 1];
      assert touches == front + [last];
      AddedDistinct(before, front, today);
      WrittenSnoc(before, front, last, today);
    } else {
      WrittenNothing(before, today);
    }
  }

  /** A crawl reads a slug: as the page it fetched, or as the old name of a page. */
  ghost predicate Reads(crawl: Crawl, slugOf: SlugOf, slug: string)
  {
    || (exists k :: 0 <= k < |crawl.pages| && crawl.pages[k].row.slug == slug)
    || (exists k :: 0 <= k < |crawl.aliases| && slugOf(crawl.aliases[k].requested) == Some(slug))
  }

  ghost predicate Misses(crawl: Crawl, slugOf: SlugOf, slug: string)
  {
    exists k :: 0 <= k < |crawl.notFound| && slugOf(crawl.notFound[k]) == Some(slug)
  }

  /** Every URL names a page, and every rename was requested by a crawled page. */
  ghost predicate Usable(crawl: Crawl, slugOf: SlugOf)
  {
    && (forall k | 0 <= k < |crawl.aliases| ::
          && slugOf(crawl.aliases[k].requested).Some? && slugOf(crawl.aliases[k].served).Some?
          && exists j :: 0 <= j < |crawl.pages| && crawl.pages[j].requestedUrl == crawl.aliases[k].requested)
    && forall k | 0 <= k < |crawl.notFound| :: slugOf(crawl.notFound[k]).Some?
  }

  lemma AliasUsable(pages: seq<CrawledPage>, slugOf: SlugOf, alias: Alias)
    ensures AliasTouch(pages, slugOf, alias).Ok? <==>
            && slugOf(alias.requested).Some? && slugOf(alias.served).Some?
            && exists j :: 0 <= j < |pages| && pages[j].requestedUrl == alias.requested
    ensures AliasTouch(pages, slugOf, alias).Ok? ==>
              Some(AliasTouch(pages, slugOf, alias).value.fields.slug) == slugOf(alias.requested)
  {
    hide SourceOf;
  }

  lemma UsableIff(crawl: Crawl, slugOf: SlugOf)
    ensures Usable(crawl, slugOf) <==> Touches(crawl, slugOf).Ok? && Gone(crawl.notFound, slugOf).Ok?
  {
    hide AliasTouches, Gone, AliasTouch;
    forall k | 0 <= k < |crawl.aliases|
      ensures AliasTouch(crawl.pages, slugOf, crawl.aliases[k]).Ok? <==>
              && slugOf(crawl.aliases[k].requested).Some? && slugOf(crawl.aliases[k].served).Some?
              && exists j :: 0 <= j < |crawl.pages| && crawl.pages[j].requestedUrl == crawl.aliases[k].requested
    {
      AliasUsable(crawl.pages, slugOf, crawl.aliases[k]);
    }
  }

  lemma {:induction false} SomeTouch(touches: seq<Touch>, slug: string)
    ensures TouchesOf(touches, slug) != [] <==> exists k :: 0 <= k < |touches| && touches[k].fields.slug == slug
  {
    if touches != [] {
      var front := touches[..|touches| - 1];
      SomeTouch(front, slug);
      assert forall k | 0 <= k < |front| :: front[k] == touches[k];
    }
  }

  lemma ReadIsTouch(crawl: Crawl, slugOf: SlugOf, slug: string)
    requires Touches(crawl, slugOf).Ok?
    ensures TouchesOf(Touches(crawl, slugOf).value, slug) != [] <==> Reads(crawl, slugOf, slug)
  {
    hide AliasTouches, AliasTouch, TouchesOf;
    var touches, n := Touches(crawl, slugOf).value, |crawl.pages|;
    SomeTouch(touches, slug);
    forall k | 0 <= k < |crawl.aliases| ensures Some(touches[n + k].fields.slug) == slugOf(crawl.aliases[k].requested) {
      AliasUsable(crawl.pages, slugOf, crawl.aliases[k]);
    }
    forall k | n <= k < |touches| ensures Some(touches[k].fields.slug) == slugOf(crawl.aliases[k - n].requested) {
      assert k == n + (k - n);
    }
    assert forall k | 0 <= k < n :: touches[k].fields.slug == crawl.pages[k].row.slug;
    if Reads(crawl, slugOf, slug) {
      if k :| 0 <= k < n && crawl.pages[k].row.slug == slug {
        assert touches[k].fields.slug == slug;
      } else {
        var k :| 0 <= k < |crawl.aliases| && slugOf(crawl.aliases[k].requested) == Some(slug);
        assert touches[n + k].fields.slug == slug;
      }
    }
  }

  lemma GoneIsMissing(crawl: Crawl, slugOf: SlugOf, slug: string)
    requires Gone(crawl.notFound, slugOf).Ok?
    ensures slug in Gone(crawl.notFound, slugOf).value <==> Misses(crawl, slugOf, slug)
  {
    hide Gone;
    var gone := Gone(crawl.notFound, slugOf).value;
    if Misses(crawl, slugOf, slug) {
      var k :| 0 <= k < |crawl.notFound| && slugOf(crawl.notFound[k]) == Some(slug);
      assert gone[k] == slug;
    }
  }

  /** The table of a usable crawl, slug by slug. */
  lemma TableAt(previous: Option<Index>, crawl: Crawl, slugOf: SlugOf, now: nat, slug: string)
    requires Usable(crawl, slugOf)
    ensures Touches(crawl, slugOf).Ok? && Gone(crawl.notFound, slugOf).Ok?
    ensures var before, touches := PagesOf(previous), Touches(crawl, slugOf).value;
            var writes, table := TouchesOf(touches, slug), Written(before, touches, Day(now));
            && WrittenAt(before, writes, table, slug, Day(now))
            && (writes != [] <==> Reads(crawl, slugOf, slug))
            && (slug in Remaining(table.pages, Gone(crawl.notFound, slugOf).value) <==>
                slug in table.pages && !Misses(crawl, slugOf, slug))
  {
    hide Touches, Gone, TouchesOf, Written, Remaining, WrittenAt, Usable, Reads, Misses, Day;
    UsableIff(crawl, slugOf);
    WrittenRows(PagesOf(previous), Touches(crawl, slugOf).value, slug, Day(now));
    ReadIsTouch(crawl, slugOf, slug);
    GoneIsMissing(crawl, slugOf, slug);
  }

  /** A merge fails exactly when a URL is no page, a rename has no crawled page, or a page read for the first time is missing. */
  lemma MergeSucceedsIff(previous: Option<Index>, crawl: Crawl, slugOf: SlugOf, now: nat)
    ensures Merged(previous, crawl, slugOf, now).Ok? <==>
            && Usable(crawl, slugOf)
            && forall slug | Reads(crawl, slugOf, slug) && Misses(crawl, slugOf, slug) :: slug in PagesOf(previous)
  {
    hide Touches, Gone, TouchesOf, Written, Remaining, Usable, Reads, Misses, PagesOf, LiveOnes, Dropped, RefreshedAt, Day;
    UsableIff(crawl, slugOf);
    if Usable(crawl, slugOf) {
      forall slug
        ensures var table := Written(PagesOf(previous), Touches(crawl, slugOf).value, Day(now));
                slug in table.added && slug !in Remaining(table.pages, Gone(crawl.notFound, slugOf).value) <==>
                Reads(crawl, slugOf, slug) && Misses(crawl, slugOf, slug) && slug !in PagesOf(previous)
      {
        TableAt(previous, crawl, slugOf, now, slug);
      }
    }
  }

  /** It happens: a page read at an old URL is new under slug `b`, then the URL of `b` itself answers missing. */
  lemma NewPageMissingFails(slugOf: SlugOf, row: PageRow, now: nat)
    requires row.slug == "b" && slugOf("/wow/a") == Some("a") && slugOf("/wow/b") == Some("b")
    ensures var crawl := Crawl(
                [CrawledPage("/wow/a", row, "seed")], [Alias("/wow/a", "/wow/b")], ["/wow/b"], None, []);
            Usable(crawl, slugOf) && Merged(None, crawl, slugOf, now).Rejected?
  {
    hide Merged, Usable;
    var crawl := Crawl([CrawledPage("/wow/a", row, "seed")], [Alias("/wow/a", "/wow/b")], ["/wow/b"], None, []);
    assert Usable(crawl, slugOf) by {
      OneRenameUsable(crawl, slugOf);
    }
    assert crawl.pages[0].row.slug == "b" && slugOf(crawl.notFound[0]) == Some("b");
    assert Reads(crawl, slugOf, "b") && Misses(crawl, slugOf, "b");
    MergeSucceedsIff(None, crawl, slugOf, now);
  }

  lemma OneRenameUsable(crawl: Crawl, slugOf: SlugOf)
    requires |crawl.pages| == |crawl.aliases| == |crawl.notFound| == 1
    requires crawl.aliases[0].requested == crawl.pages[0].requestedUrl
    requires slugOf(crawl.aliases[0].requested).Some? && slugOf(crawl.aliases[0].served).Some?
    requires slugOf(crawl.notFound[0]).Some?
    ensures Usable(crawl, slugOf)
  {
    assert crawl.pages[0].requestedUrl == crawl.aliases[0].requested;
  }

  /** Every row of the merged index: gone when missing, refreshed when read, otherwise as it was. */
  lemma MergedRow(previous: Option<Index>, crawl: Crawl, slugOf: SlugOf, now: nat, slug: string)
    requires Merged(previous, crawl, slugOf, now).Ok?
    ensures Touches(crawl, slugOf).Ok?
    ensures var before, after := PagesOf(previous), Merged(previous, crawl, slugOf, now).value.index.pages;
            var writes := TouchesOf(Touches(crawl, slugOf).value, slug);
            && (writes != [] <==> Reads(crawl, slugOf, slug))
            && (slug in after <==> (slug in before || Reads(crawl, slugOf, slug)) && !Misses(crawl, slugOf, slug))
            && (slug in after && !Reads(crawl, slugOf, slug) ==> after[slug] == before[slug])
            && (slug in after && Reads(crawl, slugOf, slug) ==>
                  after[slug] == RowAfter(before, writes, slug, Day(now)))
  {
    hide Touches, Gone, TouchesOf, Written, Remaining, Usable, Reads, Misses, PagesOf, LiveOnes, Dropped, RefreshedAt, Day;
    UsableIff(crawl, slugOf);
    TableAt(previous, crawl, slugOf, now, slug);
  }

  lemma {:induction false} LastTouch(touches: seq<Touch>, slug: string)
    ensures var writes := TouchesOf(touches, slug);
            writes != [] ==> writes[|writes| - 1].fields.slug == slug
  {
    if touches != [] && touches[|touches| - 1].fields.slug != slug {
      LastTouch(touches[..|touches| - 1], slug);
    }
  }

  lemma {:induction false} TouchEnds(touches: seq<Touch>, slug: string) returns (first: nat, last: nat)
    requires TouchesOf(touches, slug) != []
    ensures var writes := TouchesOf(touches, slug);
            && first <= last < |touches|
            && touches[first] == writes[0] && touches[last] == writes[|writes| - 1]
            && touches[first].fields.slug == slug && touches[last].fields.slug == slug
    ensures forall k | 0 <= k < first :: touches[k].fields.slug != slug
    ensures forall k | last < k < |touches| :: touches[k].fields.slug != slug
  {
    var front := touches[..|touches| - 1];
    SomeTouch(front, slug);
    assert forall k | 0 <= k < |front| :: front[k] == touches[k];
    if TouchesOf(front, slug) == [] {
      first, last := |front|, |front|;
    } else {
      first, last := TouchEnds(front, slug);
      if touches[|front|].fields.slug == slug {
        last := |front|;
      }
    }
  }

  ghost predicate Renamed(crawl: Crawl, slugOf: SlugOf, slug: string)
  {
    exists k :: 0 <= k < |crawl.aliases| && slugOf(crawl.aliases[k].requested) == Some(slug)
  }

  /** The row shows the last page read under its slug. */
  ghost predicate ShowsPage(fields: Fields, crawl: Crawl, slug: string)
  {
    exists k :: 0 <= k < |crawl.pages| && crawl.pages[k].row.slug == slug
      && (forall j | k < j < |crawl.pages| :: crawl.pages[j].row.slug != slug)
      && fields == (var row := crawl.pages[k].row;
                    Fields(slug, row.url, row.title, row.published, row.modified, row.parent, Live, None))
  }

  /** The row is a redirect from the last old URL of its slug, and nothing else of a page. */
  ghost predicate ShowsRename(fields: Fields, crawl: Crawl, slugOf: SlugOf, slug: string)
  {
    exists k :: 0 <= k < |crawl.aliases| && slugOf(crawl.aliases[k].requested) == Some(slug)
      && (forall j | k < j < |crawl.aliases| :: slugOf(crawl.aliases[j].requested) != Some(slug))
      && fields == Fields(slug, crawl.aliases[k].requested, None, None, None, None, Redirected, slugOf(crawl.aliases[k].served))
  }

  lemma TouchIs(crawl: Crawl, slugOf: SlugOf, k: nat)
    requires Touches(crawl, slugOf).Ok? && k < |Touches(crawl, slugOf).value|
    ensures var touch, n := Touches(crawl, slugOf).value[k], |crawl.pages|;
            && |Touches(crawl, slugOf).value| == n + |crawl.aliases|
            && (k < n ==> touch == PageTouch(crawl.pages[k]))
            && (k >= n ==>
                  var alias := crawl.aliases[k - n];
                  && slugOf(alias.requested) == Some(touch.fields.slug) && slugOf(alias.served).Some?
                  && touch.fields == Fields(touch.fields.slug, alias.requested, None, None, None, None, Redirected, slugOf(alias.served))
                  && SourceOf(crawl.pages, alias.requested) == Some(touch.source))
  {
    hide AliasTouches, SourceOf;
    if k >= |crawl.pages| {
      assert AliasTouch(crawl.pages, slugOf, crawl.aliases[k - |crawl.pages|]).Ok?;
    }
  }

  /** A row that was read shows the page, or where a rename took its slug, the redirect. */
  lemma ReadRowShows(previous: Option<Index>, crawl: Crawl, slugOf: SlugOf, now: nat, slug: string)
    requires Merged(previous, crawl, slugOf, now).Ok? && Reads(crawl, slugOf, slug)
    requires slug in Merged(previous, crawl, slugOf, now).value.index.pages
    ensures var fields := Merged(previous, crawl, slugOf, now).value.index.pages[slug].fields;
            if Renamed(crawl, slugOf, slug) then ShowsRename(fields, crawl, slugOf, slug)
            else ShowsPage(fields, crawl, slug)
  {
    hide Merged, Touches, TouchesOf;
    MergedRow(previous, crawl, slugOf, now, slug);
    var touches, n := Touches(crawl, slugOf).value, |crawl.pages|;
    var first, last := TouchEnds(touches, slug);
    TouchIs(crawl, slugOf, last);
    if last < n {
      forall j | last < j < n ensures crawl.pages[j].row.slug != slug {
        TouchIs(crawl, slugOf, j);
      }
      forall j | 0 <= j < |crawl.aliases| ensures slugOf(crawl.aliases[j].requested) != Some(slug) {
        AliasTouchIs(crawl, slugOf, j);
      }
      assert ShowsPage(touches[last].fields, crawl, slug);
    } else {
      forall j | last - n < j < |crawl.aliases| ensures slugOf(crawl.aliases[j].requested) != Some(slug) {
        AliasTouchIs(crawl, slugOf, j);
      }
      assert slugOf(crawl.aliases[last - n].requested) == Some(slug);
      assert ShowsRename(touches[last].fields, crawl, slugOf, slug);
    }
  }

  lemma AliasTouchIs(crawl: Crawl, slugOf: SlugOf, j: nat)
    requires Touches(crawl, slugOf).Ok? && j < |crawl.aliases|
    ensures |Touches(crawl, slugOf).value| == |crawl.pages| + |crawl.aliases|
    ensures slugOf(crawl.aliases[j].requested) == Some(Touches(crawl, slugOf).value[|crawl.pages| + j].fields.slug)
  {
    hide Touches;
    TouchCount(crawl, slugOf);
    TouchIs(crawl, slugOf, |crawl.pages| + j);
  }

  lemma TouchCount(crawl: Crawl, slugOf: SlugOf)
    requires Touches(crawl, slugOf).Ok?
    ensures |Touches(crawl, slugOf).value| == |crawl.pages| + |crawl.aliases|
  {
    hide AliasTouches, AliasTouch;
  }

  lemma {:induction false} SourceIsLast(pages: seq<CrawledPage>, url: string) returns (k: nat)
    requires SourceOf(pages, url).Some?
    ensures k < |pages| && pages[k].requestedUrl == url && SourceOf(pages, url) == Some(pages[k].source)
    ensures forall j | k < j < |pages| :: pages[j].requestedUrl != url
  {
    var front := pages[..|pages| - 1];
    assert forall j | 0 <= j < |front| :: front[j] == pages[j];
    if pages[|front|].requestedUrl == url {
      k := |front|;
    } else {
      k := SourceIsLast(front, url);
    }
  }

  /** The source a slug is first known by: that of the first page read under it, else of the page that renamed it. */
  ghost predicate FoundThrough(crawl: Crawl, slugOf: SlugOf, slug: string, k: nat)
  {
    && k < |crawl.pages|
    && if exists j :: 0 <= j < |crawl.pages| && crawl.pages[j].row.slug == slug then
         crawl.pages[k].row.slug == slug && forall j | 0 <= j < k :: crawl.pages[j].row.slug != slug
       else
         && slugOf(crawl.pages[k].requestedUrl) == Some(slug)
         && forall j | k < j < |crawl.pages| :: crawl.pages[j].requestedUrl != crawl.pages[k].requestedUrl
  }

  /** A new row records how its page was found; a known row keeps how it was. */
  lemma ReadRowSource(previous: Option<Index>, crawl: Crawl, slugOf: SlugOf, now: nat, slug: string)
    requires Merged(previous, crawl, slugOf, now).Ok? && Reads(crawl, slugOf, slug)
    requires slug in Merged(previous, crawl, slugOf, now).value.index.pages
    ensures var source := Merged(previous, crawl, slugOf, now).value.index.pages[slug].source;
            if slug in PagesOf(previous) then source == PagesOf(previous)[slug].source
            else exists k: nat :: FoundThrough(crawl, slugOf, slug, k) && source == crawl.pages[k].source
  {
    hide Merged, Touches, TouchesOf, PagesOf;
    MergedRow(previous, crawl, slugOf, now, slug);
    var touches, n := Touches(crawl, slugOf).value, |crawl.pages|;
    var first, last := TouchEnds(touches, slug);
    TouchIs(crawl, slugOf, first);
    forall j | 0 <= j < n && j < first ensures crawl.pages[j].row.slug != slug {
      TouchIs(crawl, slugOf, j);
    }
    if first < n {
      assert crawl.pages[first].row.slug == slug;
      assert FoundThrough(crawl, slugOf, slug, first);
    } else {
      var k := SourceIsLast(crawl.pages, crawl.aliases[first - n].requested);
      assert FoundThrough(crawl, slugOf, slug, k);
    }
  }

  // ---------------------------------------------------------------- sizes and counts

  /** The slugs a crawl reads for the first time. */
  ghost predicate New(previous: Option<Index>, crawl: Crawl, slugOf: SlugOf, slug: string)
  {
    Reads(crawl, slugOf, slug) && slug !in PagesOf(previous)
  }

  lemma {:induction false} DistinctSize(slugs: seq<string>)
    requires Distinct(slugs)
    ensures |set slug | slug in slugs| == |slugs|
  {
    if slugs == [] {
    } else {
      var front, last := slugs[..|slugs| - 1], slugs[|slugs| - 1];
      DistinctSize(front);
      assert (set slug | slug in slugs) == (set slug | slug in front) + {last};
    }
  }

  lemma {:induction false} DroppedSlugs(pages: Pages, gone: seq<string>)
    ensures Distinct(Dropped(pages, gone))
    ensures forall slug :: slug in Dropped(pages, gone) <==> slug in pages && slug in gone
  {
    if gone != [] {
      var front, last := gone[..|gone| - 1], gone[|gone| - 1];
      DroppedSlugs(pages, front);
      assert gone == front + [last];
    }
  }

  lemma {:induction false} LiveSlugs(pages: Pages, added: seq<string>)
    requires Distinct(added) && forall slug | slug in added :: slug in pages
    ensures Distinct(LiveOnes(pages, added))
    ensures forall slug :: slug in LiveOnes(pages, added) <==> slug in added && pages[slug].fields.status == Live
  {
    if added != [] {
      var front, last := added[..|added| - 1], added[|added| - 1];
      assert added == front + [last];
      LiveSlugs(pages, front);
    }
  }

  /** The counts name each slug once: the new slugs that are live pages, and the missing slugs that had a row. */
  lemma CountsAre(previous: Option<Index>, crawl: Crawl, slugOf: SlugOf, now: nat)
    requires Merged(previous, crawl, slugOf, now).Ok?
    ensures var out := Merged(previous, crawl, slugOf, now).value;
            && Distinct(out.live) && Distinct(out.dropped)
            && (forall slug :: slug in out.live <==>
                  New(previous, crawl, slugOf, slug) && slug in out.index.pages
                  && out.index.pages[slug].fields.status == Live)
            && (forall slug :: slug in out.dropped <==>
                  (slug in PagesOf(previous) || Reads(crawl, slugOf, slug)) && Misses(crawl, slugOf, slug))
  {
    hide Touches, Gone, TouchesOf, Written, Remaining, Usable, Reads, Misses, PagesOf, LiveOnes, Dropped, RefreshedAt, Day;
    UsableIff(crawl, slugOf);
    var table := Written(PagesOf(previous), Touches(crawl, slugOf).value, Day(now));
    var gone := Gone(crawl.notFound, slugOf).value;
    var pages := Remaining(table.pages, gone);
    forall slug
      ensures slug in table.added <==> New(previous, crawl, slugOf, slug)
      ensures slug in table.pages <==> slug in PagesOf(previous) || Reads(crawl, slugOf, slug)
      ensures slug in gone <==> Misses(crawl, slugOf, slug)
    {
      TableAt(previous, crawl, slugOf, now, slug);
      GoneIsMissing(crawl, slugOf, slug);
    }
    AddedDistinct(PagesOf(previous), Touches(crawl, slugOf).value, Day(now));
    DroppedSlugs(table.pages, gone);
    LiveSlugs(pages, table.added);
  }

  lemma SizesAdd(before: set<string>, added: set<string>, dropped: set<string>, after: set<string>)
    requires before !! added && dropped <= before + added && after == before + added - dropped
    ensures |after| + |dropped| == |before| + |added|
  {
    assert after + dropped == before + added && after !! dropped;
  }

  /** The index grows by exactly the new slugs and shrinks by exactly the dropped ones. */
  lemma MergeSize(previous: Option<Index>, crawl: Crawl, slugOf: SlugOf, now: nat)
    returns (firstRead: set<string>)
    requires Merged(previous, crawl, slugOf, now).Ok?
    ensures forall slug :: slug in firstRead <==> New(previous, crawl, slugOf, slug)
    ensures var out := Merged(previous, crawl, slugOf, now).value;
            |out.index.pages| + |out.dropped| == |PagesOf(previous)| + |firstRead|
  {
    hide Merged, Reads, Misses, PagesOf, Touches;
    var out := Merged(previous, crawl, slugOf, now).value;
    CountsAre(previous, crawl, slugOf, now);
    forall slug
      ensures slug in out.index.pages <==>
              (slug in PagesOf(previous) || Reads(crawl, slugOf, slug)) && !Misses(crawl, slugOf, slug)
    {
      MergedRow(previous, crawl, slugOf, now, slug);
    }
    var before, after := PagesOf(previous).Keys, out.index.pages.Keys;
    var dropped := set slug | slug in out.dropped;
    DistinctSize(out.dropped);
    firstRead := (after + dropped) - before;
    SizesAdd(before, firstRead, dropped, after);
  }

  // ---------------------------------------------------------------- the saved index

  const INDEX_FORMAT := 1

  /** One element of the saved list of pages; anything that is not a row with a slug is skipped on reading. */
  datatype Entry = PageEntry(row: Row) | Malformed

  datatype Payload = Payload(format: int, refreshedAt: Option<nat>, frontier: seq<string>, pages: seq<Entry>)

  function Entries(pages: Pages, slugs: seq<string>): (entries: seq<Entry>)
    requires forall k | 0 <= k < |slugs| :: slugs[k] in pages
    ensures |entries| == |slugs| && forall k | 0 <= k < |slugs| :: entries[k] == PageEntry(pages[slugs[k]])
  {
    seq(|slugs|, k requires 0 <= k < |slugs| => PageEntry(pages[slugs[k]]))
  }

  function PayloadOf(index: Index): Payload
  {
    var slugs := InSlugOrder(index.pages.Keys);
    assert forall k | 0 <= k < |slugs| :: slugs[k] in index.pages by {
      assert forall k | 0 <= k < |slugs| :: slugs[k] in slugs;
    }
    Payload(INDEX_FORMAT, index.refreshedAt, index.frontier, Entries(index.pages, slugs))
  }

  /** The rows of the saved list by slug; a later row of a slug replaces an earlier one. */
  function RowsBySlug(entries: seq<Entry>): Pages
  {
    if entries == [] then map[]
    else
      var before, last := RowsBySlug(entries[..|entries| - 1]), entries[|entries| - 1];
      if last.PageEntry? then before[last.row.fields.slug := last.row] else before
  }

  function Parse(payload: Payload): Option<Index>
  {
    if payload.format != INDEX_FORMAT then None
    else Some(Index(RowsBySlug(payload.pages), payload.refreshedAt, payload.frontier))
  }

  ghost predicate Keyed(pages: Pages)
  {
    forall slug | slug in pages :: pages[slug].fields.slug == slug
  }

  lemma {:induction false} RowsKeyed(entries: seq<Entry>)
    ensures Keyed(RowsBySlug(entries))
    ensures forall slug | slug in RowsBySlug(entries) ::
              exists k :: 0 <= k < |entries| && entries[k] == PageEntry(RowsBySlug(entries)[slug])
  {
    if entries != [] {
      var front := entries[..|entries| - 1];
      RowsKeyed(front);
      assert forall k | 0 <= k < |front| :: front[k] == entries[k];
      forall slug | slug in RowsBySlug(entries)
        ensures exists k :: 0 <= k < |entries| && entries[k] == PageEntry(RowsBySlug(entries)[slug])
      {
        if entries[|entries| - 1] != PageEntry(RowsBySlug(entries)[slug]) {
          var k :| 0 <= k < |front| && front[k] == PageEntry(RowsBySlug(front)[slug]);
          assert entries[k] == PageEntry(RowsBySlug(entries)[slug]);
        }
      }
    }
  }

  lemma {:induction false} RowsFound(entries: seq<Entry>, k: nat)
    requires k < |entries| && entries[k].PageEntry?
    ensures entries[k].row.fields.slug in RowsBySlug(entries)
  {
    if k < |entries| - 1 {
      assert entries[..|entries| - 1][k] == entries[k];
      RowsFound(entries[..|entries| - 1], k);
    }
  }

  /** Whatever was saved, a loaded index has every row under its own slug. */
  lemma LoadedIsKeyed(payload: Payload)
    requires Parse(payload).Some?
    ensures Keyed(Parse(payload).value.pages)
  {
    RowsKeyed(payload.pages);
  }

  /** Saving then loading gives the index back exactly when every row is under its own slug. */
  lemma SaveLoad(index: Index)
    ensures Parse(PayloadOf(index)) == Some(index) <==> Keyed(index.pages)
    ensures InOrder(InSlugOrder(index.pages.Keys))
  {
    hide InSlugOrder, RowsBySlug;
    var slugs := InSlugOrder(index.pages.Keys);
    var entries := PayloadOf(index).pages;
    var loaded := RowsBySlug(entries);
    RowsKeyed(entries);
    if Keyed(index.pages) {
      forall slug ensures slug in loaded <==> slug in index.pages {
        if slug in index.pages {
          var k :| 0 <= k < |slugs| && slugs[k] == slug;
          assert entries[k] == PageEntry(index.pages[slug]);
          RowsFound(entries, k);
        }
        if slug in loaded {
          var k :| 0 <= k < |entries| && entries[k] == PageEntry(loaded[slug]);
          assert slugs[k] in slugs;
        }
      }
      forall slug | slug in loaded ensures loaded[slug] == index.pages[slug] {
        var k :| 0 <= k < |entries| && entries[k] == PageEntry(loaded[slug]);
        assert slugs[k] in slugs;
      }
      assert loaded == index.pages;
    }
  }

  // ---------------------------------------------------------------- one refresh after another

  datatype Step = Step(crawl: Crawl, now: nat)

  /** One `index-refresh`: a run that read nothing, could not read its seed, or could not be merged saves nothing. */
  function Refresh(index: Option<Index>, step: Step, slugOf: SlugOf): Option<Index>
  {
    if step.crawl.stopReason == Some(SeedFailed) then index
    else
      match Merged(index, step.crawl, slugOf, step.now)
      case Rejected => index
      case Ok(out) => if step.crawl.ReadAnything() then Some(out.index) else index
  }

  function Replay(index: Option<Index>, steps: seq<Step>, slugOf: SlugOf): Option<Index>
  {
    if steps == [] then index
    else Refresh(Replay(index, steps[..|steps| - 1], slugOf), steps[|steps| - 1], slugOf)
  }

  ghost predicate Sound(index: Option<Index>, today: nat)
  {
    forall slug | slug in PagesOf(index) ::
      var row := PagesOf(index)[slug];
      row.fields.slug == slug && row.firstSeen <= row.lastSeen <= today
  }

  ghost predicate ClockRuns(from: nat, steps: seq<Step>)
  {
    && (forall k | 0 <= k < |steps| :: from <= steps[k].now)
    && forall j, k | 0 <= j < k < |steps| :: steps[j].now <= steps[k].now
  }

  function TimeAfter(from: nat, steps: seq<Step>): nat
  {
    if steps == [] then from else steps[|steps| - 1].now
  }

  lemma DayGrows(a: nat, b: nat)
    requires a <= b
    ensures Day(a) <= Day(b)
  {
  }

  lemma MergedSound(index: Option<Index>, step: Step, slugOf: SlugOf, slug: string, today: nat)
    requires Merged(index, step.crawl, slugOf, step.now).Ok? && Sound(index, today) && today <= Day(step.now)
    ensures var after := Merged(index, step.crawl, slugOf, step.now).value.index.pages;
            slug in after ==> after[slug].fields.slug == slug && after[slug].firstSeen <= after[slug].lastSeen <= Day(step.now)
  {
    hide Merged, Touches, TouchesOf, Reads, Misses, PagesOf, Day;
    MergedRow(index, step.crawl, slugOf, step.now, slug);
    LastTouch(Touches(step.crawl, slugOf).value, slug);
  }

  lemma RefreshSound(index: Option<Index>, step: Step, slugOf: SlugOf, today: nat)
    requires Sound(index, today) && today <= Day(step.now)
    ensures Sound(Refresh(index, step, slugOf), Day(step.now))
  {
    hide Merged, Day;
    if Merged(index, step.crawl, slugOf, step.now).Ok? {
      forall slug | slug in Merged(index, step.crawl, slugOf, step.now).value.index.pages
        ensures var row := Merged(index, step.crawl, slugOf, step.now).value.index.pages[slug];
                row.fields.slug == slug && row.firstSeen <= row.lastSeen <= Day(step.now)
      {
        MergedSound(index, step, slugOf, slug, today);
      }
    }
  }

  /** After any run of refreshes every row is under its slug, first seen no later than last seen, none after today. */
  lemma {:induction false} RunsStaySound(index: Option<Index>, steps: seq<Step>, slugOf: SlugOf, from: nat)
    requires Sound(index, Day(from)) && ClockRuns(from, steps)
    ensures Sound(Replay(index, steps, slugOf), Day(TimeAfter(from, steps)))
  {
    hide Sound, Refresh, Day;
    if steps != [] {
      var front, last := steps[..|steps| - 1], steps[|steps| - 1];
      RunsStaySound(index, front, slugOf, from);
      DayGrows(TimeAfter(from, front), last.now);
      RefreshSound(Replay(index, front, slugOf), last, slugOf, Day(TimeAfter(from, front)));
    }
  }

  ghost predicate NeverMissed(steps: seq<Step>, slugOf: SlugOf, slug: string)
  {
    forall k | 0 <= k < |steps| :: !Misses(steps[k].crawl, slugOf, slug)
  }

  ghost predicate NeverRead(steps: seq<Step>, slugOf: SlugOf, slug: string)
  {
    forall k | 0 <= k < |steps| :: !Reads(steps[k].crawl, slugOf, slug)
  }

  ghost predicate Carried(before: Row, after: Row)
  {
    after.source == before.source && after.firstSeen == before.firstSeen
  }

  lemma RefreshCarries(index: Option<Index>, step: Step, slugOf: SlugOf, slug: string)
    requires slug in PagesOf(index) && !Misses(step.crawl, slugOf, slug)
    ensures var after := PagesOf(Refresh(index, step, slugOf));
            && slug in after && Carried(PagesOf(index)[slug], after[slug])
            && (!Reads(step.crawl, slugOf, slug) ==> after[slug] == PagesOf(index)[slug])
  {
    hide Merged, Touches, TouchesOf, Reads, Misses;
    if Merged(index, step.crawl, slugOf, step.now).Ok? {
      MergedRow(index, step.crawl, slugOf, step.now, slug);
    }
  }

  /**
   Over any run of refreshes a page keeps its row's source and first date unless a crawl found it missing,
   and keeps the whole row when no crawl read it either.
   */
  lemma {:induction false} RunsCarry(index: Option<Index>, steps: seq<Step>, slugOf: SlugOf, slug: string)
    requires slug in PagesOf(index) && NeverMissed(steps, slugOf, slug)
    ensures var after := PagesOf(Replay(index, steps, slugOf));
            && slug in after && Carried(PagesOf(index)[slug], after[slug])
            && (NeverRead(steps, slugOf, slug) ==> after[slug] == PagesOf(index)[slug])
  {
    hide Refresh, PagesOf, Reads, Misses;
    if steps != [] {
      var front, last := steps[..|steps| - 1], steps[|steps| - 1];
      assert forall k | 0 <= k < |front| :: front[k] == steps[k];
      RunsCarry(index, front, slugOf, slug);
      RefreshCarries(Replay(index, front, slugOf), last, slugOf, slug);
    }
  }

  /** A run of refreshes that were all blocked or found the site down leaves the index as old as it was. */
  lemma {:induction false} BlockedRunsStayOld(index: Index, steps: seq<Step>, slugOf: SlugOf)
    requires forall k | 0 <= k < |steps| :: steps[k].crawl.stopReason in {Some(Blocked), Some(Unavailable)}
    ensures Replay(Some(index), steps, slugOf).Some?
    ensures Replay(Some(index), steps, slugOf).value.refreshedAt == index.refreshedAt
  {
    if steps != [] {
      hide Touches, Gone, Written, Remaining, LiveOnes, Dropped, PagesOf;
      var front := steps[..|steps| - 1];
      assert forall k | 0 <= k < |front| :: front[k] == steps[k];
      BlockedRunsStayOld(index, front, slugOf);
    }
  }

  /** A run that read something, could be merged, and was not cut short on an existing index. */
  predicate Finishes(index: Option<Index>, step: Step, slugOf: SlugOf)
  {
    && step.crawl.stopReason != Some(SeedFailed)
    && (step.crawl.pages != [] || step.crawl.aliases != [] || step.crawl.notFound != [])
    && Merged(index, step.crawl, slugOf, step.now).Ok?
    && (index.None? || step.crawl.stopReason !in {Some(Blocked), Some(Unavailable)})
  }

  /** The time of the last run that finished; that of the index before when none did. */
  function LastFinished(index: Option<Index>, steps: seq<Step>, slugOf: SlugOf): Option<nat>
  {
    if steps == [] then (if index.Some? then index.value.refreshedAt else None)
    else
      var front, last := steps[..|steps| - 1], steps[|steps| - 1];
      if Finishes(Replay(index, front, slugOf), last, slugOf) then Some(last.now)
      else LastFinished(index, front, slugOf)
  }

  lemma RefreshAge(index: Option<Index>, step: Step, slugOf: SlugOf)
    ensures var after := Refresh(index, step, slugOf);
            && (Finishes(index, step, slugOf) ==> after.Some? && after.value.refreshedAt == Some(step.now))
            && (!Finishes(index, step, slugOf) ==>
                  (after.Some? <==> index.Some?) && (after.Some? ==> after.value.refreshedAt == index.value.refreshedAt))
  {
    hide Touches, Gone, Written, Remaining, LiveOnes, Dropped, PagesOf;
  }

  /** After any run of refreshes the index is dated by the last one that finished, and by nothing else. */
  lemma {:induction false} AgeIsLastFinished(index: Option<Index>, steps: seq<Step>, slugOf: SlugOf)
    requires Replay(index, steps, slugOf).Some?
    ensures Replay(index, steps, slugOf).value.refreshedAt == LastFinished(index, steps, slugOf)
  {
    if steps != [] {
      hide Refresh, Finishes;
      var front, last := steps[..|steps| - 1], steps[|steps| - 1];
      RefreshAge(Replay(index, front, slugOf), last, slugOf);
      if Replay(index, front, slugOf).Some? {
        AgeIsLastFinished(index, front, slugOf);
      }
    }
  }
}
