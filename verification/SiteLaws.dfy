/**
 The site index, said over crawls, rows and saved lists themselves: what a merge leaves of every row, in which
 order it counts, what is saved and loaded, and which runs save at all.
 */
module SiteLaws {
  import opened Wrappers
  import opened Slugs
  import opened SiteIndex

  // ---------------------------------------------------------------- a merged row

  /** The row the index held under the slug, if any. */
  ghost predicate Held(previous: Option<Index>, slug: string, row: Row)
  {
    previous.Some? && slug in previous.value.pages && previous.value.pages[slug] == row
  }

  ghost predicate Unheld(previous: Option<Index>, slug: string)
  {
    previous.None? || slug !in previous.value.pages
  }

  /** The day a second lies in. */
  ghost predicate OnDay(now: nat, day: nat)
  {
    day * 86400 <= now < (day + 1) * 86400
  }

  lemma DayIs(now: nat)
    ensures OnDay(now, Day(now))
  {
  }

  /**
   The row of a slug the crawl read: it shows the rename of its slug or else the page, is dated today, and
   keeps the source and first date it had or records how it was found, and today.
   */
  ghost predicate Refreshed(
      previous: Option<Index>, crawl: Crawl, slugOf: SlugOf, now: nat, slug: string, row: Row)
  {
    && (if Renamed(crawl, slugOf, slug) then ShowsRename(row.fields, crawl, slugOf, slug)
        else ShowsPage(row.fields, crawl, slug))
    && OnDay(now, row.lastSeen)
    && (forall earlier | Held(previous, slug, earlier) ::
          row.source == earlier.source && row.firstSeen == earlier.firstSeen)
    && (Unheld(previous, slug) ==>
          && OnDay(now, row.firstSeen)
          && exists k: nat :: FoundThrough(crawl, slugOf, slug, k) && row.source == crawl.pages[k].source)
  }

  /** Every row of a merged index, its date and its frontier. */
  ghost predicate MergeShows(
      previous: Option<Index>, crawl: Crawl, slugOf: SlugOf, now: nat, index: Index)
  {
    && (forall slug :: slug in index.pages <==>
          (!Unheld(previous, slug) || Reads(crawl, slugOf, slug)) && !Misses(crawl, slugOf, slug))
    && (forall slug | slug in index.pages ::
          if Reads(crawl, slugOf, slug) then Refreshed(previous, crawl, slugOf, now, slug, index.pages[slug])
          else Held(previous, slug, index.pages[slug]))
    && index.refreshedAt == (if previous.Some? && crawl.stopReason in {Some(Blocked), Some(Unavailable)}
                             then previous.value.refreshedAt else Some(now))
    && index.frontier == crawl.frontier
  }

  lemma HeldIs(previous: Option<Index>, slug: string)
    ensures Unheld(previous, slug) <==> slug !in PagesOf(previous)
    ensures forall row :: Held(previous, slug, row) <==> slug in PagesOf(previous) && PagesOf(previous)[slug] == row
  {
  }

  lemma ReadRowDates(previous: Option<Index>, crawl: Crawl, slugOf: SlugOf, now: nat, slug: string)
    requires Merged(previous, crawl, slugOf, now).Ok? && Reads(crawl, slugOf, slug)
    requires slug in Merged(previous, crawl, slugOf, now).value.index.pages
    ensures var row := Merged(previous, crawl, slugOf, now).value.index.pages[slug];
            && row.lastSeen == Day(now)
            && row.firstSeen == if slug in PagesOf(previous) then PagesOf(previous)[slug].firstSeen else Day(now)
  {
    hide Merged, Touches, TouchesOf, Reads, PagesOf, Day;
    MergedRow(previous, crawl, slugOf, now, slug);
  }

  lemma ReadRowIs(previous: Option<Index>, crawl: Crawl, slugOf: SlugOf, now: nat, slug: string)
    requires Merged(previous, crawl, slugOf, now).Ok? && Reads(crawl, slugOf, slug)
    requires slug in Merged(previous, crawl, slugOf, now).value.index.pages
    ensures Refreshed(previous, crawl, slugOf, now, slug, Merged(previous, crawl, slugOf, now).value.index.pages[slug])
  {
    hide Merged, Reads, Renamed, ShowsRename, ShowsPage, FoundThrough, PagesOf, Day, OnDay, Held, Unheld;
    ReadRowShows(previous, crawl, slugOf, now, slug);
    ReadRowSource(previous, crawl, slugOf, now, slug);
    ReadRowDates(previous, crawl, slugOf, now, slug);
    DayIs(now);
    HeldIs(previous, slug);
  }

  /** What a merge that succeeds leaves, whatever the crawl read. */
  lemma MergeIs(previous: Option<Index>, crawl: Crawl, slugOf: SlugOf, now: nat)
    requires Merged(previous, crawl, slugOf, now).Ok?
    ensures MergeShows(previous, crawl, slugOf, now, Merged(previous, crawl, slugOf, now).value.index)
  {
    hide Merged, Reads, Misses, PagesOf, Refreshed, Held, Unheld, Touches, TouchesOf;
    var index := Merged(previous, crawl, slugOf, now).value.index;
    forall slug
      ensures slug in index.pages <==>
              (!Unheld(previous, slug) || Reads(crawl, slugOf, slug)) && !Misses(crawl, slugOf, slug)
      ensures slug in index.pages ==>
                if Reads(crawl, slugOf, slug) then Refreshed(previous, crawl, slugOf, now, slug, index.pages[slug])
                else Held(previous, slug, index.pages[slug])
    {
      HeldIs(previous, slug);
      MergedRow(previous, crawl, slugOf, now, slug);
      if slug in index.pages && Reads(crawl, slugOf, slug) {
        ReadRowIs(previous, crawl, slugOf, now, slug);
      }
    }
    DateAndFrontier(previous, crawl, slugOf, now);
  }

  lemma DateAndFrontier(previous: Option<Index>, crawl: Crawl, slugOf: SlugOf, now: nat)
    requires Merged(previous, crawl, slugOf, now).Ok?
    ensures var index := Merged(previous, crawl, slugOf, now).value.index;
            && index.refreshedAt == (if previous.Some? && crawl.stopReason in {Some(Blocked), Some(Unavailable)}
                                     then previous.value.refreshedAt else Some(now))
            && index.frontier == crawl.frontier
  {
    hide Touches, Gone, Written, Remaining, LiveOnes, Dropped, PagesOf, Day;
  }

  // ---------------------------------------------------------------- the order of the counts

  /** The slug of what the crawl read `k`th: its pages, then its renames. */
  ghost predicate ReadAt(crawl: Crawl, slugOf: SlugOf, k: nat, slug: string)
  {
    var n := |crawl.pages|;
    if k < n then crawl.pages[k].row.slug == slug
    else k < n + |crawl.aliases| && slugOf(crawl.aliases[k - n].requested) == Some(slug)
  }

  ghost predicate FirstReadAt(crawl: Crawl, slugOf: SlugOf, k: nat, slug: string)
  {
    ReadAt(crawl, slugOf, k, slug) && forall j: nat | j < k :: !ReadAt(crawl, slugOf, j, slug)
  }

  ghost predicate FirstMissedAt(crawl: Crawl, slugOf: SlugOf, k: nat, slug: string)
  {
    && k < |crawl.notFound| && slugOf(crawl.notFound[k]) == Some(slug)
    && forall j | 0 <= j < k :: slugOf(crawl.notFound[j]) != Some(slug)
  }

  ghost predicate FirstAt(slugs: seq<string>, k: nat, slug: string)
  {
    k < |slugs| && slugs[k] == slug && forall j | 0 <= j < k :: slugs[j] != slug
  }

  /** The slugs of some come in the order of their first places among all. */
  ghost predicate InPlaceOrder(some: seq<string>, all: seq<string>)
  {
    && (forall slug | slug in some :: slug in all)
    && forall i, j, k, l | 0 <= i < j < |some| && FirstAt(all, k, some[i]) && FirstAt(all, l, some[j]) :: k < l
  }

  lemma FirstAtSnoc(front: seq<string>, last: string, k: nat, slug: string)
    ensures slug in front ==> (FirstAt(front + [last], k, slug) <==> FirstAt(front, k, slug))
    ensures slug !in front ==> (FirstAt(front + [last], k, slug) <==> k == |front| && slug == last)
  {
    var all := front + [last];
    assert forall j | 0 <= j < |front| :: all[j] == front[j];
    if slug in front {
      var i :| 0 <= i < |front| && front[i] == slug;
      assert all[i] == slug;
    } else if FirstAt(all, k, slug) {
      assert k == |front|;
    }
  }

  lemma FirstInside(slugs: seq<string>, k: nat, slug: string)
    ensures FirstAt(slugs, k, slug) ==> k < |slugs| && slug in slugs
  {
  }

  lemma OrderLater(some: seq<string>, front: seq<string>, last: string)
    requires InPlaceOrder(some, front)
    ensures InPlaceOrder(some, front + [last])
    ensures last !in front ==> InPlaceOrder(some + [last], front + [last])
  {
    hide FirstAt;
    var all, longer := front + [last], some + [last];
    forall k: nat, slug
      ensures slug in front ==> (FirstAt(all, k, slug) <==> FirstAt(front, k, slug))
      ensures slug !in front ==> (FirstAt(all, k, slug) <==> k == |front| && slug == last)
      ensures FirstAt(front, k, slug) ==> k < |front|
    {
      FirstAtSnoc(front, last, k, slug);
      FirstInside(front, k, slug);
    }
    forall i | 0 <= i < |some| ensures some[i] in front {
      assert some[i] in some;
    }
    assert forall slug | slug in some :: slug in front && slug in all;
  }

  function SlugsOf(touches: seq<Touch>): (slugs: seq<string>)
    ensures |slugs| == |touches| && forall k | 0 <= k < |slugs| :: slugs[k] == touches[k].fields.slug
  {
    seq(|touches|, k requires 0 <= k < |touches| => touches[k].fields.slug)
  }

  lemma {:induction false} AddedInOrder(before: Pages, touches: seq<Touch>, today: nat)
    ensures InPlaceOrder(Written(before, touches, today).added, SlugsOf(touches))
  {
    hide Written, InPlaceOrder;
    if touches == [] {
      WrittenNothing(before, today);
      NothingInOrder();
      assert SlugsOf(touches) == [];
    } else {
      var front, last := touches[..|touches| - 1], touches[|touches| - 1];
      assert touches == front + [last];
      assert SlugsOf(touches) == SlugsOf(front) + [last.fields.slug];
      AddedInOrder(before, front, today);
      WrittenSnoc(before, front, last, today);
      TouchedIsWritten(before, front, last.fields.slug, today);
      OrderLater(Written(before, front, today).added, SlugsOf(front), last.fields.slug);
    }
  }

  lemma NothingInOrder()
    ensures InPlaceOrder([], [])
  {
  }

  lemma TouchedIsWritten(before: Pages, touches: seq<Touch>, slug: string, today: nat)
    ensures slug in SlugsOf(touches) ==> slug in Written(before, touches, today).pages
  {
    hide Written, TouchesOf;
    if slug in SlugsOf(touches) {
      var k :| 0 <= k < |touches| && SlugsOf(touches)[k] == slug;
      SomeTouch(touches, slug);
      WrittenRows(before, touches, slug, today);
    }
  }

  lemma FrontInOrder(front: seq<string>, last: string, all: seq<string>)
    requires InPlaceOrder(front + [last], all)
    ensures InPlaceOrder(front, all) && last in all
    ensures forall slug, k, l | slug in front && FirstAt(all, k, slug) && FirstAt(all, l, last) :: k < l
  {
    hide FirstAt;
    var some := front + [last];
    assert forall i | 0 <= i < |front| :: some[i] == front[i];
    assert some[|front|] == last;
    forall slug | slug in front ensures slug in some {
    }
    assert last in some;
    forall slug, k, l | slug in front && FirstAt(all, k, slug) && FirstAt(all, l, last) ensures k < l {
      var i :| 0 <= i < |front| && front[i] == slug;
      assert some[i] == slug;
    }
  }

  lemma BackInOrder(kept: seq<string>, front: seq<string>, last: string, all: seq<string>)
    requires InPlaceOrder(kept, all) && last in all && forall slug | slug in kept :: slug in front
    requires forall slug, k, l | slug in front && FirstAt(all, k, slug) && FirstAt(all, l, last) :: k < l
    ensures InPlaceOrder(kept + [last], all)
  {
    hide FirstAt;
    var some := kept + [last];
    assert forall i | 0 <= i < |kept| :: some[i] == kept[i] && kept[i] in kept;
  }

  lemma {:induction false} LiveInOrder(pages: Pages, added: seq<string>, all: seq<string>)
    requires InPlaceOrder(added, all) && forall slug | slug in added :: slug in pages
    ensures InPlaceOrder(LiveOnes(pages, added), all)
    ensures forall slug | slug in LiveOnes(pages, added) :: slug in added
  {
    hide InPlaceOrder;
    if added == [] {
      NoneInOrder(all);
    } else {
      var front, last := added[..|added| - 1], added[|added| - 1];
      assert added == front + [last];
      FrontInOrder(front, last, all);
      LiveInOrder(pages, front, all);
      BackInOrder(LiveOnes(pages, front), front, last, all);
      assert LiveOnes(pages, front) + [] == LiveOnes(pages, front);
    }
  }

  lemma NoneInOrder(all: seq<string>)
    ensures InPlaceOrder([], all)
  {
  }

  lemma {:induction false} DroppedInOrder(pages: Pages, gone: seq<string>)
    ensures InPlaceOrder(Dropped(pages, gone), gone)
  {
    hide InPlaceOrder;
    if gone == [] {
      NothingInOrder();
    } else {
      var front, last := gone[..|gone| - 1], gone[|gone| - 1];
      assert gone == front + [last];
      DroppedInOrder(pages, front);
      OrderLater(Dropped(pages, front), front, last);
      assert Dropped(pages, front) + [] == Dropped(pages, front);
    }
  }

  lemma ReadAtIs(crawl: Crawl, slugOf: SlugOf, k: nat, slug: string)
    requires Touches(crawl, slugOf).Ok?
    ensures var slugs := SlugsOf(Touches(crawl, slugOf).value);
            ReadAt(crawl, slugOf, k, slug) <==> k < |slugs| && slugs[k] == slug
  {
    hide Touches;
    TouchCount(crawl, slugOf);
    if k < |Touches(crawl, slugOf).value| {
      TouchIs(crawl, slugOf, k);
    }
  }

  lemma FirstReadIs(crawl: Crawl, slugOf: SlugOf, k: nat, slug: string)
    requires Touches(crawl, slugOf).Ok? && FirstReadAt(crawl, slugOf, k, slug)
    ensures FirstAt(SlugsOf(Touches(crawl, slugOf).value), k, slug)
  {
    hide Touches, ReadAt;
    var slugs := SlugsOf(Touches(crawl, slugOf).value);
    ReadAtIs(crawl, slugOf, k, slug);
    forall j: nat | j < k ensures slugs[j] != slug {
      ReadAtIs(crawl, slugOf, j, slug);
    }
  }

  lemma FirstMissedIs(crawl: Crawl, slugOf: SlugOf, k: nat, slug: string)
    requires Gone(crawl.notFound, slugOf).Ok? && FirstMissedAt(crawl, slugOf, k, slug)
    ensures FirstAt(Gone(crawl.notFound, slugOf).value, k, slug)
  {
    hide Gone;
    var gone := Gone(crawl.notFound, slugOf).value;
    assert slugOf(crawl.notFound[k]) == Some(gone[k]);
    assert forall j | 0 <= j < k :: slugOf(crawl.notFound[j]) == Some(gone[j]);
  }

  /** The new slugs are counted in the order they were first read, the dropped ones in the order first found missing. */
  lemma CountsInOrder(previous: Option<Index>, crawl: Crawl, slugOf: SlugOf, now: nat)
    requires Merged(previous, crawl, slugOf, now).Ok?
    ensures var live := Merged(previous, crawl, slugOf, now).value.live;
            var dropped := Merged(previous, crawl, slugOf, now).value.dropped;
            && (forall i, j, k, l | 0 <= i < j < |live| && FirstReadAt(crawl, slugOf, k, live[i])
                                    && FirstReadAt(crawl, slugOf, l, live[j]) :: k < l)
            && (forall i, j, k, l | 0 <= i < j < |dropped| && FirstMissedAt(crawl, slugOf, k, dropped[i])
                                    && FirstMissedAt(crawl, slugOf, l, dropped[j]) :: k < l)
  {
    hide Touches, Gone, Written, Remaining, LiveOnes, Dropped, PagesOf, Day, RefreshedAt, FirstAt, FirstReadAt, FirstMissedAt;
    var touches, gone := Touches(crawl, slugOf).value, Gone(crawl.notFound, slugOf).value;
    var table := Written(PagesOf(previous), touches, Day(now));
    var pages := Remaining(table.pages, gone);
    AddedInOrder(PagesOf(previous), touches, Day(now));
    LiveInOrder(pages, table.added, SlugsOf(touches));
    DroppedInOrder(table.pages, gone);
    forall k, slug | FirstReadAt(crawl, slugOf, k, slug) ensures FirstAt(SlugsOf(touches), k, slug) {
      FirstReadIs(crawl, slugOf, k, slug);
    }
    forall k, slug | FirstMissedAt(crawl, slugOf, k, slug) ensures FirstAt(gone, k, slug) {
      FirstMissedIs(crawl, slugOf, k, slug);
    }
  }

  // ---------------------------------------------------------------- the saved list

  /** In code-point order one slug comes before another: it is its beginning, or smaller where they first differ. */
  ghost predicate Smaller(a: string, b: string)
  {
    exists n: nat :: FirstDiffer(a, b, n)
  }

  ghost predicate FirstDiffer(a: string, b: string, n: nat)
  {
    n <= |a| && n < |b| && a[..n] == b[..n] && (n < |a| ==> a[n] < b[n])
  }

  lemma {:induction false} BeforeIs(a: string, b: string)
    ensures Before(a, b) <==> Smaller(a, b)
  {
    hide FirstDiffer;
    if a == "" || b == "" || a[0] != b[0] {
      DifferAtOnce(a, b);
    } else {
      BeforeIs(a[1..], b[1..]);
      if n: nat :| FirstDiffer(a[1..], b[1..], n) {
        DifferLater(a, b, n + 1);
      }
      if n: nat :| FirstDiffer(a, b, n) {
        DifferSoon(a, b, n);
        DifferLater(a, b, n);
      }
    }
  }

  lemma SharedStart(a: string, b: string, n: nat)
    ensures n > 0 && FirstDiffer(a, b, n) ==> a != "" && b != "" && a[0] == b[0]
  {
    if n > 0 && FirstDiffer(a, b, n) {
      assert a[..n][0] == a[0] && b[..n][0] == b[0];
    }
  }

  lemma DifferAtOnce(a: string, b: string)
    requires a == "" || b == "" || a[0] != b[0]
    ensures forall n: nat | n > 0 :: !FirstDiffer(a, b, n)
    ensures FirstDiffer(a, b, 0) <==> b != "" && (a == "" || a[0] < b[0])
  {
    forall n: nat | n > 0 ensures !FirstDiffer(a, b, n) {
      SharedStart(a, b, n);
    }
  }

  lemma DifferSoon(a: string, b: string, n: nat)
    requires a != "" && b != "" && a[0] == b[0] && FirstDiffer(a, b, n)
    ensures n > 0
  {
  }

  lemma DifferLater(a: string, b: string, n: nat)
    requires a != "" && b != "" && a[0] == b[0] && n > 0
    ensures FirstDiffer(a, b, n) <==> FirstDiffer(a[1..], b[1..], n - 1)
  {
    if n <= |a| && n <= |b| {
      assert a[..n] == [a[0]] + a[1..][..n - 1];
      assert b[..n] == [b[0]] + b[1..][..n - 1];
      assert a[..n][1..] == a[1..][..n - 1];
      assert b[..n][1..] == b[1..][..n - 1];
    }
  }

  /** Format 1, the date and the frontier, and every row once, by slug in code-point order. */
  ghost predicate SavedAs(index: Index, payload: Payload, slugs: seq<string>)
  {
    && payload.format == 1 && payload.refreshedAt == index.refreshedAt && payload.frontier == index.frontier
    && |payload.pages| == |slugs|
    && (forall i, j | 0 <= i < j < |slugs| :: Smaller(slugs[i], slugs[j]))
    && (forall slug :: slug in slugs <==> slug in index.pages)
    && forall k | 0 <= k < |slugs| && slugs[k] in index.pages :: payload.pages[k] == PageEntry(index.pages[slugs[k]])
  }

  lemma PayloadIs(index: Index)
    ensures exists slugs :: SavedAs(index, PayloadOf(index), slugs)
  {
    hide InSlugOrder, Before, Smaller;
    var slugs := InSlugOrder(index.pages.Keys);
    forall i, j | 0 <= i < j < |slugs| ensures Smaller(slugs[i], slugs[j]) {
      BeforeIs(slugs[i], slugs[j]);
    }
    assert SavedAs(index, PayloadOf(index), slugs);
  }

  /** Row `k` of the list is the last under its slug. */
  ghost predicate LastRow(entries: seq<Entry>, k: nat, slug: string)
  {
    && k < |entries| && entries[k].PageEntry? && entries[k].row.fields.slug == slug
    && forall j | k < j < |entries| && entries[j].PageEntry? :: entries[j].row.fields.slug != slug
  }

  lemma LastRowSnoc(front: seq<Entry>, last: Entry, k: nat, slug: string)
    ensures LastRow(front + [last], k, slug) <==>
            if last.PageEntry? && last.row.fields.slug == slug then k == |front| else LastRow(front, k, slug)
  {
    var entries := front + [last];
    assert forall j | 0 <= j < |front| :: entries[j] == front[j];
    assert entries[|front|] == last;
    if LastRow(front, k, slug) && !(last.PageEntry? && last.row.fields.slug == slug) {
      assert entries[k] == front[k];
    }
  }

  lemma {:induction false} RowsAreLast(entries: seq<Entry>, slug: string)
    ensures slug in RowsBySlug(entries) <==> exists k: nat :: LastRow(entries, k, slug)
    ensures forall k: nat | LastRow(entries, k, slug) ::
              k < |entries| && entries[k].PageEntry? && slug in RowsBySlug(entries)
              && RowsBySlug(entries)[slug] == entries[k].row
  {
    hide LastRow;
    if entries == [] {
      NoLastRow(slug);
    } else {
      var front, last := entries[..|entries| - 1], entries[|entries| - 1];
      assert entries == front + [last];
      RowsAreLast(front, slug);
      forall k: nat
        ensures LastRow(entries, k, slug) <==>
                if last.PageEntry? && last.row.fields.slug == slug then k == |front| else LastRow(front, k, slug)
      {
        LastRowSnoc(front, last, k, slug);
      }
      if last.PageEntry? && last.row.fields.slug == slug {
        assert LastRow(entries, |front|, slug);
      } else {
        assert forall k: nat | k < |front| :: entries[k] == front[k];
        assert slug in RowsBySlug(entries) <==> slug in RowsBySlug(front);
        if k: nat :| LastRow(front, k, slug) {
          assert LastRow(entries, k, slug);
        }
      }
    }
  }

  lemma NoLastRow(slug: string)
    ensures RowsBySlug([]) == map[] && forall k: nat :: !LastRow([], k, slug)
  {
  }

  /** Any saved list loads when its format is 1, with the last row of every slug, its date and its frontier. */
  lemma ParseIs(payload: Payload)
    ensures Parse(payload).Some? <==> payload.format == 1
    ensures Parse(payload).Some? ==>
              var index := Parse(payload).value;
              && index.refreshedAt == payload.refreshedAt && index.frontier == payload.frontier
              && forall slug ::
                   && (slug in index.pages <==> exists k: nat :: LastRow(payload.pages, k, slug))
                   && forall k: nat | LastRow(payload.pages, k, slug) ::
                        slug in index.pages && payload.pages[k] == PageEntry(index.pages[slug])
  {
    hide RowsBySlug, LastRow;
    forall slug
      ensures slug in RowsBySlug(payload.pages) <==> exists k: nat :: LastRow(payload.pages, k, slug)
      ensures forall k: nat | LastRow(payload.pages, k, slug) ::
                k < |payload.pages| && slug in RowsBySlug(payload.pages)
                && payload.pages[k] == PageEntry(RowsBySlug(payload.pages)[slug])
    {
      RowsAreLast(payload.pages, slug);
    }
  }

  // ---------------------------------------------------------------- which runs save

  /** A run saves the merged index exactly when its seed was read, it could be merged, and it read anything at all. */
  lemma RefreshIs(index: Option<Index>, step: Step, slugOf: SlugOf)
    ensures var crawl, merged := step.crawl, Merged(index, step.crawl, slugOf, step.now);
            Refresh(index, step, slugOf) ==
            if merged.Ok? && crawl.stopReason != Some(SeedFailed)
               && !(crawl.pages == [] && crawl.aliases == [] && crawl.notFound == [])
            then Some(merged.value.index) else index
  {
    hide Merged;
  }
}
