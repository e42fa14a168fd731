/** The auction view: per item its listings, units, cheapest price and unit-weighted median price. */
module AuctionMedian {
  import opened Wrappers

  // ---------------------------------------------------------------- the unit-weighted median

  /** A priced listing: the price of one unit and how many units are offered. */
  datatype Listing = Listing(price: int, units: nat)

  /** Python's order on (price, units) tuples. */
  predicate NotAfter(a: Listing, b: Listing)
  {
    a.price < b.price || (a.price == b.price && a.units <= b.units)
  }

  function Insert(listing: Listing, sorted: seq<Listing>): (longer: seq<Listing>)
    ensures multiset(longer) == multiset(sorted) + multiset{listing}
  {
    if sorted == [] || NotAfter(listing, sorted[0]) then [listing] + sorted
    else
      assert sorted == [sorted[0]] + sorted[1..];
      [sorted[0]] + Insert(listing, sorted[1..])
  }

  function SortListings(listings: seq<Listing>): (sorted: seq<Listing>)
    ensures multiset(sorted) == multiset(listings) && |sorted| == |listings|
  {
    if listings == [] then []
    else
      assert listings == [listings[0]] + listings[1..];
      var sorted := Insert(listings[0], SortListings(listings[1..]));
      assert multiset(sorted) == multiset(listings);
      assert |multiset(sorted)| == |multiset(listings)|;
      sorted
  }

  ghost predicate PriceOrder(listings: seq<Listing>)
  {
    forall i, j | 0 <= i < j < |listings| :: listings[i].price <= listings[j].price
  }

  lemma {:induction false} InsertBound(listing: Listing, sorted: seq<Listing>, floor: int)
    requires floor <= listing.price && forall k | 0 <= k < |sorted| :: floor <= sorted[k].price
    ensures forall k | 0 <= k < |Insert(listing, sorted)| :: floor <= Insert(listing, sorted)[k].price
  {
    if sorted != [] && !NotAfter(listing, sorted[0]) {
      InsertBound(listing, sorted[1..], floor);
    }
  }

  lemma {:induction false} InsertKeepsOrder(listing: Listing, sorted: seq<Listing>)
    requires PriceOrder(sorted)
    ensures PriceOrder(Insert(listing, sorted))
  {
    if sorted != [] && !NotAfter(listing, sorted[0]) {
      InsertKeepsOrder(listing, sorted[1..]);
      InsertBound(listing, sorted[1..], sorted[0].price);
    }
  }

  lemma {:induction false} SortOrders(listings: seq<Listing>)
    ensures PriceOrder(SortListings(listings))
  {
    if listings != [] {
      SortOrders(listings[1..]);
      InsertKeepsOrder(listings[0], SortListings(listings[1..]));
    }
  }

  /** The units of the listings a price test lets through. */
  function Units(listings: seq<Listing>, admits: int -> bool): nat
  {
    if listings == [] then 0
    else
      var last := listings[|listings| - 1];
      Units(listings[..|listings| - 1], admits) + if admits(last.price) then last.units else 0
  }

  function AnyPrice(): int -> bool
  {
    price => true
  }

  function UpTo(top: int): int -> bool
  {
    price => price <= top
  }

  function Below(top: int): int -> bool
  {
    price => price < top
  }

  lemma UnitsSnoc(front: seq<Listing>, last: Listing, admits: int -> bool)
    ensures Units(front + [last], admits) == Units(front, admits) + if admits(last.price) then last.units else 0
  {
    assert (front + [last])[..|front|] == front;
  }

  function Without<T>(items: seq<T>, k: nat): (rest: seq<T>)
    requires k < |items|
    ensures |rest| == |items| - 1
  {
    items[..k] + items[k + 1..]
  }

  lemma WithoutSnoc<T>(front: seq<T>, last: T, k: nat)
    requires k <= |front|
    ensures Without(front + [last], k) == if k < |front| then Without(front, k) + [last] else front
  {
    assert k == |front| ==> Without(front + [last], k) == front;
  }

  lemma WithoutFirst<T>(items: seq<T>)
    requires items != []
    ensures Without(items, 0) == items[1..]
  {
  }

  lemma {:induction false} UnitsRemove(listings: seq<Listing>, k: nat, admits: int -> bool)
    requires k < |listings|
    ensures Units(listings, admits) ==
            Units(Without(listings, k), admits) + if admits(listings[k].price) then listings[k].units else 0
  {
    hide Units, Without;
    var front, last := listings[..|listings| - 1], listings[|listings| - 1];
    assert listings == front + [last];
    UnitsSnoc(front, last, admits);
    WithoutSnoc(front, last, k);
    if k < |front| {
      UnitsRemove(front, k, admits);
      UnitsSnoc(Without(front, k), last, admits);
    }
  }

  lemma MultisetWithout<T>(items: seq<T>, k: nat)
    requires k < |items|
    ensures multiset(items) == multiset(Without(items, k)) + multiset{items[k]}
  {
    assert items == items[..k] + [items[k]] + items[k + 1..];
  }

  lemma Cancel<T>(m: multiset<T>, n: multiset<T>, x: T)
    requires m + multiset{x} == n + multiset{x}
    ensures m == n
  {
    assert m == (m + multiset{x}) - multiset{x};
    assert n == (n + multiset{x}) - multiset{x};
  }

  /** Equal but for order: the first item of one is somewhere in the other, and the rest are again equal but for order. */
  lemma Match<T>(a: seq<T>, b: seq<T>) returns (k: nat)
    requires a != [] && multiset(a) == multiset(b)
    ensures k < |b| && b[k] == a[0] && a == [a[0]] + a[1..]
    ensures multiset(a[1..]) == multiset(Without(b, k))
  {
    hide Without;
    assert a == [a[0]] + a[1..];
    assert a[0] in multiset(b);
    k :| 0 <= k < |b| && b[k] == a[0];
    MultisetWithout(b, k);
    assert multiset(a) == multiset(a[1..]) + multiset{a[0]};
    Cancel(multiset(a[1..]), multiset(Without(b, k)), a[0]);
  }

  lemma NothingPermuted<T>(a: seq<T>, b: seq<T>)
    requires a == [] && multiset(a) == multiset(b)
    ensures a == b
  {
    assert |multiset(b)| == 0;
  }

  /** Units do not depend on the order of the listings. */
  lemma {:induction false} UnitsOfPermutation(a: seq<Listing>, b: seq<Listing>, admits: int -> bool)
    requires multiset(a) == multiset(b)
    ensures Units(a, admits) == Units(b, admits)
  {
    hide Units, Without;
    if a == [] {
      NothingPermuted(a, b);
    } else {
      var k := Match(a, b);
      UnitsRemove(a, 0, admits);
      WithoutFirst(a);
      UnitsRemove(b, k, admits);
      UnitsOfPermutation(a[1..], Without(b, k), admits);
    }
  }

  lemma {:induction false} UnitsWithin(listings: seq<Listing>, few: int -> bool, many: int -> bool)
    requires forall price | few(price) :: many(price)
    ensures Units(listings, few) <= Units(listings, many)
  {
    if listings != [] {
      UnitsWithin(listings[..|listings| - 1], few, many);
    }
  }

  /** A listed price at which half the units are available, while below it fewer than half are. */
  ghost predicate IsMedian(listings: seq<Listing>, price: int)
  {
    var total := Units(listings, AnyPrice());
    && (exists k :: 0 <= k < |listings| && listings[k].price == price)
    && 2 * Units(listings, UpTo(price)) >= total
    && 2 * Units(listings, Below(price)) < total
  }

  ghost predicate IsMin(listings: seq<Listing>, price: int)
  {
    && (exists k :: 0 <= k < |listings| && listings[k].price == price)
    && forall k | 0 <= k < |listings| :: price <= listings[k].price
  }

  /** The median is the least listed price at which half the units are available. */
  lemma MedianIsLeast(listings: seq<Listing>, price: int, other: int)
    requires IsMedian(listings, price) && 2 * Units(listings, UpTo(other)) >= Units(listings, AnyPrice())
    ensures price <= other
  {
    if other < price {
      UnitsWithin(listings, UpTo(other), Below(price));
    }
  }

  /** The median depends on the listings, not on their order. */
  lemma MedianOfPermutation(a: seq<Listing>, b: seq<Listing>, price: int, other: int)
    requires multiset(a) == multiset(b) && IsMedian(a, price) && IsMedian(b, other)
    ensures price == other
  {
    UnitsOfPermutation(a, b, AnyPrice());
    UnitsOfPermutation(a, b, UpTo(price));
    UnitsOfPermutation(a, b, UpTo(other));
    MedianIsLeast(a, price, other);
    MedianIsLeast(b, other, price);
  }

  ghost predicate Positive(listings: seq<Listing>)
  {
    forall k | 0 <= k < |listings| :: listings[k].units > 0
  }

  /** In price order the units seen so far bound the units up to and below the current price. */
  lemma {:induction false} SeenBounds(sorted: seq<Listing>, k: nat)
    requires PriceOrder(sorted) && k < |sorted|
    ensures Units(sorted[..k + 1], AnyPrice()) <= Units(sorted, UpTo(sorted[k].price))
    ensures Units(sorted, Below(sorted[k].price)) <= Units(sorted[..k], AnyPrice())
  {
    hide Units;
    var top := sorted[k].price;
    SplitUnits(sorted, k + 1, UpTo(top));
    AllAdmitted(sorted[..k + 1], UpTo(top));
    SplitUnits(sorted, k, Below(top));
    NoneAdmitted(sorted[k..], Below(top));
    UnitsWithin(sorted[..k], Below(top), AnyPrice());
  }

  lemma {:induction false} SplitUnits(listings: seq<Listing>, k: nat, admits: int -> bool)
    requires k <= |listings|
    ensures Units(listings, admits) == Units(listings[..k], admits) + Units(listings[k..], admits)
  {
    if k == |listings| {
      assert listings[..k] == listings;
    } else {
      hide Units;
      var front, last := listings[..|listings| - 1], listings[|listings| - 1];
      SplitUnits(front, k, admits);
      assert listings == front + [last] && listings[k..] == front[k..] + [last] && listings[..k] == front[..k];
      UnitsSnoc(front, last, admits);
      UnitsSnoc(front[k..], last, admits);
    }
  }

  lemma {:induction false} AllAdmitted(listings: seq<Listing>, admits: int -> bool)
    requires forall k | 0 <= k < |listings| :: admits(listings[k].price)
    ensures Units(listings, admits) == Units(listings, AnyPrice())
  {
    if listings != [] {
      AllAdmitted(listings[..|listings| - 1], admits);
    }
  }

  lemma {:induction false} NoneAdmitted(listings: seq<Listing>, admits: int -> bool)
    requires forall k | 0 <= k < |listings| :: !admits(listings[k].price)
    ensures Units(listings, admits) == 0
  {
    if listings != [] {
      NoneAdmitted(listings[..|listings| - 1], admits);
    }
  }

  lemma SortedMedian(listings: seq<Listing>, sorted: seq<Listing>, k: nat)
    requires multiset(sorted) == multiset(listings) && PriceOrder(sorted) && k < |sorted|
    requires 2 * Units(sorted[..k], AnyPrice()) < Units(sorted, AnyPrice()) <= 2 * Units(sorted[..k + 1], AnyPrice())
    ensures IsMedian(listings, sorted[k].price)
  {
    hide Units;
    var price := sorted[k].price;
    SeenBounds(sorted, k);
    UnitsOfPermutation(sorted, listings, AnyPrice());
    UnitsOfPermutation(sorted, listings, UpTo(price));
    UnitsOfPermutation(sorted, listings, Below(price));
    assert sorted[k] in multiset(listings);
  }

  /**
   The loop always returns inside: the last listing reaches the whole total, so no fallback is needed. When
   nothing at all is offered it returns the lowest price.
   */
  method UnitWeightedMedian(listings: seq<Listing>) returns (median: int)
    requires listings != []
    ensures Units(listings, AnyPrice()) > 0 ==> IsMedian(listings, median)
    ensures Units(listings, AnyPrice()) == 0 ==> IsMin(listings, median)
  {
    hide Units, SortListings, IsMin;
    var sorted := SortListings(listings);
    SortOrders(listings);
    var total := TotalUnits(sorted);
    assert sorted[..|sorted|] == sorted && sorted[..0] == [];
    NoUnits(AnyPrice());
    UnitsOfPermutation(sorted, listings, AnyPrice());
    var seen := 0;
    for k := 0 to |sorted|
      invariant seen == Units(sorted[..k], AnyPrice()) && (k == 0 || 2 * seen < total)
    {
      assert sorted[..k + 1] == sorted[..k] + [sorted[k]];
      UnitsSnoc(sorted[..k], sorted[k], AnyPrice());
      seen := seen + sorted[k].units;
      if 2 * seen >= total {
        if total > 0 {
          SortedMedian(listings, sorted, k);
        } else {
          FirstIsMin(listings, sorted);
        }
        return sorted[k].price;
      }
    }
    assert false;
    median := 0;
  }

  lemma FirstIsMin(listings: seq<Listing>, sorted: seq<Listing>)
    requires sorted != [] && multiset(sorted) == multiset(listings) && PriceOrder(sorted)
    ensures IsMin(listings, sorted[0].price)
  {
    assert sorted[0] in multiset(listings);
    forall k | 0 <= k < |listings| ensures sorted[0].price <= listings[k].price {
      assert listings[k] in multiset(sorted);
    }
  }

  lemma NoUnits(admits: int -> bool)
    ensures Units([], admits) == 0
  {
  }

  /** Listings that each offer something offer something together. */
  lemma SomeUnits(listings: seq<Listing>)
    requires listings != [] && Positive(listings)
    ensures Units(listings, AnyPrice()) > 0
  {
    assert listings[|listings| - 1].units > 0;
  }

  method TotalUnits(listings: seq<Listing>) returns (total: nat)
    ensures total == Units(listings, AnyPrice())
  {
    hide Units;
    total := 0;
    assert listings[..|listings|] == listings && listings[..0] == [];
    NoUnits(AnyPrice());
    for k := 0 to |listings|
      invariant total == Units(listings[..k], AnyPrice())
    {
      assert listings[..k + 1] == listings[..k] + [listings[k]];
      UnitsSnoc(listings[..k], listings[k], AnyPrice());
      total := total + listings[k].units;
    }
  }

  // ---------------------------------------------------------------- the view

  /** An auction; a field that is missing or not an integer is `None`. */
  datatype Auction = Auction(
    itemId: Option<int>, quantity: Option<int>, unitPrice: Option<int>, buyout: Option<int>)
  {
    /** A missing or unusable quantity counts as one unit. */
    function Offered(): (units: nat)
      ensures units > 0
    {
      if quantity.Some? && quantity.value > 0 then quantity.value else 1
    }

    /** The price of one unit: given for a commodity, else the buyout shared out, rounded down. */
    function UnitPrice(): Option<int>
    {
      if unitPrice.Some? then unitPrice
      else if buyout.Some? && quantity.Some? && quantity.value > 0 then Some(buyout.value / quantity.value)
      else None
    }

    predicate Of(id: int)
    {
      itemId == Some(id)
    }
  }

  function ListingCount(auctions: seq<Auction>, id: int): nat
  {
    if auctions == [] then 0
    else ListingCount(auctions[..|auctions| - 1], id) + if auctions[|auctions| - 1].Of(id) then 1 else 0
  }

  function UnitCount(auctions: seq<Auction>, id: int): nat
  {
    if auctions == [] then 0
    else
      var last := auctions[|auctions| - 1];
      UnitCount(auctions[..|auctions| - 1], id) + if last.Of(id) then last.Offered() else 0
  }

  /** The priced listings of an item, in order. */
  function Priced(auctions: seq<Auction>, id: int): (listings: seq<Listing>)
    ensures Positive(listings)
  {
    if auctions == [] then []
    else
      var before, last := Priced(auctions[..|auctions| - 1], id), auctions[|auctions| - 1];
      if last.Of(id) && last.UnitPrice().Some? then before + [Listing(last.UnitPrice().value, last.Offered())] else before
  }

  lemma ItemSnoc(front: seq<Auction>, last: Auction, id: int)
    ensures ListingCount(front + [last], id) == ListingCount(front, id) + if last.Of(id) then 1 else 0
    ensures UnitCount(front + [last], id) == UnitCount(front, id) + if last.Of(id) then last.Offered() else 0
    ensures Priced(front + [last], id) ==
            if last.Of(id) && last.UnitPrice().Some?
            then Priced(front, id) + [Listing(last.UnitPrice().value, last.Offered())] else Priced(front, id)
  {
    assert (front + [last])[..|front|] == front;
  }

  datatype Item = Item(id: int, auctions: nat, quantity: nat, minPrice: Option<int>, medianPrice: Option<int>)

  /** A row tells the truth about its item; an item nobody prices has no prices. */
  ghost predicate Describes(item: Item, auctions: seq<Auction>)
  {
    var priced := Priced(auctions, item.id);
    && item.auctions == ListingCount(auctions, item.id)
    && item.quantity == UnitCount(auctions, item.id)
    && (if priced == [] then item.minPrice == None && item.medianPrice == None
        else item.minPrice.Some? && item.medianPrice.Some?
             && IsMin(priced, item.minPrice.value) && IsMedian(priced, item.medianPrice.value))
  }

  /** Most listed first, then by id. */
  predicate RowBefore(a: Item, b: Item)
  {
    a.auctions > b.auctions || (a.auctions == b.auctions && a.id < b.id)
  }

  ghost predicate RowOrder(items: seq<Item>)
  {
    forall i, j | 0 <= i < j < |items| ::
      items[i].auctions > items[j].auctions || (items[i].auctions == items[j].auctions && items[i].id < items[j].id)
  }

  ghost predicate HasRow(items: seq<Item>, id: int)
  {
    exists k :: 0 <= k < |items| && items[k].id == id
  }

  /** The view: a truthful row for every listed item and for nothing else, in order. */
  ghost predicate IsView(items: seq<Item>, auctions: seq<Auction>)
  {
    && RowOrder(items)
    && (forall id :: HasRow(items, id) <==> ListingCount(auctions, id) > 0)
    && forall k | 0 <= k < |items| :: Describes(items[k], auctions)
  }

  function InsertRow(item: Item, items: seq<Item>): seq<Item>
  {
    if items == [] || RowBefore(item, items[0]) then [item] + items else [items[0]] + InsertRow(item, items[1..])
  }

  lemma {:induction false} InsertRowMembers(item: Item, items: seq<Item>)
    ensures forall row :: row in InsertRow(item, items) <==> row == item || row in items
  {
    if items != [] && !RowBefore(item, items[0]) {
      InsertRowMembers(item, items[1..]);
      assert items == [items[0]] + items[1..];
    }
  }

  lemma {:induction false} InsertRowOrder(item: Item, items: seq<Item>)
    requires RowOrder(items) && forall k | 0 <= k < |items| :: items[k].id != item.id
    ensures RowOrder(InsertRow(item, items))
  {
    if items != [] && !RowBefore(item, items[0]) {
      InsertRowOrder(item, items[1..]);
      InsertRowMembers(item, items[1..]);
      var rest := InsertRow(item, items[1..]);
      forall k | 0 <= k < |rest| ensures RowBefore(items[0], rest[k]) {
        assert rest[k] in rest;
      }
    }
  }

  /** The counts per item so far; `ids` is the order the items were first seen in. */
  datatype Tally = Tally(ids: seq<int>, listings: map<int, nat>, units: map<int, nat>, prices: map<int, seq<Listing>>)

  /** A default dictionary's value: what is there, else the default. */
  function At<V>(counts: map<int, V>, id: int, default: V): V
  {
    if id in counts then counts[id] else default
  }

  function Added(tally: Tally, auction: Auction): Tally
  {
    if auction.itemId.None? then tally
    else
      var id, quantity, price := auction.itemId.value, auction.Offered(), auction.UnitPrice();
      Tally(
        if id in tally.listings then tally.ids else tally.ids + [id],
        tally.listings[id := At(tally.listings, id, 0) + 1],
        tally.units[id := At(tally.units, id, 0) + quantity],
        if price.None? then tally.prices
        else tally.prices[id := At(tally.prices, id, []) + [Listing(price.value, quantity)]])
  }

  ghost predicate Distinct(ids: seq<int>)
  {
    forall i, j | 0 <= i < j < |ids| :: ids[i] != ids[j]
  }

  /** What a tally says of an item is what the auctions say. */
  ghost predicate TallyAt(tally: Tally, auctions: seq<Auction>, id: int)
  {
    && (id in tally.ids <==> id in tally.listings) && (id in tally.listings <==> ListingCount(auctions, id) > 0)
    && At(tally.listings, id, 0) == ListingCount(auctions, id)
    && (id in tally.units <==> id in tally.listings) && At(tally.units, id, 0) == UnitCount(auctions, id)
    && (id in tally.prices <==> Priced(auctions, id) != []) && At(tally.prices, id, []) == Priced(auctions, id)
  }

  lemma AddedAt(tally: Tally, auctions: seq<Auction>, auction: Auction, id: int)
    requires TallyAt(tally, auctions, id)
    ensures TallyAt(Added(tally, auction), auctions + [auction], id)
  {
    hide ListingCount, UnitCount, Priced;
    ItemSnoc(auctions, auction, id);
  }

  lemma AddedDistinct(tally: Tally, auctions: seq<Auction>, auction: Auction)
    requires Distinct(tally.ids) && forall id :: TallyAt(tally, auctions, id)
    ensures Distinct(Added(tally, auction).ids)
  {
    if auction.itemId.Some? && auction.itemId.value !in tally.listings {
      assert TallyAt(tally, auctions, auction.itemId.value);
      assert auction.itemId.value !in tally.ids;
    }
  }

  method TallyAuctions(auctions: seq<Auction>) returns (tally: Tally)
    ensures Distinct(tally.ids) && forall id :: TallyAt(tally, auctions, id)
  {
    hide TallyAt;
    var ids: seq<int>, listings: map<int, nat>, units: map<int, nat>, prices: map<int, seq<Listing>> :=
      [], map[], map[], map[];
    tally := Tally(ids, listings, units, prices);
    NothingTallied();
    assert auctions[..0] == [] && auctions[..|auctions|] == auctions;
    for k := 0 to |auctions|
      invariant tally == Tally(ids, listings, units, prices)
      invariant Distinct(ids) && forall id :: TallyAt(tally, auctions[..k], id)
    {
      var auction := auctions[k];
      ghost var longer := auctions[..k + 1];
      assert longer == auctions[..k] + [auction];
      AddedDistinct(tally, auctions[..k], auction);
      forall id ensures TallyAt(Added(tally, auction), longer, id) {
        AddedAt(tally, auctions[..k], auction, id);
      }
      if auction.itemId.Some? {
        var id, quantity, price := auction.itemId.value, auction.Offered(), auction.UnitPrice();
        if id !in listings {
          ids := ids + [id];
        }
        listings := listings[id := At(listings, id, 0) + 1];
        units := units[id := At(units, id, 0) + quantity];
        if price.Some? {
          prices := prices[id := At(prices, id, []) + [Listing(price.value, quantity)]];
        }
      }
      ghost var was := tally;
      tally := Tally(ids, listings, units, prices);
      assert tally == Added(was, auction);
    }
  }

  lemma NothingTallied()
    ensures forall id :: TallyAt(Tally([], map[], map[], map[]), [], id)
  {
  }

  method MinPrice(listings: seq<Listing>) returns (price: int)
    requires listings != []
    ensures IsMin(listings, price)
  {
    price := listings[0].price;
    for k := 1 to |listings|
      invariant exists j :: 0 <= j < k && listings[j].price == price
      invariant forall j | 0 <= j < k :: price <= listings[j].price
    {
      if listings[k].price < price {
        price := listings[k].price;
      }
    }
  }

  /** The row of one item: its prices when anyone prices it. */
  method RowOf(tally: Tally, ghost auctions: seq<Auction>, id: int) returns (item: Item)
    requires TallyAt(tally, auctions, id) && id in tally.ids
    ensures item.id == id && Describes(item, auctions)
  {
    hide ListingCount, UnitCount, Priced, IsMin, IsMedian;
    var lowest, median := None, None;
    if id in tally.prices {
      var price := MinPrice(tally.prices[id]);
      SomeUnits(tally.prices[id]);
      var middle := UnitWeightedMedian(tally.prices[id]);
      lowest, median := Some(price), Some(middle);
    }
    item := Item(id, tally.listings[id], tally.units[id], lowest, median);
  }

  method AuctionsView(auctions: seq<Auction>) returns (count: nat, items: seq<Item>)
    ensures count == |auctions| && IsView(items, auctions)
  {
    hide ListingCount, TallyAt, Describes, InsertRow, RowBefore, HasRow, RowOrder;
    var tally := TallyAuctions(auctions);
    items := [];
    NoRows();
    for k := 0 to |tally.ids|
      invariant RowOrder(items) && forall j | 0 <= j < |items| :: Describes(items[j], auctions)
      invariant forall id :: HasRow(items, id) <==> id in tally.ids[..k]
    {
      var id := tally.ids[k];
      assert id !in tally.ids[..k];
      var item := RowOf(tally, auctions, id);
      RowAdded(item, items);
      items := InsertRow(item, items);
      assert tally.ids[..k + 1] == tally.ids[..k] + [id];
    }
    count := |auctions|;
    assert tally.ids[..|tally.ids|] == tally.ids;
    forall id ensures HasRow(items, id) <==> ListingCount(auctions, id) > 0 {
      IdsAreListed(tally, auctions, id);
    }
  }

  lemma IdsAreListed(tally: Tally, auctions: seq<Auction>, id: int)
    requires TallyAt(tally, auctions, id)
    ensures id in tally.ids <==> ListingCount(auctions, id) > 0
  {
  }

  lemma NoRows()
    ensures RowOrder([]) && forall id :: !HasRow([], id)
  {
  }

  lemma RowAdded(item: Item, items: seq<Item>)
    requires RowOrder(items) && !HasRow(items, item.id)
    ensures RowOrder(InsertRow(item, items))
    ensures forall id :: HasRow(InsertRow(item, items), id) <==> id == item.id || HasRow(items, id)
    ensures forall k | 0 <= k < |InsertRow(item, items)| :: InsertRow(item, items)[k] == item || InsertRow(item, items)[k] in items
  {
    hide InsertRow;
    InsertRowMembers(item, items);
    InsertRowOrder(item, items);
    var longer := InsertRow(item, items);
    assert forall k | 0 <= k < |longer| :: longer[k] in longer;
    forall id ensures HasRow(longer, id) <==> id == item.id || HasRow(items, id) {
      if HasRow(items, id) {
        var k :| 0 <= k < |items| && items[k].id == id;
        assert items[k] in longer;
      }
      assert item in longer;
    }
  }

  // ---------------------------------------------------------------- what one auction offers

  /** The auction offers so many units of the item; a quantity that is missing or not positive counts as one. */
  ghost predicate OffersUnits(auction: Auction, id: int, units: nat)
  {
    && auction.itemId == Some(id)
    && (auction.quantity == Some(units) || units == 1)
    && (units == 1 ==> auction.quantity.None? || auction.quantity.value <= 1)
    && units >= 1
  }

  /** It asks the price for one unit: the unit price given, or else the most whole buyout allows for every unit. */
  ghost predicate AsksPrice(auction: Auction, price: int)
  {
    || auction.unitPrice == Some(price)
    || (&& auction.unitPrice.None? && auction.buyout.Some? && auction.quantity.Some? && auction.quantity.value > 0
        && price * auction.quantity.value <= auction.buyout.value < (price + 1) * auction.quantity.value)
  }

  lemma MoreTimes(fewer: int, more: int, parts: int)
    requires parts > 0 && fewer < more
    ensures (fewer + 1) * parts <= more * parts
  {
    var extra := more - (fewer + 1);
    assert more * parts == (fewer + 1) * parts + extra * parts;
    assert extra * parts >= 0;
  }

  lemma QuotientBounds(whole: int, parts: int)
    requires parts > 0
    ensures whole / parts * parts <= whole < (whole / parts + 1) * parts
  {
    var quotient := whole / parts;
    assert whole == quotient * parts + whole % parts;
    assert (quotient + 1) * parts == quotient * parts + parts;
  }

  lemma OneQuotient(whole: int, parts: int, quotient: int, price: int)
    requires parts > 0 && quotient * parts <= whole < (quotient + 1) * parts
    requires price * parts <= whole < (price + 1) * parts
    ensures price == quotient
  {
    if price < quotient {
      MoreTimes(price, quotient, parts);
    } else if price > quotient {
      MoreTimes(quotient, price, parts);
    }
  }

  lemma QuotientIs(whole: int, parts: int, price: int)
    requires parts > 0
    ensures whole / parts == price <==> price * parts <= whole < (price + 1) * parts
  {
    QuotientBounds(whole, parts);
    if price * parts <= whole < (price + 1) * parts {
      OneQuotient(whole, parts, whole / parts, price);
    }
  }

  lemma PriceIs(auction: Auction, price: int)
    ensures AsksPrice(auction, price) <==> auction.UnitPrice() == Some(price)
  {
    if auction.unitPrice.None? && auction.buyout.Some? && auction.quantity.Some? && auction.quantity.value > 0 {
      QuotientIs(auction.buyout.value, auction.quantity.value, price);
    }
  }

  /** What one auction adds to an item's counts: one listing, its units, and its price when it asks one. */
  lemma CountsOfOne(auction: Auction, id: int)
    ensures ListingCount([auction], id) == if auction.itemId == Some(id) then 1 else 0
    ensures auction.itemId == Some(id) ==> OffersUnits(auction, id, UnitCount([auction], id))
    ensures auction.itemId != Some(id) ==> UnitCount([auction], id) == 0
    ensures forall price, units ::
              Priced([auction], id) == [Listing(price, units)] <==>
              OffersUnits(auction, id, units) && AsksPrice(auction, price)
    ensures auction.itemId != Some(id) || (forall price :: !AsksPrice(auction, price)) ==> Priced([auction], id) == []
  {
    hide AsksPrice;
    assert [auction][..0] == [];
    forall price ensures AsksPrice(auction, price) <==> auction.UnitPrice() == Some(price) {
      PriceIs(auction, price);
    }
    if auction.UnitPrice().Some? {
      assert AsksPrice(auction, auction.UnitPrice().value);
    }
  }

  /** What some auctions and some more add up to. */
  lemma {:induction false} CountsAdd(a: seq<Auction>, b: seq<Auction>, id: int)
    ensures ListingCount(a + b, id) == ListingCount(a, id) + ListingCount(b, id)
    ensures UnitCount(a + b, id) == UnitCount(a, id) + UnitCount(b, id)
    ensures Priced(a + b, id) == Priced(a, id) + Priced(b, id)
  {
    hide ListingCount, UnitCount, Priced;
    if b == [] {
      assert a + b == a;
      NothingListed(id);
      assert Priced(a, id) + [] == Priced(a, id);
    } else {
      var front, last := b[..|b| - 1], b[|b| - 1];
      assert b == front + [last] && a + b == (a + front) + [last];
      CountsAdd(a, front, id);
      ItemSnoc(front, last, id);
      ItemSnoc(a + front, last, id);
    }
  }

  lemma NothingListed(id: int)
    ensures ListingCount([], id) == 0 && UnitCount([], id) == 0 && Priced([], id) == []
  {
  }

  /** Listing by listing, only those at the prices let through count, each with its units. */
  lemma UnitsOfOne(listing: Listing, admits: int -> bool)
    ensures Units([listing], admits) == if admits(listing.price) then listing.units else 0
  {
    assert [listing][..0] == [];
  }

  // ---------------------------------------------------------------- what the view says

  /** The auctions that carry an item id. */
  function Identified(auctions: seq<Auction>): nat
  {
    if auctions == [] then 0
    else Identified(auctions[..|auctions| - 1]) + if auctions[|auctions| - 1].itemId.Some? then 1 else 0
  }

  function SumListings(items: seq<Item>): nat
  {
    if items == [] then 0 else SumListings(items[..|items| - 1]) + items[|items| - 1].auctions
  }

  ghost predicate DistinctIds(items: seq<Item>)
  {
    forall i, j | 0 <= i < j < |items| :: items[i].id != items[j].id
  }

  /** The listings of some rows among the auctions, when each row counts its own item. */
  function Among(auctions: seq<Auction>, items: seq<Item>): nat
  {
    if auctions == [] then 0
    else
      var last := auctions[|auctions| - 1];
      Among(auctions[..|auctions| - 1], items)
      + if exists k :: 0 <= k < |items| && last.Of(items[k].id) then 1 else 0
  }

  lemma {:induction false} AmongSnoc(auctions: seq<Auction>, items: seq<Item>, last: Item)
    requires forall k | 0 <= k < |items| :: items[k].id != last.id
    ensures Among(auctions, items + [last]) == Among(auctions, items) + ListingCount(auctions, last.id)
  {
    if auctions != [] {
      AmongSnoc(auctions[..|auctions| - 1], items, last);
      var auction, longer := auctions[|auctions| - 1], items + [last];
      assert longer[|items|] == last;
      assert forall k | 0 <= k < |items| :: longer[k] == items[k];
    }
  }

  lemma {:induction false} AmongNothing(auctions: seq<Auction>)
    ensures Among(auctions, []) == 0
  {
    if auctions != [] {
      AmongNothing(auctions[..|auctions| - 1]);
    }
  }

  lemma {:induction false} SumIsAmong(auctions: seq<Auction>, items: seq<Item>)
    requires DistinctIds(items) && forall k | 0 <= k < |items| :: items[k].auctions == ListingCount(auctions, items[k].id)
    ensures SumListings(items) == Among(auctions, items)
  {
    hide ListingCount, Among;
    if items == [] {
      AmongNothing(auctions);
    } else {
      var front, last := items[..|items| - 1], items[|items| - 1];
      SumIsAmong(auctions, front);
      AmongSnoc(auctions, front, last);
      assert items == front + [last];
    }
  }

  lemma {:induction false} AllAmong(auctions: seq<Auction>, items: seq<Item>)
    requires forall id :: ListingCount(auctions, id) > 0 ==> HasRow(items, id)
    ensures Among(auctions, items) == Identified(auctions)
  {
    if auctions != [] {
      var front, last := auctions[..|auctions| - 1], auctions[|auctions| - 1];
      AllAmong(front, items);
      if last.itemId.Some? {
        assert ListingCount(auctions, last.itemId.value) > 0;
        assert HasRow(items, last.itemId.value);
      }
    }
  }

  lemma OrderedAreDistinct(items: seq<Item>, auctions: seq<Auction>)
    requires IsView(items, auctions)
    ensures DistinctIds(items)
  {
    hide ListingCount;
    forall i, j | 0 <= i < j < |items| ensures items[i].id != items[j].id {
      assert RowBefore(items[i], items[j]);
      assert Describes(items[i], auctions) && Describes(items[j], auctions);
    }
  }

  /** The listings of all rows are exactly the auctions that carry an item id. */
  lemma ListingsConserved(items: seq<Item>, auctions: seq<Auction>)
    requires IsView(items, auctions)
    ensures SumListings(items) == Identified(auctions)
  {
    hide ListingCount, Among, Identified, SumListings;
    OrderedAreDistinct(items, auctions);
    assert forall k | 0 <= k < |items| :: Describes(items[k], auctions);
    SumIsAmong(auctions, items);
    AllAmong(auctions, items);
  }

  // ---------------------------------------------------------------- the order of the auctions does not matter

  lemma {:induction false} ItemRemove(auctions: seq<Auction>, k: nat, id: int)
    requires k < |auctions|
    ensures var rest, auction := Without(auctions, k), auctions[k];
            && ListingCount(auctions, id) == ListingCount(rest, id) + (if auction.Of(id) then 1 else 0)
            && UnitCount(auctions, id) == UnitCount(rest, id) + (if auction.Of(id) then auction.Offered() else 0)
            && multiset(Priced(auctions, id)) == multiset(Priced(rest, id))
               + (if auction.Of(id) && auction.UnitPrice().Some?
                  then multiset{Listing(auction.UnitPrice().value, auction.Offered())} else multiset{})
  {
    hide ListingCount, UnitCount, Priced, Without;
    var front, last := auctions[..|auctions| - 1], auctions[|auctions| - 1];
    assert auctions == front + [last];
    ItemSnoc(front, last, id);
    WithoutSnoc(front, last, k);
    if k < |front| {
      ItemRemove(front, k, id);
      ItemSnoc(Without(front, k), last, id);
    }
  }

  lemma {:induction false} ItemOfPermutation(a: seq<Auction>, b: seq<Auction>, id: int)
    requires multiset(a) == multiset(b)
    ensures ListingCount(a, id) == ListingCount(b, id) && UnitCount(a, id) == UnitCount(b, id)
    ensures multiset(Priced(a, id)) == multiset(Priced(b, id))
  {
    hide ListingCount, UnitCount, Priced, Without;
    if a == [] {
      NothingPermuted(a, b);
    } else {
      var k := Match(a, b);
      ItemRemove(a, 0, id);
      WithoutFirst(a);
      ItemRemove(b, k, id);
      ItemOfPermutation(a[1..], Without(b, k), id);
    }
  }

  lemma MinOfPermutation(a: seq<Listing>, b: seq<Listing>, price: int, other: int)
    requires multiset(a) == multiset(b) && IsMin(a, price) && IsMin(b, other)
    ensures price == other
  {
    var i :| 0 <= i < |a| && a[i].price == price;
    var j :| 0 <= j < |b| && b[j].price == other;
    assert a[i] in multiset(b) && b[j] in multiset(a);
  }

  lemma SameRow(a: seq<Auction>, b: seq<Auction>, x: Item, y: Item)
    requires multiset(a) == multiset(b) && x.id == y.id && Describes(x, a) && Describes(y, b)
    ensures x == y
  {
    hide ListingCount, UnitCount, Priced, IsMin, IsMedian;
    ItemOfPermutation(a, b, x.id);
    var p, q := Priced(a, x.id), Priced(b, x.id);
    assert |multiset(p)| == |p| && |multiset(q)| == |q|;
    if p != [] {
      MinOfPermutation(p, q, x.minPrice.value, y.minPrice.value);
      MedianOfPermutation(p, q, x.medianPrice.value, y.medianPrice.value);
    }
  }

  lemma {:induction false} SameRowsSameOrder(x: seq<Item>, y: seq<Item>)
    requires RowOrder(x) && RowOrder(y) && forall row :: row in x <==> row in y
    ensures x == y
  {
    if x == [] {
      assert forall k | 0 <= k < |y| :: y[k] in x;
      assert |y| == 0;
    } else {
      assert x[0] in y;
      assert y[0] in x;
      assert x[0] == y[0];
      forall row ensures row in x[1..] <==> row in y[1..] {
        assert row in x <==> row == x[0] || row in x[1..];
        assert row in y <==> row == y[0] || row in y[1..];
      }
      SameRowsSameOrder(x[1..], y[1..]);
      assert x == [x[0]] + x[1..] && y == [y[0]] + y[1..];
    }
  }

  lemma RowCarriesOver(a: seq<Auction>, b: seq<Auction>, x: seq<Item>, y: seq<Item>, k: nat)
    requires multiset(a) == multiset(b) && IsView(x, a) && IsView(y, b) && k < |x|
    ensures x[k] in y
  {
    hide ListingCount, Describes, RowOrder;
    var id := x[k].id;
    assert HasRow(x, id);
    ItemOfPermutation(a, b, id);
    assert HasRow(y, id);
    var j :| 0 <= j < |y| && y[j].id == id;
    SameRow(a, b, x[k], y[j]);
  }

  /** The view is fixed by the auctions, whatever order they come in. */
  lemma ViewOfPermutation(a: seq<Auction>, b: seq<Auction>, x: seq<Item>, y: seq<Item>)
    requires multiset(a) == multiset(b) && IsView(x, a) && IsView(y, b)
    ensures x == y
  {
    hide ListingCount, Describes, HasRow, RowBefore;
    forall row ensures row in x <==> row in y {
      if row in x {
        var k :| 0 <= k < |x| && x[k] == row;
        RowCarriesOver(a, b, x, y, k);
      }
      if row in y {
        var k :| 0 <= k < |y| && y[k] == row;
        RowCarriesOver(b, a, y, x, k);
      }
    }
    SameRowsSameOrder(x, y);
  }
}
