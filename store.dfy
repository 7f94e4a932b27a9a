/**
  The in-memory item store: one list of item records, created once from the
  catalog and changed in place by the bid handlers. Its mutators are not
  atomic on their own; callers serialise them with the per-item lock.
*/
module Store {
  import opened Optional
  import opened Ceilings
  import opened Auction
  import Analytics

  datatype CatalogEntry = CatalogEntry(id: ItemId, startingPrice: int, auctionEndTime: int)

  class ItemStore {
    var items: seq<Item>

    ghost predicate Valid()
      reads this
    {
      AllWellFormed(items)
    }

    /** The catalog becomes fresh items with no bids and no ceilings. */
    constructor (catalog: seq<CatalogEntry>)
      ensures |items| == |catalog|
      ensures forall i :: 0 <= i < |catalog| ==>
        items[i] == NewItem(catalog[i].id, catalog[i].startingPrice, catalog[i].auctionEndTime)
      ensures Valid()
    {
      items := seq(|catalog|, i requires 0 <= i < |catalog| =>
        NewItem(catalog[i].id, catalog[i].startingPrice, catalog[i].auctionEndTime));
    }

    /** `getItemById`: the first item whose id matches, or `null`. */
    function GetItemById(itemId: ItemId): (r: Option<Item>)
      reads this
      ensures r.Some? ==> r.value in items && r.value.id == itemId
      ensures r.None? <==> forall i :: 0 <= i < |items| ==> items[i].id != itemId
    {
      FindItem(items, itemId)
    }

    /** `updateItemBid`: commit a bid to the item, or report `false` for an unknown id. */
    method UpdateItemBid(itemId: ItemId, newBid: int, bidderId: BidderId, now: int) returns (ok: bool)
      modifies this
      ensures ok <==> FindIndex(old(items), itemId).Some?
      ensures items == CommitBid(old(items), itemId, newBid, bidderId, now)
    {
      var found := FindIndex(items, itemId);
      if found.None? {
        return false;
      }
      var i := found.value;
      var item := items[i];
      item := item.(bidHistory := item.bidHistory + [BidRecord(newBid, bidderId, now)]);
      item := item.(currentBid := newBid, currentBidder := Some(bidderId));
      item := item.(analytics := ItemAnalytics(
        item.analytics.totalBids + 1,
        item.analytics.uniqueBidders + {bidderId},
        item.analytics.bidTimeline + [TimelinePoint(now, newBid)]));
      items := items[i := item];
      ok := true;
    }

    /** `setMaxBid`: store or overwrite one bidder's ceiling; nothing else changes. */
    method SetMaxBid(itemId: ItemId, bidderId: BidderId, maxBid: int) returns (ok: bool)
      requires Valid()
      modifies this
      ensures Valid()
      ensures ok <==> FindIndex(old(items), itemId).Some?
      ensures items == SetCeilingIn(old(items), itemId, bidderId, maxBid)
    {
      var found := FindIndex(items, itemId);
      if found.None? {
        return false;
      }
      var i := found.value;
      var item := items[i];
      PutKeepsUnique(item.maxBids, bidderId, maxBid);
      WithCeilingsKeepsWellFormed(item, Put(item.maxBids, bidderId, maxBid));
      items := items[i := item.(maxBids := Put(item.maxBids, bidderId, maxBid))];
      ok := true;
    }

    /** `getMaxBid`: the stored ceiling; `|| null` also turns a stored 0 into `null`. */
    function GetMaxBid(itemId: ItemId, bidderId: BidderId): (r: Option<int>)
      reads this
      ensures r.Some? <==>
        GetItemById(itemId).Some? &&
        Lookup(GetItemById(itemId).value.maxBids, bidderId).Some? &&
        Lookup(GetItemById(itemId).value.maxBids, bidderId).value != 0
      ensures r.Some? ==> Lookup(GetItemById(itemId).value.maxBids, bidderId) == r
    {
      match GetItemById(itemId)
      case None => None
      case Some(item) =>
        match Lookup(item.maxBids, bidderId)
        case None => None
        case Some(v) => if v == 0 then None else Some(v)
    }

    /** `removeMaxBid`: delete one bidder's ceiling; absent entries are a no-op. */
    method RemoveMaxBid(itemId: ItemId, bidderId: BidderId) returns (ok: bool)
      requires Valid()
      modifies this
      ensures Valid()
      ensures ok <==> FindIndex(old(items), itemId).Some?
      ensures items == RemoveCeilingIn(old(items), itemId, bidderId)
    {
      var found := FindIndex(items, itemId);
      if found.None? {
        return false;
      }
      var i := found.value;
      var item := items[i];
      DeleteKeepsUnique(item.maxBids, bidderId);
      WithCeilingsKeepsWellFormed(item, Delete(item.maxBids, bidderId));
      items := items[i := item.(maxBids := Delete(item.maxBids, bidderId))];
      ok := true;
    }

    /** `getGlobalAnalytics`, with the clock reading passed in as `now`. */
    method GetGlobalAnalytics(now: int) returns (g: Analytics.Snapshot)
      ensures g == Analytics.GlobalAnalytics(items, now)
    {
      var totalBids := SumTotalBids(items);
      var allBidders := CollectBidders(items);
      var recent := CollectRecent(items);
      var sorted := Analytics.SortNewestFirst(recent);
      var active := CountActive(items, now);
      var shown := if |sorted| <= Analytics.RECENT_LIMIT then sorted else sorted[..Analytics.RECENT_LIMIT];
      g := Analytics.Snapshot(totalBids, |allBidders|, active, shown);
    }
  }

  /** `items.reduce((sum, item) => sum + item.analytics.totalBids, 0)` */
  method SumTotalBids(items: seq<Item>) returns (total: int)
    ensures total == Analytics.TotalBids(items)
  {
    total := 0;
    var i := 0;
    while i < |items|
      invariant 0 <= i <= |items|
      invariant total == Analytics.TotalBids(items[..i])
    {
      assert items[..i + 1][..i] == items[..i];
      total := total + items[i].analytics.totalBids;
      i := i + 1;
    }
    assert items[..|items|] == items;
  }

  /** The `forEach` that adds every item's unique bidders to one set. */
  method CollectBidders(items: seq<Item>) returns (all: set<BidderId>)
    ensures all == Analytics.AllBidders(items)
  {
    all := {};
    var i := 0;
    while i < |items|
      invariant 0 <= i <= |items|
      invariant all == Analytics.AllBidders(items[..i])
    {
      assert items[..i + 1][..i] == items[..i];
      all := all + items[i].analytics.uniqueBidders;
      i := i + 1;
    }
    assert items[..|items|] == items;
  }

  /** The `forEach` that pushes each item's last five bids onto one list. */
  method CollectRecent(items: seq<Item>) returns (recent: seq<Analytics.Activity>)
    ensures recent == Analytics.RecentCandidates(items)
  {
    recent := [];
    var i := 0;
    while i < |items|
      invariant 0 <= i <= |items|
      invariant recent == Analytics.RecentCandidates(items[..i])
    {
      assert items[..i + 1][..i] == items[..i];
      recent := recent + Analytics.ItemActivity(items[i]);
      i := i + 1;
    }
    assert items[..|items|] == items;
  }

  /** `items.filter(item => item.auctionEndTime > now).length` */
  method CountActive(items: seq<Item>, now: int) returns (active: nat)
    ensures active == Analytics.ActiveAuctions(items, now)
  {
    active := 0;
    var i := 0;
    while i < |items|
      invariant 0 <= i <= |items|
      invariant active == Analytics.ActiveAuctions(items[..i], now)
    {
      assert items[..i + 1][..i] == items[..i];
      if items[i].auctionEndTime > now {
        active := active + 1;
      }
      i := i + 1;
    }
    assert items[..|items|] == items;
  }
}
