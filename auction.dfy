/**
  Auction item records as the item store keeps them: price, leader, the
  append-only bid history, the ceiling table and per-item analytics. Money and
  timestamps are integers (currency units and milliseconds).
*/
module Auction {
  import opened Optional
  import opened Ceilings

  type ItemId = string

  datatype BidRecord = BidRecord(amount: int, bidderId: BidderId, timestamp: int)

  datatype TimelinePoint = TimelinePoint(time: int, amount: int)

  datatype ItemAnalytics = ItemAnalytics(
    totalBids: nat,
    uniqueBidders: set<BidderId>,
    bidTimeline: seq<TimelinePoint>)

  /** An item without its display fields (title, description, image). */
  datatype Item = Item(
    id: ItemId,
    startingPrice: int,
    currentBid: int,
    currentBidder: Option<BidderId>,
    auctionEndTime: int,
    bidHistory: seq<BidRecord>,
    maxBids: seq<Ceiling>,
    analytics: ItemAnalytics)

  /** The bidders that appear in a history. */
  function HistoryBidders(h: seq<BidRecord>): set<BidderId>
  {
    if h == [] then {} else HistoryBidders(h[..|h| - 1]) + {h[|h| - 1].bidderId}
  }

  predicate StrictlyIncreasing(h: seq<BidRecord>)
  {
    forall i, j :: 0 <= i < j < |h| ==> h[i].amount < h[j].amount
  }

  /**
    What every item satisfies while only the bid arbitration commits bids: the
    price starts at the starting price and afterwards is the last committed
    amount, amounts strictly increase, and the analytics mirror the history.
  */
  ghost predicate WellFormed(it: Item)
  {
    var h := it.bidHistory;
    && it.currentBid >= it.startingPrice
    && StrictlyIncreasing(h)
    && (h == [] ==> it.currentBid == it.startingPrice && it.currentBidder == None)
    && (h != [] ==> it.currentBid == h[|h| - 1].amount && it.currentBidder == Some(h[|h| - 1].bidderId))
    && (h != [] ==> h[0].amount > it.startingPrice)
    && it.analytics.totalBids == |h|
    && it.analytics.uniqueBidders == HistoryBidders(h)
    && |it.analytics.bidTimeline| == |h|
    && (forall i :: 0 <= i < |h| ==> it.analytics.bidTimeline[i] == TimelinePoint(h[i].timestamp, h[i].amount))
    && UniqueKeys(it.maxBids)
  }

  ghost predicate AllWellFormed(items: seq<Item>)
  {
    forall i :: 0 <= i < |items| ==> WellFormed(items[i])
  }

  /** The shape of every item of the catalog before any bid. */
  function NewItem(id: ItemId, startingPrice: int, auctionEndTime: int): (it: Item)
    ensures WellFormed(it)
    ensures it.currentBid == it.startingPrice == startingPrice
    ensures it.currentBidder == None && it.bidHistory == [] && it.maxBids == []
    ensures it.analytics.totalBids == 0 && it.analytics.uniqueBidders == {}
  {
    Item(id, startingPrice, startingPrice, None, auctionEndTime, [], [], ItemAnalytics(0, {}, []))
  }

  /** The effect of `updateItemBid` on the item it finds. */
  function ApplyBid(it: Item, amount: int, bidderId: BidderId, now: int): (r: Item)
    ensures r.id == it.id && r.startingPrice == it.startingPrice
    ensures r.auctionEndTime == it.auctionEndTime && r.maxBids == it.maxBids
    ensures |r.bidHistory| == |it.bidHistory| + 1
    ensures r.bidHistory[..|it.bidHistory|] == it.bidHistory
    ensures r.bidHistory[|it.bidHistory|] == BidRecord(amount, bidderId, now)
    ensures r.currentBid == amount && r.currentBidder == Some(bidderId)
    ensures r.analytics.totalBids == it.analytics.totalBids + 1
    ensures r.analytics.uniqueBidders == it.analytics.uniqueBidders + {bidderId}
    ensures |r.analytics.bidTimeline| == |it.analytics.bidTimeline| + 1
    ensures r.analytics.bidTimeline[..|it.analytics.bidTimeline|] == it.analytics.bidTimeline
    ensures r.analytics.bidTimeline[|it.analytics.bidTimeline|].amount == amount
  {
    it.(bidHistory := it.bidHistory + [BidRecord(amount, bidderId, now)],
        currentBid := amount,
        currentBidder := Some(bidderId),
        analytics := ItemAnalytics(
          it.analytics.totalBids + 1,
          it.analytics.uniqueBidders + {bidderId},
          it.analytics.bidTimeline + [TimelinePoint(now, amount)]))
  }

  /** A bid above the current price keeps the item invariant. */
  lemma ApplyBidKeepsWellFormed(it: Item, amount: int, bidderId: BidderId, now: int)
    requires WellFormed(it) && amount > it.currentBid
    ensures WellFormed(ApplyBid(it, amount, bidderId, now))
  {
    var r := ApplyBid(it, amount, bidderId, now);
    var h, h' := it.bidHistory, r.bidHistory;
    assert h'[..|h'| - 1] == h;
    assert HistoryBidders(h') == HistoryBidders(h) + {bidderId};
    forall i, j | 0 <= i < j < |h'| ensures h'[i].amount < h'[j].amount {
      if j < |h| {
        assert h'[i] == h[i] && h'[j] == h[j];
      } else if h != [] {
        assert h'[i] == h[i];
        assert h[i].amount <= h[|h| - 1].amount;
      }
    }
    forall i | 0 <= i < |h'|
      ensures r.analytics.bidTimeline[i] == TimelinePoint(h'[i].timestamp, h'[i].amount)
    {
      if i < |h| {
        assert h'[i] == h[i];
        assert r.analytics.bidTimeline[i] == it.analytics.bidTimeline[i];
      }
    }
  }

  /** Replacing the ceiling table by one with distinct keys keeps the item invariant. */
  lemma WithCeilingsKeepsWellFormed(it: Item, m: seq<Ceiling>)
    ensures WellFormed(it) && UniqueKeys(m) ==> WellFormed(it.(maxBids := m))
  {
  }

  lemma UpdateKeepsAllWellFormed(items: seq<Item>, i: nat, x: Item)
    requires AllWellFormed(items) && i < |items| && WellFormed(x)
    ensures AllWellFormed(items[i := x])
  {
  }

  /** `items.find(item => item.id === itemId)`: the first item with that id. */
  function FindIndex(items: seq<Item>, id: ItemId): (r: Option<nat>)
    ensures r.Some? ==> r.value < |items| && items[r.value].id == id
    ensures r.Some? ==> forall j :: 0 <= j < r.value ==> items[j].id != id
    ensures r.None? <==> forall j :: 0 <= j < |items| ==> items[j].id != id
  {
    if items == [] then None
    else if items[0].id == id then Some(0)
    else match FindIndex(items[1..], id)
      case None => None
      case Some(k) => Some(k + 1)
  }

  /** `getItemById` over a list of items: the item found, or `null`. */
  function FindItem(items: seq<Item>, id: ItemId): (r: Option<Item>)
    ensures r.Some? <==> FindIndex(items, id).Some?
    ensures r.Some? ==> r.value == items[FindIndex(items, id).value]
  {
    match FindIndex(items, id)
    case None => None
    case Some(i) => Some(items[i])
  }

  /** The item list after `updateItemBid`; an unknown id changes nothing. */
  function CommitBid(items: seq<Item>, id: ItemId, amount: int, bidderId: BidderId, now: int): (r: seq<Item>)
    ensures |r| == |items|
    ensures forall j :: 0 <= j < |items| ==> r[j].id == items[j].id
    ensures FindIndex(items, id).None? ==> r == items
    ensures forall j :: 0 <= j < |items| ==>
      r[j] == if FindIndex(items, id) == Some(j) then ApplyBid(items[j], amount, bidderId, now) else items[j]
  {
    match FindIndex(items, id)
    case None => items
    case Some(i) => items[i := ApplyBid(items[i], amount, bidderId, now)]
  }

  /** The item list after `setMaxBid`: only that bidder's ceiling of that item changes. */
  function SetCeilingIn(items: seq<Item>, id: ItemId, bidderId: BidderId, maxBid: int): (r: seq<Item>)
    ensures |r| == |items|
    ensures forall j :: 0 <= j < |items| ==> r[j] == items[j].(maxBids := r[j].maxBids)
    ensures forall j :: 0 <= j < |items| ==>
      r[j].maxBids == if FindIndex(items, id) == Some(j) then Put(items[j].maxBids, bidderId, maxBid) else items[j].maxBids
    ensures AllWellFormed(items) ==> AllWellFormed(r)
  {
    match FindIndex(items, id)
    case None => items
    case Some(i) =>
      PutKeepsUnique(items[i].maxBids, bidderId, maxBid);
      WithCeilingsKeepsWellFormed(items[i], Put(items[i].maxBids, bidderId, maxBid));
      items[i := items[i].(maxBids := Put(items[i].maxBids, bidderId, maxBid))]
  }

  /** The item list after `removeMaxBid`: only that bidder's ceiling of that item goes. */
  function RemoveCeilingIn(items: seq<Item>, id: ItemId, bidderId: BidderId): (r: seq<Item>)
    ensures |r| == |items|
    ensures forall j :: 0 <= j < |items| ==> r[j] == items[j].(maxBids := r[j].maxBids)
    ensures forall j :: 0 <= j < |items| ==>
      r[j].maxBids == if FindIndex(items, id) == Some(j) then Delete(items[j].maxBids, bidderId) else items[j].maxBids
    ensures AllWellFormed(items) ==> AllWellFormed(r)
  {
    match FindIndex(items, id)
    case None => items
    case Some(i) =>
      DeleteKeepsUnique(items[i].maxBids, bidderId);
      WithCeilingsKeepsWellFormed(items[i], Delete(items[i].maxBids, bidderId));
      items[i := items[i].(maxBids := Delete(items[i].maxBids, bidderId))]
  }

  /** Removing a ceiling twice is the same as removing it once. */
  lemma RemoveCeilingIdempotent(items: seq<Item>, id: ItemId, bidderId: BidderId)
    ensures RemoveCeilingIn(RemoveCeilingIn(items, id, bidderId), id, bidderId) == RemoveCeilingIn(items, id, bidderId)
  {
    var once := RemoveCeilingIn(items, id, bidderId);
    SameIdsSameIndex(items, once, id);
    match FindIndex(items, id)
    case None =>
    case Some(i) =>
      DeleteIdempotent(items[i].maxBids, bidderId);
  }

  /** Lists with the same ids at the same places find the same index. */
  lemma {:induction false} SameIdsSameIndex(a: seq<Item>, b: seq<Item>, id: ItemId)
    requires |a| == |b| && forall j :: 0 <= j < |a| ==> a[j].id == b[j].id
    ensures FindIndex(a, id) == FindIndex(b, id)
  {
    if a != [] && a[0].id != id {
      SameIdsSameIndex(a[1..], b[1..], id);
    }
  }
}
