/**
  Global analytics recomputed from the items on every request: the total bid
  count, the distinct bidders, the auctions still running and the most recent
  bid activity across items.
*/
module Analytics {
  import opened Ceilings
  import opened Auction

  /** How many of an item's latest bids feed the activity list (`slice(-5)`). */
  const RECENT_PER_ITEM: nat := 5
  /** How long the activity list is at most (`slice(0, 10)`). */
  const RECENT_LIMIT: nat := 10

  datatype Activity = Activity(itemId: ItemId, amount: int, bidderId: BidderId, timestamp: int)

  datatype Snapshot = Snapshot(
    totalBids: int,
    totalBidders: nat,
    activeAuctions: nat,
    recentActivity: seq<Activity>)

  /** Sum of the per-item bid counters. */
  function TotalBids(items: seq<Item>): int
  {
    if items == [] then 0
    else TotalBids(items[..|items| - 1]) + items[|items| - 1].analytics.totalBids
  }

  /** Union of the per-item unique-bidder sets. */
  function AllBidders(items: seq<Item>): set<BidderId>
  {
    if items == [] then {}
    else AllBidders(items[..|items| - 1]) + items[|items| - 1].analytics.uniqueBidders
  }

  /** Number of items whose auction ends strictly after `now`. */
  function ActiveAuctions(items: seq<Item>, now: int): nat
  {
    if items == [] then 0
    else ActiveAuctions(items[..|items| - 1], now) + (if items[|items| - 1].auctionEndTime > now then 1 else 0)
  }

  /** `bidHistory.slice(-5)`: the last five records, or all of them when fewer. */
  function LastRecords(h: seq<BidRecord>): (r: seq<BidRecord>)
    ensures |r| == if |h| < RECENT_PER_ITEM then |h| else RECENT_PER_ITEM
    ensures r == h[|h| - |r|..]
  {
    if |h| <= RECENT_PER_ITEM then h else h[|h| - RECENT_PER_ITEM..]
  }

  function ToActivity(id: ItemId, b: BidRecord): Activity
  {
    Activity(id, b.amount, b.bidderId, b.timestamp)
  }

  function RecordsActivity(id: ItemId, h: seq<BidRecord>): (r: seq<Activity>)
    ensures |r| == |h|
    ensures forall k :: 0 <= k < |h| ==> r[k] == ToActivity(id, h[k])
  {
    if h == [] then [] else [ToActivity(id, h[0])] + RecordsActivity(id, h[1..])
  }

  /** The activity entries one item contributes. */
  function ItemActivity(it: Item): seq<Activity>
  {
    RecordsActivity(it.id, LastRecords(it.bidHistory))
  }

  /** The entries pushed by the per-item loop, in item order, before sorting. */
  function RecentCandidates(items: seq<Item>): seq<Activity>
  {
    if items == [] then []
    else RecentCandidates(items[..|items| - 1]) + ItemActivity(items[|items| - 1])
  }

  predicate NewestFirst(s: seq<Activity>)
  {
    forall i, j :: 0 <= i < j < |s| ==> s[i].timestamp >= s[j].timestamp
  }

  /** Insert before the first entry that is not newer, so equal timestamps keep their order. */
  function InsertNewestFirst(x: Activity, s: seq<Activity>): (r: seq<Activity>)
    ensures |r| == |s| + 1
    ensures r[0] == x || (s != [] && r[0] == s[0])
  {
    if s == [] then [x]
    else if s[0].timestamp <= x.timestamp then [x] + s
    else [s[0]] + InsertNewestFirst(x, s[1..])
  }

  /** Inserting into a newest-first list keeps it newest first. */
  lemma {:induction false} InsertKeepsNewestFirst(x: Activity, s: seq<Activity>)
    requires NewestFirst(s)
    ensures NewestFirst(InsertNewestFirst(x, s))
  {
    if s != [] && s[0].timestamp > x.timestamp {
      var rest := InsertNewestFirst(x, s[1..]);
      InsertKeepsNewestFirst(x, s[1..]);
      var r := [s[0]] + rest;
      assert rest[0].timestamp <= s[0].timestamp;
      forall i, j | 0 <= i < j < |r| ensures r[i].timestamp >= r[j].timestamp {
        if i == 0 {
          assert r[j] == rest[j - 1];
        } else {
          assert r[i] == rest[i - 1] && r[j] == rest[j - 1];
        }
      }
    }
  }

  /** Inserting adds exactly the one element. */
  lemma {:induction false} InsertAddsOne(x: Activity, s: seq<Activity>)
    ensures multiset(InsertNewestFirst(x, s)) == multiset(s) + multiset{x}
  {
    if s != [] && s[0].timestamp > x.timestamp {
      InsertAddsOne(x, s[1..]);
      assert s == [s[0]] + s[1..];
    }
  }

  /**
    `sort((a, b) => b.timestamp - a.timestamp)`: a stable sort, newest first
    (an insertion sort; JavaScript's `Array.prototype.sort` is stable).
  */
  function SortNewestFirst(s: seq<Activity>): (r: seq<Activity>)
    ensures NewestFirst(r)
    ensures multiset(r) == multiset(s)
    ensures |r| == |s|
  {
    if s == [] then []
    else
      var rest := SortNewestFirst(s[1..]);
      InsertKeepsNewestFirst(s[0], rest);
      InsertAddsOne(s[0], rest);
      assert s == [s[0]] + s[1..];
      InsertNewestFirst(s[0], rest)
  }

  /** `recentActivity.slice(0, 10)` after the sort. */
  function RecentActivity(items: seq<Item>): seq<Activity>
  {
    var sorted := SortNewestFirst(RecentCandidates(items));
    if |sorted| <= RECENT_LIMIT then sorted else sorted[..RECENT_LIMIT]
  }

  /** `getGlobalAnalytics()` evaluated at time `now`. */
  function GlobalAnalytics(items: seq<Item>, now: int): Snapshot
  {
    Snapshot(TotalBids(items), |AllBidders(items)|, ActiveAuctions(items, now), RecentActivity(items))
  }

  // ---------------------------------------------------------------------------
  // What the snapshot means

  /** Number of committed bid records over all items. */
  function HistorySize(items: seq<Item>): nat
  {
    if items == [] then 0
    else HistorySize(items[..|items| - 1]) + |items[|items| - 1].bidHistory|
  }

  /** With well-formed items the bid total counts every committed bid. */
  lemma {:induction false} TotalBidsCountsHistory(items: seq<Item>)
    requires AllWellFormed(items)
    ensures TotalBids(items) == HistorySize(items)
  {
    if items != [] {
      var init := items[..|items| - 1];
      assert AllWellFormed(init) by {
        forall i | 0 <= i < |init| ensures WellFormed(init[i]) {
          assert init[i] == items[i];
        }
      }
      TotalBidsCountsHistory(init);
      assert WellFormed(items[|items| - 1]);
    }
  }

  lemma {:induction false} HistoryBiddersMeaning(h: seq<BidRecord>, b: BidderId)
    ensures b in HistoryBidders(h) <==> exists k :: 0 <= k < |h| && h[k].bidderId == b
  {
    if h != [] {
      var init := h[..|h| - 1];
      HistoryBiddersMeaning(init, b);
      if b in HistoryBidders(init) {
        var k :| 0 <= k < |init| && init[k].bidderId == b;
        assert h[k] == init[k];
      }
      if k :| 0 <= k < |h| && h[k].bidderId == b {
        if k < |init| {
          assert init[k] == h[k];
        }
      }
    }
  }

  /** Every item's bidder set is the set of bidders its history names. */
  ghost predicate BiddersTracked(items: seq<Item>)
  {
    forall i :: 0 <= i < |items| ==> items[i].analytics.uniqueBidders == HistoryBidders(items[i].bidHistory)
  }

  /**
    With well-formed items the distinct-bidder set is exactly the set of bidders
    that appear in some item's history.
  */
  lemma AllBiddersMeaning(items: seq<Item>, b: BidderId)
    requires AllWellFormed(items)
    ensures b in AllBidders(items) <==>
      exists i, k :: 0 <= i < |items| && 0 <= k < |items[i].bidHistory| && items[i].bidHistory[k].bidderId == b
  {
    assert BiddersTracked(items) by {
      forall i | 0 <= i < |items| ensures items[i].analytics.uniqueBidders == HistoryBidders(items[i].bidHistory) {
        assert WellFormed(items[i]);
      }
    }
    TrackedBidders(items, b);
  }

  lemma {:induction false} TrackedBidders(items: seq<Item>, b: BidderId)
    requires BiddersTracked(items)
    ensures b in AllBidders(items) <==>
      exists i, k :: 0 <= i < |items| && 0 <= k < |items[i].bidHistory| && items[i].bidHistory[k].bidderId == b
  {
    if items != [] {
      var init := items[..|items| - 1];
      var last := items[|items| - 1];
      assert BiddersTracked(init) by {
        forall i | 0 <= i < |init| ensures init[i].analytics.uniqueBidders == HistoryBidders(init[i].bidHistory) {
          assert init[i] == items[i];
        }
      }
      TrackedBidders(init, b);
      HistoryBiddersMeaning(last.bidHistory, b);
      if b in AllBidders(init) {
        var i, k :| 0 <= i < |init| && 0 <= k < |init[i].bidHistory| && init[i].bidHistory[k].bidderId == b;
        assert items[i] == init[i];
      }
      if i, k :| 0 <= i < |items| && 0 <= k < |items[i].bidHistory| && items[i].bidHistory[k].bidderId == b {
        if i < |init| {
          assert init[i] == items[i];
        }
      }
    }
  }

  /** An auction counted as active at a later instant is also active earlier. */
  lemma {:induction false} ActiveAuctionsShrinkOverTime(items: seq<Item>, now: int, later: int)
    requires now <= later
    ensures ActiveAuctions(items, later) <= ActiveAuctions(items, now) <= |items|
  {
    if items != [] {
      ActiveAuctionsShrinkOverTime(items[..|items| - 1], now, later);
    }
  }

  /** Each item contributes at most five entries. */
  lemma {:induction false} RecentCandidatesBound(items: seq<Item>)
    ensures |RecentCandidates(items)| <= RECENT_PER_ITEM * |items|
  {
    if items != [] {
      RecentCandidatesBound(items[..|items| - 1]);
    }
  }

  /** Every entry of the list comes from the last five records of one item's own history. */
  lemma {:induction false} RecentCandidatesFromHistory(items: seq<Item>, a: Activity)
    requires a in RecentCandidates(items)
    ensures exists i :: 0 <= i < |items| && a in ItemActivity(items[i])
  {
    var init := items[..|items| - 1];
    if a in RecentCandidates(init) {
      RecentCandidatesFromHistory(init, a);
      var i :| 0 <= i < |init| && a in ItemActivity(init[i]);
      assert items[i] == init[i];
    } else {
      assert a in ItemActivity(items[|items| - 1]);
    }
  }

  /**
    The activity list holds the ten newest candidates, or all of them when there
    are fewer: its length is the smaller of ten and the number of candidates, it
    is newest first, and each entry is one of the candidates.
  */
  lemma RecentActivityShape(items: seq<Item>)
    ensures |RecentActivity(items)| ==
      if |RecentCandidates(items)| <= RECENT_LIMIT then |RecentCandidates(items)| else RECENT_LIMIT
    ensures NewestFirst(RecentActivity(items))
    ensures multiset(RecentActivity(items)) <= multiset(RecentCandidates(items))
  {
    var c := RecentCandidates(items);
    var sorted := SortNewestFirst(c);
    assert |sorted| == |c| && multiset(sorted) == multiset(c);
    if |sorted| > RECENT_LIMIT {
      NewestPrefix(sorted, RECENT_LIMIT);
      assert RecentActivity(items) == sorted[..RECENT_LIMIT];
    } else {
      assert RecentActivity(items) == sorted;
    }
  }

  /** A prefix of a newest-first list is newest first and part of the list. */
  lemma NewestPrefix(s: seq<Activity>, n: nat)
    requires n <= |s| && NewestFirst(s)
    ensures NewestFirst(s[..n])
    ensures multiset(s[..n]) <= multiset(s)
  {
    assert s == s[..n] + s[n..];
    assert multiset(s) == multiset(s[..n]) + multiset(s[n..]);
  }

  /** A candidate left out of the activity list is no newer than any entry kept. */
  lemma RecentActivityIsMostRecent(items: seq<Item>, b: Activity)
    requires b in RecentCandidates(items)
    ensures b !in RecentActivity(items) ==>
      forall a :: a in RecentActivity(items) ==> a.timestamp >= b.timestamp
  {
    var sorted := SortNewestFirst(RecentCandidates(items));
    var r := RecentActivity(items);
    if |sorted| > RECENT_LIMIT {
      TakeNewest(sorted, b);
    } else {
      assert r == sorted;
      assert b in multiset(sorted);
    }
  }

  /** Cutting a newest-first list after ten entries keeps the ten newest. */
  lemma TakeNewest(sorted: seq<Activity>, b: Activity)
    requires NewestFirst(sorted) && |sorted| > RECENT_LIMIT && b in multiset(sorted)
    ensures multiset(sorted[..RECENT_LIMIT]) <= multiset(sorted)
    ensures b in sorted[..RECENT_LIMIT] ||
      forall a :: a in sorted[..RECENT_LIMIT] ==> a.timestamp >= b.timestamp
  {
    var r := sorted[..RECENT_LIMIT];
    assert sorted == r + sorted[RECENT_LIMIT..];
    assert multiset(sorted) == multiset(r) + multiset(sorted[RECENT_LIMIT..]);
    assert b in sorted;
    var j :| 0 <= j < |sorted| && sorted[j] == b;
    if j < RECENT_LIMIT {
      assert r[j] == b;
    } else {
      forall a | a in r ensures a.timestamp >= b.timestamp {
        var i :| 0 <= i < |r| && r[i] == a;
        assert sorted[i] == a;
      }
    }
  }
}
