/**
  One automatic-bidding step: among the registered ceilings of an item, other
  than the triggering bidder's, take the highest; if it is above the price,
  either bid the price plus the increment for its owner or, when the increment
  would overshoot the ceiling, drop that ceiling.
*/
module AutoBid {
  import opened Optional
  import opened Ceilings
  import opened Auction

  /** The fixed step of an automatic bid. */
  const AUTO_BID_INCREMENT: int := 10

  /**
    The entry `Object.entries(maxBids).filter(...).sort((a, b) => b - a)[0]`
    picks: the highest ceiling of a bidder other than `exclude`, and of those
    the oldest (the sort is stable).
  */
  function SelectCeiling(m: seq<Ceiling>, exclude: BidderId): (r: Option<nat>)
    ensures r.None? <==> forall j :: 0 <= j < |m| ==> m[j].bidderId == exclude
    ensures r.Some? ==> r.value < |m| && m[r.value].bidderId != exclude
    ensures r.Some? ==> forall j :: 0 <= j < |m| && m[j].bidderId != exclude ==> m[j].maxBid <= m[r.value].maxBid
    ensures r.Some? ==> forall j :: 0 <= j < r.value && m[j].bidderId != exclude ==> m[j].maxBid < m[r.value].maxBid
  {
    if m == [] then None
    else match SelectCeiling(m[1..], exclude)
      case None => if m[0].bidderId == exclude then None else Some(0)
      case Some(k) =>
        if m[0].bidderId == exclude || m[k + 1].maxBid > m[0].maxBid then Some(k + 1) else Some(0)
  }

  datatype AutoStep =
    | NoAutoBid
      /** `UPDATE_BID` with `isAutoBid` and `AUTO_BID_PLACED`: the bid is committed. */
    | AutoBidPlaced(bidderId: BidderId, amount: int, maxBid: int)
      /** `MAX_BID_REACHED`: the ceiling cannot keep pace and is removed. */
    | MaxBidReached(bidderId: BidderId, maxBid: int, currentBid: int)

  /**
    `processAutoBids` as written: it decides against the `currentBid` it was
    passed, which on one call path was read before waiting for the lock.
  */
  function StepAtPrice(it: Item, price: int, exclude: BidderId): (r: AutoStep)
    ensures !r.NoAutoBid? ==> r.bidderId != exclude && Ceiling(r.bidderId, r.maxBid) in it.maxBids
    ensures r.AutoBidPlaced? ==> r.amount == price + AUTO_BID_INCREMENT <= r.maxBid
    ensures r.MaxBidReached? ==> price < r.maxBid < price + AUTO_BID_INCREMENT
  {
    match SelectCeiling(it.maxBids, exclude)
    case None => NoAutoBid
    case Some(i) =>
      var top := it.maxBids[i];
      if top.maxBid > price then
        if price + AUTO_BID_INCREMENT <= top.maxBid then AutoBidPlaced(top.bidderId, price + AUTO_BID_INCREMENT, top.maxBid)
        else MaxBidReached(top.bidderId, top.maxBid, price)
      else NoAutoBid
  }

  /** The step decided against the item's own current price. */
  function AutoBidDecision(it: Item, exclude: BidderId): (r: AutoStep)
    ensures r.NoAutoBid? <==> forall c :: c in it.maxBids && c.bidderId != exclude ==> c.maxBid <= it.currentBid
    ensures !r.NoAutoBid? ==>
      && r.bidderId != exclude
      && Ceiling(r.bidderId, r.maxBid) in it.maxBids
      && (forall c :: c in it.maxBids && c.bidderId != exclude ==> c.maxBid <= r.maxBid)
    ensures r.AutoBidPlaced? ==> r.amount == it.currentBid + AUTO_BID_INCREMENT && r.amount <= r.maxBid
    ensures r.MaxBidReached? ==> it.currentBid < r.maxBid < it.currentBid + AUTO_BID_INCREMENT
  {
    var r := StepAtPrice(it, it.currentBid, exclude);
    assert !r.NoAutoBid? ==> exists i :: 0 <= i < |it.maxBids| && it.maxBids[i] == Ceiling(r.bidderId, r.maxBid);
    r
  }

  /** The commit or the removal a step makes. */
  function ApplyAutoStep(it: Item, step: AutoStep, now: int): (r: Item)
    ensures r.id == it.id && r.auctionEndTime == it.auctionEndTime
    ensures step.NoAutoBid? ==> r == it
    ensures step.AutoBidPlaced? ==>
      && r.currentBid == step.amount && r.currentBidder == Some(step.bidderId)
      && r.bidHistory == it.bidHistory + [BidRecord(step.amount, step.bidderId, now)]
      && r.maxBids == it.maxBids
    ensures step.MaxBidReached? ==>
      && Bidders(r.maxBids) == Bidders(it.maxBids) - {step.bidderId}
      && r.currentBid == it.currentBid && r.currentBidder == it.currentBidder
      && r.bidHistory == it.bidHistory
  {
    match step
    case NoAutoBid => it
    case AutoBidPlaced(b, amount, _) => ApplyBid(it, amount, b, now)
    case MaxBidReached(b, _, _) => it.(maxBids := Delete(it.maxBids, b))
  }

  /**
    A step keeps the item invariant, never lowers the price, and only appends
    to the history: with a commit the price strictly rises.
  */
  lemma AutoStepKeepsWellFormed(it: Item, exclude: BidderId, now: int)
    ensures var r := ApplyAutoStep(it, AutoBidDecision(it, exclude), now);
      && (WellFormed(it) ==> WellFormed(r))
      && r.currentBid >= it.currentBid
      && (AutoBidDecision(it, exclude).AutoBidPlaced? ==> r.currentBid > it.currentBid)
      && |r.bidHistory| >= |it.bidHistory|
      && r.bidHistory[..|it.bidHistory|] == it.bidHistory
      && r.id == it.id && r.auctionEndTime == it.auctionEndTime
  {
    var step := AutoBidDecision(it, exclude);
    if WellFormed(it) {
      match step
      case NoAutoBid =>
      case AutoBidPlaced(b, amount, _) =>
        ApplyBidKeepsWellFormed(it, amount, b, now);
      case MaxBidReached(b, _, _) =>
        DeleteKeepsUnique(it.maxBids, b);
        WithCeilingsKeepsWellFormed(it, Delete(it.maxBids, b));
    }
    assert it.bidHistory[..|it.bidHistory|] == it.bidHistory;
  }

  /** One `processAutoBids` step on the item list; an unknown id does nothing. */
  function AutoBidIn(items: seq<Item>, id: ItemId, exclude: BidderId, now: int): (r: (AutoStep, seq<Item>))
    ensures |r.1| == |items|
    ensures forall j :: 0 <= j < |items| ==> r.1[j].id == items[j].id
    ensures AllWellFormed(items) ==> AllWellFormed(r.1)
    ensures FindIndex(items, id).None? ==> r == (NoAutoBid, items)
    ensures FindIndex(items, id).Some? ==>
      var i := FindIndex(items, id).value;
      r.0 == AutoBidDecision(items[i], exclude) &&
      r.1 == items[i := ApplyAutoStep(items[i], r.0, now)]
  {
    match FindIndex(items, id)
    case None => (NoAutoBid, items)
    case Some(i) =>
      var step := AutoBidDecision(items[i], exclude);
      AutoStepKeepsWellFormed(items[i], exclude, now);
      (step, items[i := ApplyAutoStep(items[i], step, now)])
  }

  // ---------------------------------------------------------------------------
  // The step iterated to a fixed point

  /** How far the ceilings still reach above the price, summed over the entries. */
  function Headroom(m: seq<Ceiling>, price: int): nat
  {
    if m == [] then 0
    else (if m[0].maxBid > price then m[0].maxBid - price else 0) + Headroom(m[1..], price)
  }

  lemma {:induction false} HeadroomFalls(m: seq<Ceiling>, price: int, i: nat)
    requires i < |m| && m[i].maxBid >= price + AUTO_BID_INCREMENT
    ensures Headroom(m, price + AUTO_BID_INCREMENT) < Headroom(m, price)
  {
    if i == 0 {
      HeadroomMonotone(m[1..], price, price + AUTO_BID_INCREMENT);
    } else {
      HeadroomFalls(m[1..], price, i - 1);
    }
  }

  /** A higher price never leaves more headroom. */
  lemma {:induction false} HeadroomMonotone(m: seq<Ceiling>, p: int, q: int)
    requires p <= q
    ensures Headroom(m, q) <= Headroom(m, p)
  {
    if m != [] {
      HeadroomMonotone(m[1..], p, q);
    }
  }

  lemma {:induction false} HeadroomOfDelete(m: seq<Ceiling>, b: BidderId, price: int)
    ensures Headroom(Delete(m, b), price) <= Headroom(m, price)
  {
    if m != [] {
      HeadroomOfDelete(m[1..], b, price);
    }
  }

  function Measure(it: Item): nat
  {
    |it.maxBids| + Headroom(it.maxBids, it.currentBid)
  }

  /**
    Every step that does something lowers the measure: a commit lowers the
    headroom, a removal shortens the table without raising the headroom.
  */
  lemma StepLowersMeasure(it: Item, exclude: BidderId, now: int)
    requires !AutoBidDecision(it, exclude).NoAutoBid?
    ensures Measure(ApplyAutoStep(it, AutoBidDecision(it, exclude), now)) < Measure(it)
  {
    var step := AutoBidDecision(it, exclude);
    var i :| 0 <= i < |it.maxBids| && it.maxBids[i] == Ceiling(step.bidderId, step.maxBid);
    match step
    case AutoBidPlaced(b, amount, _) =>
      HeadroomFalls(it.maxBids, it.currentBid, i);
    case MaxBidReached(b, _, _) =>
      BiddersAt(it.maxBids, i);
      HeadroomOfDelete(it.maxBids, b, it.currentBid);
  }

  /**
    The step repeated until it does nothing, with the excluded bidder fixed for
    the whole run. It terminates, ends where no other ceiling is above the
    price, never lowers the price and only appends to the history.
  */
  function Cascade(it: Item, exclude: BidderId, now: int): (r: Item)
    ensures AutoBidDecision(r, exclude).NoAutoBid?
    ensures WellFormed(it) ==> WellFormed(r)
    ensures r.currentBid >= it.currentBid
    ensures |r.bidHistory| >= |it.bidHistory| && r.bidHistory[..|it.bidHistory|] == it.bidHistory
    decreases Measure(it)
  {
    var step := AutoBidDecision(it, exclude);
    if step.NoAutoBid? then it
    else
      var next := ApplyAutoStep(it, step, now);
      StepLowersMeasure(it, exclude, now);
      AutoStepKeepsWellFormed(it, exclude, now);
      var r := Cascade(next, exclude, now);
      assert r.bidHistory[..|it.bidHistory|] == r.bidHistory[..|next.bidHistory|][..|it.bidHistory|];
      r
  }

  // ---------------------------------------------------------------------------
  // The stale price

  /**
    Deciding against a price read before a concurrent bid committed can commit
    an auto-bid below the current price. The run: the lot opens at 50 with X's
    ceiling 70. A's `BID_PLACED` of 80 takes the item lock. Y then sets a ceiling
    of 55; the step its `SET_MAX_BID` decides at price 50 is X's auto-bid of 60,
    which waits for the lock. A commits 80, and A's own step finds no ceiling
    above 80, so A's handler releases. The waiting step then writes 60.
  */
  lemma StalePriceLowersBid()
    ensures var it1 := NewItem("1", 50, 1000).(maxBids := [Ceiling("X", 70), Ceiling("Y", 55)]);
      var stale := AutoBidDecision(it1, "Y");
      var it2 := ApplyBid(it1, 80, "A", 5);
      var it3 := ApplyAutoStep(it2, stale, 6);
      && stale == AutoBidPlaced("X", 60, 70)
      && AutoBidDecision(it2, "A").NoAutoBid?
      && it3.currentBid < it2.currentBid
      && !WellFormed(it3)
  {
    var it1 := NewItem("1", 50, 1000).(maxBids := [Ceiling("X", 70), Ceiling("Y", 55)]);
    assert SelectCeiling(it1.maxBids, "Y") == Some(0);
    var stale := AutoBidDecision(it1, "Y");
    var it2 := ApplyBid(it1, 80, "A", 5);
    assert SelectCeiling(it2.maxBids, "A") == Some(0);
    var it3 := ApplyAutoStep(it2, stale, 6);
    assert it3.bidHistory[0].amount == 80 && it3.bidHistory[1].amount == 60;
  }

  /**
    Every state of that run is one the handlers reach: each is well formed, Y's
    ceiling is a ceiling `SET_MAX_BID` accepts at price 50, the table after it is
    X's entry followed by Y's, and A's 80 is above the price it is checked against.
  */
  lemma StaleRunReachable()
    ensures var it0 := NewItem("1", 50, 1000).(maxBids := [Ceiling("X", 70)]);
      var it1 := it0.(maxBids := Put(it0.maxBids, "Y", 55));
      && WellFormed(it0) && WellFormed(it1) && WellFormed(ApplyBid(it1, 80, "A", 5))
      && 55 > it0.currentBid && 80 > it1.currentBid
      && it1.maxBids == [Ceiling("X", 70), Ceiling("Y", 55)]
  {
    var lot := NewItem("1", 50, 1000);
    var it0 := lot.(maxBids := [Ceiling("X", 70)]);
    assert UniqueKeys([Ceiling("X", 70)]) by {
      assert [Ceiling("X", 70)][1..] == [];
    }
    WithCeilingsKeepsWellFormed(lot, it0.maxBids);
    PutKeepsUnique(it0.maxBids, "Y", 55);
    var it1 := it0.(maxBids := Put(it0.maxBids, "Y", 55));
    WithCeilingsKeepsWellFormed(it0, it1.maxBids);
    ApplyBidKeepsWellFormed(it1, 80, "A", 5);
  }
}
