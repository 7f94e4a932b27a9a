/**
  The socket handlers for `BID_PLACED`, `SET_MAX_BID` and `CANCEL_MAX_BID`.
  Emitted events become returned values; the clock reading is the parameter
  `now`; a handler waiting for the item lock is `Suspended` and carries on in
  `RunGrantedBid` (a bid) or `ResumeAutoBid` (an auto-bid commit) once a
  release hands it the lock.
*/
module Bidding {
  import opened Optional
  import opened Ceilings
  import opened Auction
  import opened AutoBid
  import opened Locks
  import opened Store

  /** `bidderId || socket.id`: a missing or empty bidder id falls back to the socket id. */
  function ActualBidderId(bidderId: BidderId, socketId: BidderId): (r: BidderId)
    ensures bidderId != "" ==> r == bidderId
    ensures bidderId == "" ==> r == socketId
  {
    if bidderId != "" then bidderId else socketId
  }

  // ---------------------------------------------------------------------------
  // BID_PLACED

  datatype BidVerdict =
    | ItemNotFound
    | AuctionEnded
      /** `isOutbid` marks a tie: another bid of the same amount was committed first. */
    | BidTooLow(currentBid: int, isOutbid: bool)
    | BidOk

  /** The validation chain, in the handler's order. */
  function DecideBid(item: Option<Item>, bidAmount: int, now: int): (v: BidVerdict)
    ensures v == ItemNotFound <==> item.None?
    ensures v == AuctionEnded <==> item.Some? && now >= item.value.auctionEndTime
    ensures v.BidTooLow? <==> item.Some? && now < item.value.auctionEndTime && bidAmount <= item.value.currentBid
    ensures v.BidTooLow? ==> v.currentBid == item.value.currentBid && (v.isOutbid <==> bidAmount == item.value.currentBid)
    ensures v == BidOk <==> item.Some? && now < item.value.auctionEndTime && bidAmount > item.value.currentBid
  {
    match item
    case None => ItemNotFound
    case Some(it) =>
      if now >= it.auctionEndTime then AuctionEnded
      else if bidAmount <= it.currentBid then BidTooLow(it.currentBid, bidAmount == it.currentBid)
      else BidOk
  }

  datatype BidEvent =
    /** `BID_ERROR` to the requester. */
    | BidError(itemId: ItemId, verdict: BidVerdict)
    /** `UPDATE_BID` to everyone, followed by the auto-bid step it triggered. */
    | BidUpdated(itemId: ItemId, newBid: int, bidderId: BidderId, timestamp: int, auto: AutoStep)

  /**
    What the handler does between acquiring and releasing the item lock:
    validate, commit, then one auto-bid step excluding the bidder, run under
    the lock the handler already holds.
  */
  function BidTransition(items: seq<Item>, itemId: ItemId, bidAmount: int, bidderId: BidderId, now: int)
    : (r: (BidEvent, seq<Item>))
  {
    var v := DecideBid(FindItem(items, itemId), bidAmount, now);
    if v != BidOk then (BidError(itemId, v), items)
    else
      var placed := CommitBid(items, itemId, bidAmount, bidderId, now);
      var (step, after) := AutoBidIn(placed, itemId, bidderId, now);
      (BidUpdated(itemId, bidAmount, bidderId, now, step), after)
  }

  /**
    A rejected bid changes no item; an accepted one keeps every item
    well formed, touches only its own item, records the human bid first,
    and leaves the price at least at the bid, which is above the old price.
  */
  lemma BidTransitionOutcomes(items: seq<Item>, itemId: ItemId, bidAmount: int, bidderId: BidderId, now: int)
    requires AllWellFormed(items)
    ensures var (ev, after) := BidTransition(items, itemId, bidAmount, bidderId, now);
      && |after| == |items|
      && AllWellFormed(after)
      && (ev.BidError? <==> DecideBid(FindItem(items, itemId), bidAmount, now) != BidOk)
      && (ev.BidError? ==> after == items && ev.verdict == DecideBid(FindItem(items, itemId), bidAmount, now))
      && (ev.BidUpdated? ==> BidAccepted(items, itemId, bidAmount, bidderId, now, ev, after))
  {
    if DecideBid(FindItem(items, itemId), bidAmount, now) == BidOk {
      AcceptedBid(items, itemId, bidAmount, bidderId, now);
    }
  }

  /** What an accepted bid does to the item list. */
  ghost predicate BidAccepted(items: seq<Item>, itemId: ItemId, bidAmount: int, bidderId: BidderId, now: int,
                              ev: BidEvent, after: seq<Item>)
    requires |after| == |items|
  {
    && FindIndex(items, itemId).Some?
    && var i := FindIndex(items, itemId).value;
    && ev.BidUpdated? && ev.newBid == bidAmount && ev.bidderId == bidderId
    && items[i].currentBid < bidAmount <= after[i].currentBid
    && |after[i].bidHistory| > |items[i].bidHistory|
    && after[i].bidHistory[..|items[i].bidHistory| + 1] == items[i].bidHistory + [BidRecord(bidAmount, bidderId, now)]
    && (forall j :: 0 <= j < |items| && j != i ==> after[j] == items[j])
  }

  lemma AcceptedBid(items: seq<Item>, itemId: ItemId, bidAmount: int, bidderId: BidderId, now: int)
    requires AllWellFormed(items)
    requires DecideBid(FindItem(items, itemId), bidAmount, now) == BidOk
    ensures var (ev, after) := BidTransition(items, itemId, bidAmount, bidderId, now);
      |after| == |items| && AllWellFormed(after) && BidAccepted(items, itemId, bidAmount, bidderId, now, ev, after)
  {
    TransitionOnAccept(items, itemId, bidAmount, bidderId, now);
    var i := FindIndex(items, itemId).value;
    var placed := ApplyBid(items[i], bidAmount, bidderId, now);
    var r := ApplyAutoStep(placed, AutoBidDecision(placed, bidderId), now);
    AcceptedItem(items[i], bidAmount, bidderId, now);
    UpdateKeepsAllWellFormed(items, i, r);
  }

  /** An accepted bid commits to the item found and runs one step on the committed item. */
  lemma TransitionOnAccept(items: seq<Item>, itemId: ItemId, bidAmount: int, bidderId: BidderId, now: int)
    requires DecideBid(FindItem(items, itemId), bidAmount, now) == BidOk
    ensures FindIndex(items, itemId).Some?
    ensures var i := FindIndex(items, itemId).value;
      var placed := ApplyBid(items[i], bidAmount, bidderId, now);
      var step := AutoBidDecision(placed, bidderId);
      BidTransition(items, itemId, bidAmount, bidderId, now)
        == (BidUpdated(itemId, bidAmount, bidderId, now, step), items[i := ApplyAutoStep(placed, step, now)])
  {
    var placed := CommitBid(items, itemId, bidAmount, bidderId, now);
    SameIdsSameIndex(items, placed, itemId);
    var i := FindIndex(items, itemId).value;
    assert placed[i := ApplyAutoStep(placed[i], AutoBidDecision(placed[i], bidderId), now)]
        == items[i := ApplyAutoStep(placed[i], AutoBidDecision(placed[i], bidderId), now)];
  }

  /** One item through an accepted bid: the commit, then one auto-bid step. */
  lemma AcceptedItem(it: Item, bidAmount: int, bidderId: BidderId, now: int)
    requires WellFormed(it) && bidAmount > it.currentBid
    ensures var placed := ApplyBid(it, bidAmount, bidderId, now);
      var r := ApplyAutoStep(placed, AutoBidDecision(placed, bidderId), now);
      && WellFormed(r)
      && bidAmount <= r.currentBid
      && |r.bidHistory| > |it.bidHistory|
      && r.bidHistory[..|it.bidHistory| + 1] == it.bidHistory + [BidRecord(bidAmount, bidderId, now)]
  {
    var placed := ApplyBid(it, bidAmount, bidderId, now);
    ApplyBidKeepsWellFormed(it, bidAmount, bidderId, now);
    AutoStepKeepsWellFormed(placed, bidderId, now);
    var r := ApplyAutoStep(placed, AutoBidDecision(placed, bidderId), now);
    assert r.bidHistory[..|it.bidHistory| + 1] == r.bidHistory[..|placed.bidHistory|];
  }

  datatype Handled<E> = Suspended | Finished(event: E, handoff: Option<Ticket>)

  /**
    `BID_PLACED` once its lock request is granted: the critical section and the
    `finally` release, which happens on every path.
  */
  method RunGrantedBid(store: ItemStore, locks: LockManager, itemId: ItemId, bidAmount: int,
                       bidderId: BidderId, socketId: BidderId, now: int)
    returns (ev: BidEvent, handoff: Option<Ticket>)
    requires store.Valid() && locks.Valid() && locks.Held(itemId)
    modifies store, locks
    ensures store.Valid() && locks.Valid()
    ensures (ev, store.items) == BidTransition(old(store.items), itemId, bidAmount, ActualBidderId(bidderId, socketId), now)
    ensures (handoff, locks.State()) == Release(old(locks.State()), itemId)
  {
    ghost var before := store.items;
    var item := store.GetItemById(itemId);
    var verdict := DecideBid(item, bidAmount, now);
    if verdict != BidOk {
      ev := BidError(itemId, verdict);
    } else {
      var actual := ActualBidderId(bidderId, socketId);
      BidTransitionOutcomes(before, itemId, bidAmount, actual, now);
      var i := FindIndex(before, itemId).value;
      ApplyBidKeepsWellFormed(before[i], bidAmount, actual, now);
      UpdateKeepsAllWellFormed(before, i, ApplyBid(before[i], bidAmount, actual, now));
      var ok := store.UpdateItemBid(itemId, bidAmount, actual, now);
      assert ok;
      var step := ProcessAutoBids(store, itemId, actual, now);
      ev := BidUpdated(itemId, bidAmount, actual, now, step);
    }
    handoff := locks.ReleaseLock(itemId);
  }

  /**
    `BID_PLACED`: ask for the item lock; a held lock queues the request, a free
    one runs it to the end. A bid on a free item leaves the item free again.
  */
  method PlaceBid(store: ItemStore, locks: LockManager, ticket: Ticket, itemId: ItemId, bidAmount: int,
                  bidderId: BidderId, socketId: BidderId, now: int)
    returns (r: Handled<BidEvent>)
    requires store.Valid() && locks.Valid()
    modifies store, locks
    ensures store.Valid() && locks.Valid()
    ensures var acquired := Acquire(old(locks.State()), itemId, ticket);
      acquired.0 == Queued ==>
        r == Suspended && store.items == old(store.items) && locks.State() == acquired.1
    ensures var acquired := Acquire(old(locks.State()), itemId, ticket);
      acquired.0 == Granted ==>
        && r.Finished?
        && (r.event, store.items) == BidTransition(old(store.items), itemId, bidAmount, ActualBidderId(bidderId, socketId), now)
        && (r.handoff, locks.State()) == Release(acquired.1, itemId)
    ensures !old(locks.Held(itemId)) ==> r.Finished? && r.handoff == None && !locks.Held(itemId)
  {
    var g := locks.AcquireLock(itemId, ticket);
    if g == Queued {
      return Suspended;
    }
    var ev, handoff := RunGrantedBid(store, locks, itemId, bidAmount, bidderId, socketId, now);
    r := Finished(ev, handoff);
  }

  /**
    `processAutoBids`, run under a lock its caller holds: one step against the
    item's current state.
  */
  method ProcessAutoBids(store: ItemStore, itemId: ItemId, exclude: BidderId, now: int) returns (step: AutoStep)
    requires store.Valid()
    modifies store
    ensures store.Valid()
    ensures (step, store.items) == AutoBidIn(old(store.items), itemId, exclude, now)
  {
    var item := store.GetItemById(itemId);
    if item.None? {
      return NoAutoBid;
    }
    ghost var i := FindIndex(store.items, itemId).value;
    step := AutoBidDecision(item.value, exclude);
    AutoStepKeepsWellFormed(item.value, exclude, now);
    ghost var before := store.items;
    match step
    case NoAutoBid =>
      assert before[i := ApplyAutoStep(before[i], step, now)] == before;
    case AutoBidPlaced(b, amount, _) =>
      var ok := store.UpdateItemBid(itemId, amount, b, now);
    case MaxBidReached(b, _, _) =>
      var ok := store.RemoveMaxBid(itemId, b);
      assert store.items == before[i := ApplyAutoStep(before[i], step, now)];
  }

  // ---------------------------------------------------------------------------
  // SET_MAX_BID and CANCEL_MAX_BID

  datatype MaxBidVerdict = MaxBidItemNotFound | MaxBidTooLow(currentBid: int) | MaxBidOk

  /** The `SET_MAX_BID` checks: the item exists and the ceiling is above its price. */
  function DecideMaxBid(item: Option<Item>, maxBid: int): (v: MaxBidVerdict)
    ensures v == MaxBidItemNotFound <==> item.None?
    ensures v.MaxBidTooLow? <==> item.Some? && maxBid <= item.value.currentBid
    ensures v.MaxBidTooLow? ==> v.currentBid == item.value.currentBid
    ensures v == MaxBidOk <==> item.Some? && maxBid > item.value.currentBid
  {
    match item
    case None => MaxBidItemNotFound
    case Some(it) => if maxBid <= it.currentBid then MaxBidTooLow(it.currentBid) else MaxBidOk
  }

  datatype MaxBidOutcome =
    /** `MAX_BID_ERROR`: nothing stored. */
    | MaxBidRejected(itemId: ItemId, verdict: MaxBidVerdict)
    /** `MAX_BID_SET`, then the auto-bid step (a commit among them took and released the lock). */
    | MaxBidSet(itemId: ItemId, maxBid: int, auto: AutoStep, handoff: Option<Ticket>)
    /** `MAX_BID_SET`; the step's commit waits for the item lock. */
    | MaxBidSetPending(itemId: ItemId, maxBid: int)

  /**
    `SET_MAX_BID`: check and store the ceiling without the lock, then one
    auto-bid step excluding the bidder who set it. Only a commit takes the
    item lock; when the lock is held the commit waits and `ResumeAutoBid`
    re-decides it once the lock is handed over.
  */
  method SetMaxBidHandler(store: ItemStore, locks: LockManager, ticket: Ticket, itemId: ItemId, maxBid: int,
                          bidderId: BidderId, socketId: BidderId, now: int)
    returns (r: MaxBidOutcome)
    requires store.Valid() && locks.Valid()
    modifies store, locks
    ensures store.Valid() && locks.Valid()
    ensures var v := DecideMaxBid(FindItem(old(store.items), itemId), maxBid);
      v != MaxBidOk ==>
        r == MaxBidRejected(itemId, v) && store.items == old(store.items) && locks.State() == old(locks.State())
    ensures var v := DecideMaxBid(FindItem(old(store.items), itemId), maxBid);
      var actual := ActualBidderId(bidderId, socketId);
      var stored := SetCeilingIn(old(store.items), itemId, actual, maxBid);
      var (step, after) := AutoBidIn(stored, itemId, actual, now);
      var acquired := Acquire(old(locks.State()), itemId, ticket);
      v == MaxBidOk ==>
        && (!step.AutoBidPlaced? ==>
              r == MaxBidSet(itemId, maxBid, step, None) && store.items == after && locks.State() == old(locks.State()))
        && (step.AutoBidPlaced? && acquired.0 == Queued ==>
              r == MaxBidSetPending(itemId, maxBid) && store.items == stored && locks.State() == acquired.1)
        && (step.AutoBidPlaced? && acquired.0 == Granted ==>
              && r == MaxBidSet(itemId, maxBid, step, Release(acquired.1, itemId).0)
              && store.items == after && locks.State() == Release(acquired.1, itemId).1)
  {
    var actual := ActualBidderId(bidderId, socketId);
    var item := store.GetItemById(itemId);
    var verdict := DecideMaxBid(item, maxBid);
    if verdict != MaxBidOk {
      return MaxBidRejected(itemId, verdict);
    }
    var ok := store.SetMaxBid(itemId, actual, maxBid);
    ghost var stored := store.items;
    SameIdsSameIndex(old(store.items), stored, itemId);
    var current := store.GetItemById(itemId);
    var decided := AutoBidDecision(current.value, actual);
    if decided.AutoBidPlaced? {
      var g := locks.AcquireLock(itemId, ticket);
      if g == Queued {
        return MaxBidSetPending(itemId, maxBid);
      }
      var step := ProcessAutoBids(store, itemId, actual, now);
      var handoff := locks.ReleaseLock(itemId);
      r := MaxBidSet(itemId, maxBid, step, handoff);
    } else {
      var step := ProcessAutoBids(store, itemId, actual, now);
      r := MaxBidSet(itemId, maxBid, step, None);
    }
  }

  /**
    A `SET_MAX_BID` auto-bid whose commit waited for the lock, once a release
    hands the lock over: the step is decided again against the item as it is
    now, then the lock is released.
  */
  method ResumeAutoBid(store: ItemStore, locks: LockManager, itemId: ItemId, exclude: BidderId, now: int)
    returns (step: AutoStep, handoff: Option<Ticket>)
    requires store.Valid() && locks.Valid() && locks.Held(itemId)
    modifies store, locks
    ensures store.Valid() && locks.Valid()
    ensures (step, store.items) == AutoBidIn(old(store.items), itemId, exclude, now)
    ensures (handoff, locks.State()) == Release(old(locks.State()), itemId)
  {
    step := ProcessAutoBids(store, itemId, exclude, now);
    handoff := locks.ReleaseLock(itemId);
  }

  datatype CancelAck = MaxBidCancelled(itemId: ItemId)

  /** `CANCEL_MAX_BID`: remove the bidder's ceiling if any, and always acknowledge. */
  method CancelMaxBidHandler(store: ItemStore, itemId: ItemId, bidderId: BidderId, socketId: BidderId)
    returns (ack: CancelAck)
    requires store.Valid()
    modifies store
    ensures store.Valid()
    ensures ack == MaxBidCancelled(itemId)
    ensures store.items == RemoveCeilingIn(old(store.items), itemId, ActualBidderId(bidderId, socketId))
  {
    var ok := store.RemoveMaxBid(itemId, ActualBidderId(bidderId, socketId));
    ack := MaxBidCancelled(itemId);
  }

  // ---------------------------------------------------------------------------
  // Worked examples: one item opened at 50 that ends at time 1000

  function Lot(): Item { NewItem("1", 50, 1000) }

  /** 60 is accepted over 50; afterwards 55 is too low and 60 is a tie lost to the first 60. */
  lemma RaceExample()
    ensures var (ev, after) := BidTransition([Lot()], "1", 60, "A", 10);
      && ev == BidUpdated("1", 60, "A", 10, NoAutoBid)
      && after[0].currentBid == 60 && after[0].currentBidder == Some("A")
      && BidTransition(after, "1", 55, "B", 11).0 == BidError("1", BidTooLow(60, false))
      && BidTransition(after, "1", 60, "B", 11).0 == BidError("1", BidTooLow(60, true))
  {
    var after := BidTransition([Lot()], "1", 60, "A", 10).1;
    assert FindIndex(after, "1") == Some(0);
  }

  /** The lot after one bidder registers a ceiling on it. */
  lemma CeilingOnLot(ceiling: int)
    ensures SetCeilingIn([Lot()], "1", "X", ceiling) == [Lot().(maxBids := [Ceiling("X", ceiling)])]
  {
    assert FindIndex([Lot()], "1") == Some(0);
  }

  /** A ceiling of 100 answers a human bid of 60 with an automatic 70. */
  lemma AutoBidExample()
    ensures var (ev, after) := BidTransition(SetCeilingIn([Lot()], "1", "X", 100), "1", 60, "A", 10);
      && ev == BidUpdated("1", 60, "A", 10, AutoBidPlaced("X", 70, 100))
      && after[0].currentBid == 70 && after[0].currentBidder == Some("X")
  {
    CeilingOnLot(100);
    var stored := [Lot().(maxBids := [Ceiling("X", 100)])];
    assert FindIndex(stored, "1") == Some(0);
    TransitionOnAccept(stored, "1", 60, "A", 10);
    var placed := ApplyBid(stored[0], 60, "A", 10);
    assert SelectCeiling(placed.maxBids, "A") == Some(0);
    assert AutoBidDecision(placed, "A") == AutoBidPlaced("X", 70, 100);
  }

  /** A ceiling of 65 cannot answer 60 with 70: the ceiling is dropped and the human bid stands. */
  lemma CeilingReachedExample()
    ensures var (ev, after) := BidTransition(SetCeilingIn([Lot()], "1", "X", 65), "1", 60, "A", 10);
      && ev == BidUpdated("1", 60, "A", 10, MaxBidReached("X", 65, 60))
      && after[0].currentBid == 60 && after[0].currentBidder == Some("A")
      && after[0].maxBids == []
  {
    CeilingOnLot(65);
    var stored := [Lot().(maxBids := [Ceiling("X", 65)])];
    assert FindIndex(stored, "1") == Some(0);
    TransitionOnAccept(stored, "1", 60, "A", 10);
    var placed := ApplyBid(stored[0], 60, "A", 10);
    assert SelectCeiling(placed.maxBids, "A") == Some(0);
    assert AutoBidDecision(placed, "A") == MaxBidReached("X", 65, 60);
    assert Delete([Ceiling("X", 65)], "X") == [];
  }

  /** Once the end time is reached every bid is refused, whatever its amount. */
  lemma EndedExample(amount: int, now: int)
    requires now >= 1000
    ensures BidTransition([Lot()], "1", amount, "A", now).0 == BidError("1", AuctionEnded)
  {
  }

  /**
    The step does not skip the bidder already in the lead: a further step after
    the automatic 70 has the same ceiling outbid itself with 80.
  */
  lemma LeaderNotSkippedExample()
    ensures var after := BidTransition(SetCeilingIn([Lot()], "1", "X", 100), "1", 60, "A", 10).1;
      && after[0].currentBidder == Some("X")
      && AutoBidIn(after, "1", "A", 11).0 == AutoBidPlaced("X", 80, 100)
  {
    AutoBidExample();
    var after := BidTransition(SetCeilingIn([Lot()], "1", "X", 100), "1", 60, "A", 10).1;
    assert FindIndex(after, "1") == Some(0);
    assert SelectCeiling(after[0].maxBids, "A") == Some(0);
  }
}
