# Live bidding: a Dafny model of the auction core

This project models the core of a live-bidding backend and its countdown helper:

- **Item store** (`backend/data/items.js`): items with a price, a bid history, per-bidder auto-bid ceilings and per-item analytics. Bids are committed in place. A global analytics snapshot is computed over all items.
- **Lock manager** (`backend/utils/lockManager.js`): one lock per item. Waiters are served in FIFO order.
- **Bid handlers** (`backend/socket/bidHandler.js`):
  - `BID_PLACED`, `SET_MAX_BID` and `CANCEL_MAX_BID`
  - `processAutoBids`, the step that lets an item's highest ceiling outbid the current price by 10
- **Countdown** (`frontend/src/utils/timeSync.js`): the server-clock offset, clamped time remaining, and the `"Hh Mm Ss"` text.

Modules and how each is modelled:

| module | file | what it holds |
|---|---|---|
| `Optional` | `optional.dfy` | the `Option` type; `null` is `None` |
| `Ceilings` | `ceilings.dfy` | the `maxBids` object as a sequence of `(bidder, ceiling)` entries with unique keys, in the JavaScript insertion order. Assigning to an existing key keeps its place; `delete` removes it. |
| `Auction` | `auction.dfy` | the item record; its invariant `WellFormed`; the pure effect of each store mutator on one item and on the item list |
| `Analytics` | `analytics.dfy` | what `getGlobalAnalytics` computes. The sort is a stable insertion sort, newest first. |
| `Store` | `store.dfy` | class `ItemStore`, whose `items` field the mutators reassign. The analytics loops are methods proved against the `Analytics` functions. |
| `Locks` | `locks.dfy` | lock-state transitions as pure functions; class `LockManager`, whose methods are proved equal to them; FIFO over any sequence of operations |
| `AutoBid` | `autobid.dfy` | selection and decision of one auto-bid step; its effect; the step iterated to a fixed point (`Cascade`) |
| `Bidding` | `bidding.dfy` | the three handlers as methods over an `ItemStore` and a `LockManager`; emitted events as returned values; worked examples |
| `TimeSync` | `timesync.dfy` | class `ServerClock`; the split of milliseconds; the countdown text and a parser for it |

How the source's runtime is represented:

- **Time.** Clock readings (`new Date()`, `Date.now()`) are the parameter `now` or `clientNow`. ISO timestamps are integers of milliseconds.
- **Waiting for a lock.** A request waiting on a promise is a `Ticket` in the key's queue. A handler that has to wait returns `Suspended`. Once a release names its ticket, a bid continues in `Bidding.RunGrantedBid` and an auto-bid commit in `Bidding.ResumeAutoBid`.
- **Bidder ids.** `bidderId || socket.id` is `ActualBidderId`; an empty string stands for every falsy id.

## Model

| member | source | states |
|---|---|---|
| Ceilings.Lookup | backend/data/items.js:130 | an entry exists exactly for bidders holding a ceiling, and the ceiling it returns is stored for that bidder |
| Ceilings.Put | backend/data/items.js:122 | assignment adds the key to the key set; a new key is appended at the end, and an existing one keeps the length |
| Ceilings.PutInPlace | backend/data/items.js:122 | an existing key keeps its place: only its entry is rewritten, and every other entry stays where it was |
| Ceilings.PutLookup | backend/data/items.js:122 | after assignment the key maps to the new ceiling and every other key maps to what it did before |
| Ceilings.PutKeepsUnique | backend/data/items.js:122 | assignment never creates a second entry for a key |
| Ceilings.Delete | backend/data/items.js:137 | `delete` removes the key from the key set; deleting an absent key changes nothing; deleting a present one shortens the table |
| Ceilings.DeleteInPlace | backend/data/items.js:137 | with one entry per key, deleting the key at index i gives the table without entry i: the other entries keep their order |
| Ceilings.DeleteLookup | backend/data/items.js:137 | after `delete` the key is absent and every other key maps to what it did before |
| Ceilings.DeleteKeepsUnique | backend/data/items.js:137 | deletion never creates a second entry for a key |
| Ceilings.DeleteIdempotent | backend/data/items.js:137 | deleting a key twice is the same as deleting it once |
| Auction.NewItem | backend/data/items.js:1-84 | a fresh item is priced at its starting price, has no bidder, no history, no ceilings and zeroed analytics, and satisfies the item invariant |
| Auction.ApplyBid | backend/data/items.js:99-113 | a commit appends exactly one record and one timeline point for the bid, sets price and leader to it, counts it, adds the bidder to the unique set, and leaves every other field alone |
| Auction.ApplyBidKeepsWellFormed | backend/data/items.js:95-116 | a commit above the current price keeps the item invariant: increasing history, price and leader from the last record, counters matching the history |
| Auction.FindIndex | backend/data/items.js:91 | `find` returns the first item with the id, or nothing exactly when no item has it |
| Auction.CommitBid | backend/data/items.js:95-116 | `updateItemBid` on the list changes no length and no id; an unknown id changes nothing; otherwise the first item with the id becomes `ApplyBid` of it and every other item is unchanged |
| Auction.SetCeilingIn | backend/data/items.js:118-124 | `setMaxBid` changes only the ceilings of the first item with the id, and keeps every item well formed |
| Auction.RemoveCeilingIn | backend/data/items.js:133-139 | `removeMaxBid` changes only the ceilings of the first item with the id, and keeps every item well formed |
| Auction.RemoveCeilingIdempotent | backend/data/items.js:133-139 | removing a ceiling twice equals removing it once |
| Store.ItemStore.constructor | backend/data/items.js:1-84 | the catalog starts with every item fresh and well formed |
| Store.ItemStore.GetItemById | backend/data/items.js:90-92 | a found item carries the id and is in the store; `null` exactly when no item has the id |
| Store.ItemStore.UpdateItemBid | backend/data/items.js:95-116 | returns true exactly for a known id; the new item list is the commit applied to the old one |
| Store.ItemStore.SetMaxBid | backend/data/items.js:118-124 | returns true exactly for a known id; stores the ceiling; keeps the store well formed |
| Store.ItemStore.GetMaxBid | backend/data/items.js:126-131 | returns a ceiling exactly when the item exists and holds a non-zero ceiling for the bidder (`|| null` turns 0 into `null`), and then it is the stored one |
| Store.ItemStore.RemoveMaxBid | backend/data/items.js:133-139 | returns true exactly for a known id; deletes the ceiling; keeps the store well formed |
| Store.ItemStore.GetGlobalAnalytics | backend/data/items.js:141-169 | the snapshot built by the loops equals the analytics function of the store |
| Store.SumTotalBids | backend/data/items.js:142 | the `reduce` loop sums the per-item bid counters |
| Store.CollectBidders | backend/data/items.js:143-146 | the `forEach` loop collects the union of the per-item bidder sets |
| Store.CollectRecent | backend/data/items.js:148-159 | the loop gathers the last five records of every item, in item order |
| Store.CountActive | backend/data/items.js:166 | the loop counts the items whose end time is after now |
| Analytics.LastRecords | backend/data/items.js:150 | `slice(-5)` keeps at most five records, and they are the end of the history |
| Analytics.InsertKeepsNewestFirst | backend/data/items.js:161 | inserting into a newest-first list keeps it newest first |
| Analytics.InsertAddsOne | backend/data/items.js:161 | inserting adds exactly that element and loses none |
| Analytics.SortNewestFirst | backend/data/items.js:161 | the sort returns a newest-first permutation of its input |
| Analytics.TotalBidsCountsHistory | backend/data/items.js:142 | for well-formed items, the total bid count is the number of recorded bids |
| Analytics.HistoryBiddersMeaning | backend/data/items.js:109 | a bidder is in the history's bidder set exactly when some record names them |
| Analytics.TrackedBidders | backend/data/items.js:143-146 | when every item's bidder set matches its history, the union is exactly the bidders some history names |
| Analytics.AllBiddersMeaning | backend/data/items.js:143-146 | a bidder is counted exactly when some item's history names them |
| Analytics.ActiveAuctionsShrinkOverTime | backend/data/items.js:166 | the active count never exceeds the item count and never grows as time passes |
| Analytics.RecentCandidatesBound | backend/data/items.js:148-159 | at most five candidates per item |
| Analytics.RecentCandidatesFromHistory | backend/data/items.js:148-159 | every candidate comes from some item's last five records |
| Analytics.RecentActivityShape | backend/data/items.js:161-167 | exactly min(10, number of candidates) entries, newest first, drawn from the candidates |
| Analytics.RecentActivityIsMostRecent | backend/data/items.js:161-167 | a candidate left out is no newer than any entry kept |
| Analytics.GlobalAnalytics | backend/data/items.js:141-168 | the snapshot of total bids, distinct bidders, active auctions and recent activity. It has no contract of its own: its parts are stated by TotalBidsCountsHistory, AllBiddersMeaning, ActiveAuctionsShrinkOverTime, RecentActivityShape and RecentActivityIsMostRecent, and Store.ItemStore.GetGlobalAnalytics equals it |
| Analytics.TakeNewest | backend/data/items.js:167 | the first ten of a newest-first list are a sub-multiset of it, and anything cut is no newer than what is kept |
| Locks.Acquire | backend/utils/lockManager.js:9-23 | granted exactly when the key is free; afterwards the key is held; a grant leaves the queue alone, a wait appends the ticket; other keys unchanged; the invariant (a key with waiters is held) kept |
| Locks.Release | backend/utils/lockManager.js:25-36 | with waiters, the head is handed the lock and the key stays held; without, the key becomes free; other keys unchanged; invariant kept |
| Locks.GrantIgnoresCaller | backend/utils/lockManager.js:11 | whether a request is granted depends on the key's state only, not on who asks |
| Locks.ReacquireQueuesBehindHolder | backend/utils/lockManager.js:11-22 | a second acquire by a handler already holding the key is queued as the only waiter; every further acquire is queued too, and only a release of the key hands it the lock |
| Locks.RunIsFifo | backend/utils/lockManager.js:17-35 | over any sequence of acquires and releases, the queued tickets are handed the lock in the order they queued |
| Locks.RunKeepsOtherKeys | backend/utils/lockManager.js:9-36 | operations on one key never change another key's lock or queue |
| Locks.RunKeepsInv | backend/utils/lockManager.js:9-36 | every sequence of operations keeps the invariant that a key with waiters is held |
| Locks.LockManager.constructor | backend/utils/lockManager.js:3-8 | both maps start empty |
| Locks.LockManager.AcquireLock | backend/utils/lockManager.js:9-23 | the method's grant and new state equal the `Acquire` transition |
| Locks.LockManager.ReleaseLock | backend/utils/lockManager.js:25-36 | the method's handoff and new state equal the `Release` transition |
| AutoBid.SelectCeiling | backend/socket/bidHandler.js:148-154 | nothing exactly when every entry belongs to the excluded bidder; otherwise a non-excluded entry with the largest ceiling, the first among equals (stable sort) |
| AutoBid.StepAtPrice | backend/socket/bidHandler.js:148-159 | the step decided against a given price: a step names a non-excluded bidder that has that ceiling; a placed auto-bid is that price plus 10 and within the ceiling; a reached ceiling lies strictly between that price and that price plus 10 |
| AutoBid.ApplyAutoStep | backend/socket/bidHandler.js:163-194 | no step changes nothing; a placed auto-bid sets price and leader and appends exactly its record, keeping the ceilings; a reached ceiling removes that bidder's key and keeps price, leader and history; id and end time never change |
| AutoBid.AutoBidDecision | backend/socket/bidHandler.js:144-196 | no step exactly when no other bidder's ceiling is above the price; otherwise the top ceiling bids price+10 when that fits, and is reported reached when it lies in (price, price+10) |
| AutoBid.AutoStepKeepsWellFormed | backend/socket/bidHandler.js:156-195 | a step keeps the item invariant, keeps id and end time, only appends to the history, and never lowers the price; a placed auto-bid strictly raises it |
| AutoBid.AutoBidIn | backend/socket/bidHandler.js:144-196 | on the item list: an unknown item gives no step; otherwise the step is decided from that item's current state and applied to that item only |
| AutoBid.HeadroomFalls | backend/socket/bidHandler.js:157-163 | raising the price by 10 under a ceiling it still fits strictly lowers the total headroom |
| AutoBid.HeadroomMonotone | backend/socket/bidHandler.js:157 | for prices p <= q, the headroom at q is at most the headroom at p |
| AutoBid.HeadroomOfDelete | backend/socket/bidHandler.js:194 | removing a ceiling never increases headroom |
| AutoBid.StepLowersMeasure | backend/socket/bidHandler.js:156-195 | every step that does something lowers ceilings-plus-headroom, so repeated steps terminate |
| AutoBid.Cascade | backend/socket/bidHandler.js:144-196 | repeating the step ends in a state where no step applies, keeps the invariant, never lowers the price and only appends to the history |
| AutoBid.StalePriceLowersBid | backend/socket/bidHandler.js:122-163 | with ceilings X 70 and Y 55 at price 50, the step Y's `SET_MAX_BID` decides is X's 60; after A's 80 commits, A's own step does nothing, and the waiting step then commits 60, below the price, breaking the invariant |
| AutoBid.StaleRunReachable | backend/socket/bidHandler.js:19-61 | every state of that run is well formed, Y's 55 and A's 80 pass their handlers' checks, and Y's entry follows X's |
| Bidding.ActualBidderId | backend/socket/bidHandler.js:60 | the given bidder id when present, else the socket id |
| Bidding.DecideBid | backend/socket/bidHandler.js:21-58 | unknown item, then ended (now at or after the end), then too low (amount at most the price, a tie flagged as outbid, price reported), else accepted; each verdict exactly under its condition |
| Bidding.BidTransition | backend/socket/bidHandler.js:21-73 | the critical section of `BID_PLACED` on the item list. It has no contract of its own: Bidding.BidTransitionOutcomes, Bidding.TransitionOnAccept and Bidding.AcceptedBid state it, and Bidding.RunGrantedBid equals it |
| Bidding.BidTransitionOutcomes | backend/socket/bidHandler.js:21-75 | a rejection changes no item; an acceptance records the human bid first, touches only its item, leaves the price at or above the bid, which is above the old price, and keeps every item well formed |
| Bidding.TransitionOnAccept | backend/socket/bidHandler.js:60-73 | an accepted bid commits to the item found, then runs one auto-bid step on the committed item, excluding the bidder |
| Bidding.AcceptedBid | backend/socket/bidHandler.js:60-73 | an accepted bid keeps every item well formed, records the human bid first, touches only its own item, and leaves the price at or above the bid |
| Bidding.AcceptedItem | backend/socket/bidHandler.js:61-73 | on one well-formed item, the commit and the step keep it well formed, keep the price at or above the bid, and put the human bid right after the old history |
| Bidding.RunGrantedBid | backend/socket/bidHandler.js:19-91 | under the held lock, the event and items equal the bid transition, and the lock is released on every path |
| Bidding.PlaceBid | backend/socket/bidHandler.js:13-92 | a held lock suspends the request and changes no item; a granted one runs and releases; a bid on a free item leaves the item free |
| Bidding.ProcessAutoBids | backend/socket/bidHandler.js:144-196 | one step, run under the caller's lock, equals the pure auto-bid step on the store |
| Bidding.DecideMaxBid | backend/socket/bidHandler.js:100-112 | unknown item, then a ceiling at or below the price (price reported), else accepted; each verdict exactly under its condition |
| Bidding.SetMaxBidHandler | backend/socket/bidHandler.js:94-123 | a rejection stores nothing and takes no lock; otherwise the ceiling is stored. A step without a commit needs no lock. A commit runs under the item lock and releases it, or waits for the lock with the ceiling stored. |
| Bidding.ResumeAutoBid | backend/socket/bidHandler.js:157-185 | a waiting auto-bid, once handed the lock, re-decides the step from the current item state and then releases |
| Bidding.CancelMaxBidHandler | backend/socket/bidHandler.js:125-136 | always acknowledges, whether or not a ceiling existed, and removes the bidder's ceiling |
| Bidding.RaceExample | backend/socket/bidHandler.js:43-58 | at price 50, 60 is accepted; afterwards 55 is too low and a second 60 is an outbid tie |
| Bidding.AutoBidExample | backend/socket/bidHandler.js:156-171 | a ceiling of 100 answers a human 60 with an automatic 70 and takes the lead |
| Bidding.CeilingReachedExample | backend/socket/bidHandler.js:186-195 | a ceiling of 65 cannot answer 60 with 70: it is removed and the human bid stands |
| Bidding.EndedExample | backend/socket/bidHandler.js:31-40 | once the end time is reached every bid is refused as ended |
| Bidding.LeaderNotSkippedExample | backend/socket/bidHandler.js:148-150 | the selection excludes only the triggering bidder, so a leading ceiling is selected again and outbids itself |
| TimeSync.ServerClock.constructor | frontend/src/utils/timeSync.js:3 | the offset starts at zero |
| TimeSync.ServerClock.GetServerTime | frontend/src/utils/timeSync.js:14-16 | server time differs from client time by exactly the offset |
| TimeSync.ServerClock.SetServerTimeOffset | frontend/src/utils/timeSync.js:6-11 | right afterwards the server time read at that client instant is the received server time, and it advances with the client clock |
| TimeSync.ServerClock.GetTimeRemaining | frontend/src/utils/timeSync.js:19-24 | never negative; zero exactly when the end is not after server now; otherwise end minus server now |
| TimeSync.RemainingCountsDown | frontend/src/utils/timeSync.js:19-24 | the remaining time never goes up as the client clock advances, and falls one for one until it reaches zero |
| TimeSync.SplitBounds | frontend/src/utils/timeSync.js:30-32 | seconds and minutes are below 60; hours, minutes and seconds rebuild the duration to within one second; hours are positive exactly from one hour |
| TimeSync.NatToDecimal | frontend/src/utils/timeSync.js:35-39 | a number is written as a non-empty string of digits with no leading zero |
| TimeSync.DecimalRoundTrip | frontend/src/utils/timeSync.js:35-39 | reading back a written number gives the number |
| TimeSync.DigitPrefixLen | frontend/src/utils/timeSync.js:35-39 | the leading run of digits is all digits and is followed by a non-digit or the end |
| TimeSync.FormatTimeRemaining | frontend/src/utils/timeSync.js:27-41 | "Ended" exactly for a duration at or below zero; an hours part exactly from one hour; a minutes part exactly from one minute |
| TimeSync.CountdownLetters | frontend/src/utils/timeSync.js:34-40 | the text starts with a digit, has an hours part exactly when hours are positive, and a minutes part exactly when hours or minutes are positive |
| TimeSync.FormatRoundTrip | frontend/src/utils/timeSync.js:27-41 | reading the text back gives exactly the hours, minutes and seconds the duration splits into, and "Ended" reads as no duration |

## Left out

- Socket wiring, `emit`/`io.to` broadcasts, `SERVER_TIME` on connect, `disconnect` and console logging. Emitted events are returned values; message texts are not modelled.
- `ANALYTICS_UPDATE` broadcasts after commits: the snapshot is only modelled as `Store.ItemStore.GetGlobalAnalytics`.
- Real asynchrony: promises, the event loop and interleaving between handlers. A waiting request is a ticket in a queue, and its handler continues in a separate method.
- Clock reads and ISO date parsing and printing. The two `new Date()` reads in one commit (record timestamp and timeline time) are one `now`.
- Floating point, non-numeric bid amounts and JavaScript's loose comparisons: amounts are integers.
- Object key enumeration puts integer-like keys first in ascending order. The ceiling table keeps insertion order for every key, which matches JavaScript only for bidder ids that are not integer-like.
- Bidder ids that name `Object.prototype` properties (`__proto__`, `toString`, `constructor`, …) are not modelled. In the source `maxBids` is a plain object literal. Assigning a number to `__proto__` stores nothing, yet `SET_MAX_BID` still acknowledges it, and reading `toString` returns an inherited function, not `null`. The model treats the table as a plain key-value map, so `Ceilings.Put`, `Ceilings.Lookup` and `Store.ItemStore.GetMaxBid` store and read such ids like any other.
- Display fields (title, description, image), the six concrete catalog entries and `getAllItems`. The catalog is a parameter of the store's constructor.
- The `catch` branch of `BID_PLACED`: none of the modelled operations throws.
- The `Failed to update bid` branch (backend/socket/bidHandler.js:76-81) is unreachable. The item was just found under the lock, and items are never removed. `Bidding.RunGrantedBid` proves the commit succeeds instead of modelling that branch.
- `processAutoBids` runs one step per call, as the source does. It is not looped until quiet, so a single human bid triggers at most one automatic answer. The repeated step is modelled separately as `AutoBid.Cascade`.
- The selection does not skip the current leader (backend/socket/bidHandler.js:148-150). Two competing ceilings therefore do not alternate: repeating the step lets the top ceiling outbid itself (see `Bidding.LeaderNotSkippedExample`).
- Bidding.PlaceBid and Bidding.RunGrantedBid do not reproduce the nested `acquireLock` of `processAutoBids` (backend/socket/bidHandler.js:160) on the `BID_PLACED` path: the step runs under the lock the handler already holds. The as-written self-deadlock is shown by `Locks.ReacquireQueuesBehindHolder` (see Findings).
- `SET_MAX_BID` validates and stores the ceiling without the item lock, as the source does. Only the auto-bid commit takes the lock.
- Analytics.SortNewestFirst: the model proves the result is sorted and a permutation but not that it is stable. The sort is an insertion sort that keeps entries with equal timestamps in their candidate order, as the stable `Array.prototype.sort` of ES2019 does, but that stability is not stated as a lemma.
- The frontend's React components and their client-side copies of the checks.

## Findings

| source | as written | input that shows it | evidently intended | confidence | as-written member | corrected member |
|---|---|---|---|---|---|---|
| backend/socket/bidHandler.js:160 | `BID_PLACED` holds the item lock (line 19) while awaiting `processAutoBids` (line 73). That function calls `acquireLock` again on the same item. The second request queues behind its own caller. The caller's `finally` release (line 90) runs only after the second request is granted, so the item stays locked forever. | a bid of 60 on an item at 50 while some other bidder holds a ceiling of 100 | the auto-bid step runs under the lock the handler already holds, and the lock is released once | not executed | Locks.ReacquireQueuesBehindHolder | Bidding.RunGrantedBid |
| backend/socket/bidHandler.js:157-163 | The commit amount `currentBid + 10` is computed from the price read before `await acquireLock`. When the lock is busy, another bid can raise the price meanwhile. The late commit then sets the price below the bid before it and breaks the increasing history. | a lot at 50 where X holds a ceiling of 70. A's `BID_PLACED` of 80 is granted the lock (line 19). Before A's commit (line 61), Y's `SET_MAX_BID` of 55 decides X's auto-bid of 60 and queues at line 160. A commits 80; A's own auto-bid step finds no ceiling above 80, so A releases. The queued step then commits 60 | the step is decided again against the item's state once the lock is held | not executed | AutoBid.StalePriceLowersBid | Bidding.ResumeAutoBid |
