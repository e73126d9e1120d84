# Auction house: bids, deadlines and the expiry sweep

This project models the core of a small Django auction site. Users publish
*vendues*, and each vendue becomes an auction with a base price and a
deadline. Other users bid on an open auction. An auction's current bid is its
highest bid, or the base price when no one has bid yet. A sweep runs before
every auction detail page. It closes each active auction whose deadline has
passed. It then credits the highest bidder with a win, sends that bidder a
"won" alert, and sends every other distinct bidder a "lost" alert.

Four modules, one per layer of the app:

- `Models` (`models.dfy`) covers the records: profile, auction, bid, vendue and
  alert. It also covers the two derived quantities of an auction: its current
  bid and the whole seconds left before it ends. Money is integer cents.
  Instants are integer microseconds, so the truncation to whole seconds is
  exact and visible.
- `Views` (`views.dfy`) covers the decisions the request handlers take: the
  guard chain of a posted bid, the deadline of a new auction, and the guard
  of a delete request.
- `Expiry` (`expiry.dfy`) specifies the sweep as functions on values:
  - which auctions are due;
  - which bid wins;
  - which alerts are written;
  - how the win counters change.
- `Store` (`store.dfy`) holds the class `AuctionHouse`. Its fields are the
  tables the app updates: auctions, the bid log, alerts, vendues and
  profiles. Its methods are the operations that change them. `Sweep` settles
  the due auctions one at a time in a loop, and its contract ties the new
  state to the `Expiry` functions. Every operation of the app requires and
  keeps the store invariant `Valid()`. The exception is `Conclude`, the inner
  step of `Settle` that writes alerts and counters; it leaves the tables the
  invariant reads unchanged. The invariant says:
  - every auction id was handed out;
  - every bid is on an existing auction, by someone other than its owner,
    and above the base price;
  - on each auction, bid amounts strictly increase.

The clock (`timezone.now()`) is a parameter `now`. The logged-in user is a
parameter `bidder` or `requester`. Whether the request is a POST is a
parameter `isPost`.

In these points the model follows the code:

- There is no separate "settling" state. An auction is either active or
  closed. Closing, awarding and alerting happen in one sweep step.
- The sweep closes an auction only once its deadline is strictly in the past
  (`ends_at < now`). The bid handler already refuses bids when fewer than one
  whole second remains. So in the last second an auction is still active but
  takes no bids (`Views.LastSecondRefused`).
- The owner may delete an auction at any time, including after it has bids
  or has closed. Its bids are deleted with it.
- An accepted bid writes no alert. The "outbid" alert exists only in the
  websocket consumer, which is not part of this model.

## Model

| member | source | states |
|---|---|---|
| Models.NewProfile | auctions/models.py:9-11 | A new user's vendue, tender and win counters all start at 0. |
| Models.NewAuction | auctions/models.py:30 | A new auction is active and keeps the owner, base price and deadline it was given. |
| Models.BidsOn | auctions/models.py:47 | An auction's bid list holds exactly the logged bids on that auction. |
| Models.TopBid | auctions/models.py:37 | There is no top bid exactly when there are no bids. Otherwise the top bid is one of the bids, and no bid is higher. |
| Models.CurrentBid | auctions/models.py:35-38 | With no bids the current bid is the base price. Otherwise it is the amount of some bid, and every bid is at most that amount. |
| Models.TimeRemaining | auctions/models.py:40-43 | The result is 0 once the deadline is reached. Otherwise it is the positive time left truncated to whole seconds: `r` seconds ≤ time left < `r+1` seconds. |
| Models.LastSecondCountsAsZero | auctions/models.py:42-43 | The whole-second count is 0 exactly when less than one second is left. |
| Models.DropBidsOn | auctions/models.py:47 | Deleting an auction cascades to its bids: the log keeps exactly the bids on other auctions. |
| Models.DropBidsOnRemovesAll | auctions/models.py:47 | After the cascade, the deleted auction has no bids left. |
| Models.DropBidsOnKeepsOthers | auctions/models.py:47 | After the cascade, every other auction's bid list is the same sequence as before. |
| Models.BidsOnAppend | auctions/views.py:74-75 | A new bid extends its own auction's bid list by that bid and leaves every other auction's list unchanged. |
| Models.AppendKeepsIncreasing | auctions/views.py:67-75 | Saving only bids above every earlier bid keeps amounts strictly increasing on every auction. |
| Models.DropKeepsIncreasing | auctions/models.py:47 | The cascade delete keeps amounts strictly increasing on every auction. |
| Models.TopBidOfIncreasing | auctions/utils.py:32-36 | With strictly increasing amounts, the top bid is the latest bid. So the winner is unique, and the current bid is the latest amount. |
| Models.RaisedCurrentBid | auctions/views.py:67-71 | A bid above the current bid becomes the current bid, strictly above the old one. |
| Models.PlacedBidBecomesCurrent | auctions/views.py:67-75 | After a bid above the current bid is saved, its amount is its auction's current bid. |
| Models.CurrentBidAtLeastBase | auctions/models.py:35-38 | When every bid is above the base price, the current bid is at least the base price. With any bid, it is strictly above. |
| Views.OpenForBids | auctions/views.py:63 | An auction takes bids exactly when it is active and its deadline is at least one second after `now`. |
| Views.Decide | auctions/views.py:45-75 | Each early return has its own refusal, taken in the source's order. A bid by the owner is refused as such. Otherwise a missing amount is refused as missing and an unparseable one as invalid. A well-formed amount on a closed auction, or one with less than a whole second left, is refused as not active. On an open auction, an amount not above the current bid is refused as too low. A bid is accepted exactly when none of these applies. An accepted amount is the posted one and above every earlier bid. It is above the base price when there is no earlier bid, or when every earlier bid is above the base price (as the store invariant keeps them). |
| Views.CountTender | auctions/views.py:79-81 | Only the bidder's tender counter changes, by +1. Every other profile is unchanged. A user without a profile changes nothing. |
| Views.Deadline | auctions/views.py:113 | A new auction ends no earlier than its publication time, with exactly `minutes`·60 whole seconds left. |
| Views.DecideDelete | auctions/views.py:196-206 | A delete succeeds exactly when it is a POST by the owner. A non-POST gets "not allowed" (405) first, even from the owner. A POST by anyone else gets "forbidden" (403). |
| Views.NoBidAfterClose | auctions/views.py:63-65 | A closed auction, or one whose deadline is reached, refuses every bid whatever the amount. |
| Views.ClosingExpiredKeepsDecision | auctions/views.py:41-65 | Closing an auction whose deadline has passed does not change the outcome of any bid on it. |
| Views.LastSecondRefused | auctions/views.py:63-65 | In the last second before the deadline, an active auction refuses a well-formed bid by a non-owner as no longer active. |
| Expiry.Close | auctions/utils.py:24-29 | After the sweep looks at an auction, it is active exactly when it was active and its deadline is not strictly past. Its owner, base price and deadline are unchanged. |
| Expiry.CloseExpired | auctions/utils.py:13-29 | The sweep keeps every auction id. It leaves no auction both active and past its deadline. It changes only such auctions, and each of those only to inactive. |
| Expiry.Due | auctions/utils.py:13 | The due list holds exactly the handed-out ids of auctions that are active and strictly past their deadline. |
| Expiry.DueAscending | auctions/utils.py:13-15 | The due ids come in strictly ascending order, so no auction is settled twice in one sweep. |
| Expiry.CloseEach | auctions/utils.py:15-29 | Closing the auctions of a list one at a time keeps every auction id. |
| Expiry.CloseEachAt | auctions/utils.py:24-29 | Closing auctions one at a time makes inactive exactly those visited and leaves the rest as they were. |
| Expiry.CloseEachDue | auctions/utils.py:13-29 | Closing the due auctions one at a time gives the same table as `CloseExpired`. |
| Expiry.Winner | auctions/utils.py:32-36 | With no bids on the auction there is no winner. Otherwise the winning bid is a bid on that auction, and no bid on it is higher. |
| Expiry.OtherBidders | auctions/utils.py:50 | The loser list never holds the winner and has at most one entry per bid. |
| Expiry.OtherBiddersMembers | auctions/utils.py:50 | The loser list holds every bidder other than the winner, each exactly once. |
| Expiry.OtherBiddersAsSet | auctions/utils.py:50 | The loser list has as many entries as there are distinct losing bidders. |
| Expiry.LostNotes | auctions/utils.py:53-58 | The batch holds one alert per loser id, each a "lost" alert about the settled auction. |
| Expiry.LostNotesShape | auctions/utils.py:53-58 | One "lost" alert per loser, in loser order. |
| Expiry.LostNotesCount | auctions/utils.py:53-58 | Over distinct losers, each loser gets exactly one "lost" alert for the auction, and no one else gets one. |
| Expiry.AwardWin | auctions/utils.py:40 | Only the winner's win counter changes, by +1. A winner without a profile changes nothing. |
| Expiry.SettlementNotes | auctions/utils.py:31-66 | Settling writes alerts exactly when the auction has bids. Every alert is about that auction. The first alert is a "won" alert carrying an amount no bid exceeds. |
| Expiry.SettlementNotesExact | auctions/utils.py:31-66 | With no bids, no alert is written. Otherwise the first alert is a "won" alert to the bidder of a maximal bid, carrying that amount. Every distinct other bidder gets exactly one "lost" alert. That makes 1 + (number of losers) alerts. |
| Expiry.SweepNotes | auctions/utils.py:15-66 | Every alert written by a sweep is about one of the swept auctions. |
| Expiry.SweepNotesExact | auctions/utils.py:15-61 | Across a sweep, the alerts about each auction are exactly those of its own settlement. Auctions outside the sweep get none. |
| Expiry.Award | auctions/utils.py:15-40 | Settling the swept auctions keeps every profile and adds none. |
| Expiry.AwardExact | auctions/utils.py:15-40 | After a sweep, each user's win counter has grown by the number of swept auctions that user won. Nothing else changes. |
| Expiry.NothingDueAfterSweep | auctions/utils.py:13 | Right after a sweep at `now`, nothing is due at `now`. |
| Expiry.CloseExpiredIdempotent | auctions/utils.py:22-29 | Sweeping twice at the same instant closes nothing more, and no closed auction is reopened. |
| Expiry.SecondSweepChangesNothing | auctions/utils.py:13-29 | A second sweep at the same instant writes no alert and changes no counter or auction. |
| Store.SweepKeepsDecision | auctions/views.py:40-65 | The sweep before a bid neither adds nor removes the auction, and it does not change how the bid is decided. |
| Store.ConsistentAfterDelete | auctions/models.py:47 | Deleting an auction together with its bids keeps the store invariant. |
| Store.LostAlerts | auctions/utils.py:53-58 | The loop builds exactly one "lost" alert per loser id, in order. |
| Store.AuctionHouse.AddProfile | auctions/models.py:9-11 | A registered user gets a fresh profile with all counters 0. Nothing else changes. |
| Store.AuctionHouse.CreateAuction | auctions/views.py:98-123 | The vendue is recorded and the seller's vendue counter goes up by 1. A new auction gets a never-used id. It is active, has no bids, its current bid is the base price, and it ends `minutes`·60 whole seconds from now. Nothing else changes. |
| Store.AuctionHouse.PlaceBid | auctions/views.py:42-81 | The outcome is "no such auction" for an unknown id, else the guard chain's decision. An accepted bid is appended to the log and the bidder's tender counter goes up by 1. A refused bid changes nothing. The invariant is kept. |
| Store.AuctionHouse.DeleteAuction | auctions/views.py:191-208 | The outcome is 404 for an unknown id, else the delete guard's decision. A successful delete removes the auction and exactly its bids, and every other auction's bid list is unchanged. Otherwise nothing changes. |
| Store.AuctionHouse.Conclude | auctions/utils.py:31-66 | Appends exactly the settlement alerts of the auction. When it has bids, increments the winner's win counter. |
| Store.AuctionHouse.Settle | auctions/utils.py:22-66 | The auction becomes inactive, its settlement alerts are appended, and its winner (if any) gets +1 win. The rest of the store is unchanged and the invariant is kept. |
| Store.AuctionHouse.SettleAll | auctions/utils.py:15-66 | Settling a list of distinct active auctions in order closes exactly those auctions. It appends their settlement alerts in that order and awards each one's winner. |
| Store.AuctionHouse.Sweep | auctions/utils.py:5-66 | The auction table becomes `CloseExpired` of the old one, the alerts and counters are those of settling the due auctions, and the bids are unchanged. |
| Store.AuctionHouse.Detail | auctions/views.py:39-81 | The sweep runs first, then the bid is decided on the swept store. The outcome is what the guard chain gives on the auction as it was before the sweep. |

## Left out

- The websocket consumer (`auctions/consumers.py`) is not part of this model. This leaves out:
  - its second bidding path, which checks neither the owner nor the deadline;
  - its float conversion of amounts;
  - the "outbid" alert;
  - the live broadcast to the auction's group.
- Locking and interleaving are not modelled; each operation is one atomic step.
  - In this sequential model, the sweep's re-read under the row lock always finds the auction present and active. `SettleAll` asserts this instead of keeping a branch that cannot be taken.
  - The unlocked check-then-save race in the bid handler is not modelled.
- Decimal parsing: the posted amount is `Missing`, `Unparseable` or an amount in whole cents. NaN, infinities, amounts with more than two decimal places, and the 12-digit column limit are not modelled.
- `total_seconds()` is a float. The model computes the whole seconds exactly from integer microseconds.
- Tie-breaking: ordering by descending amount leaves the choice among equal maxima to the database. The model takes the earliest such bid. Under the store invariant, amounts on one auction strictly increase, so the top bid is unique anyway (`Models.TopBidOfIncreasing`).
- The order in which the sweep visits due auctions is up to the database. The model visits them in ascending id order.
- Titles, descriptions, categories, images, avatars and `created_at` timestamps are not modelled. Alert message texts and the `read` flag are not modelled either; alerts are kept by kind, user, auction and amount.
- Flash messages, redirects, page rendering, the GET path of the detail page, and the listing, bids, login, logout and register views are not part of this model.
- `VendueForm` validation (`auctions/forms.py`) is not part of this model. `CreateAuction` takes already-validated fields.
- The `isinstance(request.user, UserProfile)` tests always hold, because the user model is `UserProfile`. The model instead requires that the acting user has a profile.
- Deleting users, and the cascades a user deletion triggers, are not modelled.
- Expiry.OtherBidders: the order of the loser ids is up to the database, because the distinct query has no ordering. The model lists losers in the order of their first bid, which fixes the order of the "lost" alerts. The counting lemmas (`Expiry.LostNotesCount`, `Expiry.SettlementNotesExact`, `Expiry.SweepNotesExact`) do not depend on that order.
- Store.AuctionHouse.Detail: the handler reads the clock twice, once for the sweep and again inside the time-remaining check. The model uses one instant `now` for both. A later second reading only leaves less time, so it can only turn an acceptance into a "not active" refusal.
- Store.AuctionHouse.PlaceBid: its own contract does not say that the accepted bid becomes the auction's current bid. `Models.PlacedBidBecomesCurrent` states that for the log `PlaceBid` produces.
