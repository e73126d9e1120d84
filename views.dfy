/**
 * The decisions the request handlers take before they touch the store:
 * whether a posted bid is accepted (and, if not, which guard refused it),
 * when an auction created from a vendue ends, and whether a delete request
 * is honoured.
 */
module Views {
  import opened Models

  /** The posted `amount` field, after an attempt to read it as a decimal. */
  datatype BidInput =
    | Missing                // absent or empty
    | Unparseable            // present but not a decimal
    | Amount(cents: Cents)

  /** Why a posted bid was refused, one reason per early return of the handler. */
  datatype Rejection =
    | NoSuchAuction          // the auction does not exist (a 404)
    | OwnAuction
    | NoAmount
    | BadAmount
    | NotActive
    | TooLow

  datatype BidOutcome = Accepted(amount: Cents) | Rejected(why: Rejection)

  datatype DeleteOutcome =
    | NotFound               // 404
    | NotAllowed             // 405, the request was not a POST
    | Forbidden              // 403, the requester is not the owner
    | Deleted

  /** An auction takes bids while it is active and at least one whole second remains. */
  function OpenForBids(a: Auction, now: Micros): (r: bool)
    ensures r <==> a.isActive && now + MicrosPerSecond <= a.endsAt
  {
    a.isActive && TimeRemaining(a.endsAt, now) > 0
  }

  /**
   * The guard chain of a posted bid on auction `a`, whose bids so far are
   * `bs`. The guards are tried in this order: the bidder owns the auction,
   * no amount, an amount that is not a decimal, the auction is closed, the
   * amount does not beat the current bid.
   */
  function Decide(a: Auction, bs: seq<Bid>, bidder: UserId, input: BidInput, now: Micros): (r: BidOutcome)
    ensures bidder == a.owner ==> r == Rejected(OwnAuction)
    ensures r.Accepted? <==>
              bidder != a.owner && input.Amount? && OpenForBids(a, now) && input.cents > CurrentBid(a.basePrice, bs)
    ensures r.Accepted? ==> r.amount == input.cents
    ensures r.Accepted? ==> (bs == [] ==> r.amount > a.basePrice) && forall b :: b in bs ==> b.amount < r.amount
    ensures r.Accepted? && (forall b :: b in bs ==> b.amount > a.basePrice) ==> r.amount > a.basePrice
    ensures r.Rejected? ==> r.why != NoSuchAuction
    ensures bidder != a.owner && input.Missing? ==> r == Rejected(NoAmount)
    ensures bidder != a.owner && input.Unparseable? ==> r == Rejected(BadAmount)
    ensures bidder != a.owner && input.Amount? && !OpenForBids(a, now) ==> r == Rejected(NotActive)
    ensures bidder != a.owner && input.Amount? && OpenForBids(a, now) && input.cents <= CurrentBid(a.basePrice, bs) ==>
              r == Rejected(TooLow)
  {
    if bidder == a.owner then Rejected(OwnAuction)
    else if input.Missing? then Rejected(NoAmount)
    else if input.Unparseable? then Rejected(BadAmount)
    else if !OpenForBids(a, now) then Rejected(NotActive)
    else if input.cents <= CurrentBid(a.basePrice, bs) then Rejected(TooLow)
    else Accepted(input.cents)
  }

  /** The profiles after user `u` places a bid: that user's bid counter goes up by one. */
  function CountTender(users: map<UserId, Profile>, u: UserId): (r: map<UserId, Profile>)
    ensures r.Keys == users.Keys
    ensures u in users ==> r[u] == users[u].(tendersPlaced := users[u].tendersPlaced + 1)
    ensures forall v :: v in users && v != u ==> r[v] == users[v]
  {
    if u in users then users[u := users[u].(tendersPlaced := users[u].tendersPlaced + 1)] else users
  }

  /** The deadline of an auction published at `now` for `minutes` minutes. */
  function Deadline(now: Micros, minutes: nat): (endsAt: Micros)
    ensures endsAt >= now
    ensures TimeRemaining(endsAt, now) == minutes * 60
  {
    now + minutes * 60 * MicrosPerSecond
  }

  /** A delete request on an existing auction succeeds only as a POST by its owner. */
  function DecideDelete(a: Auction, requester: UserId, isPost: bool): (r: DeleteOutcome)
    ensures r == Deleted <==> isPost && requester == a.owner
    ensures r != NotFound
    ensures !isPost ==> r == NotAllowed
    ensures isPost && requester != a.owner ==> r == Forbidden
  {
    if !isPost then NotAllowed
    else if a.owner != requester then Forbidden
    else Deleted
  }

  /** A closed auction, or one past its deadline, accepts no bid whatever the amount. */
  lemma NoBidAfterClose(a: Auction, bs: seq<Bid>, bidder: UserId, input: BidInput, now: Micros)
    requires !a.isActive || a.endsAt <= now
    ensures Decide(a, bs, bidder, input, now).Rejected?
  {
  }

  /**
   * Closing an auction whose deadline has passed does not change how a bid
   * on it is decided: the deadline guard already refuses it.
   */
  lemma ClosingExpiredKeepsDecision(a: Auction, bs: seq<Bid>, bidder: UserId, input: BidInput, now: Micros)
    requires a.endsAt < now
    ensures Decide(a.(isActive := false), bs, bidder, input, now) == Decide(a, bs, bidder, input, now)
  {
  }

  /**
   * Bids are refused in the last second before the deadline, while the
   * auction is still active and not yet due to be closed.
   */
  lemma LastSecondRefused(a: Auction, bs: seq<Bid>, bidder: UserId, c: Cents, now: Micros)
    requires a.isActive && bidder != a.owner && now <= a.endsAt < now + MicrosPerSecond
    ensures Decide(a, bs, bidder, Amount(c), now) == Rejected(NotActive)
  {
  }
}
