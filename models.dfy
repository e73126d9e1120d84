/**
 * The records of the auction app and the two derived quantities its model
 * class exposes: the current bid of an auction and the whole seconds left
 * before it ends.
 *
 * Money is held in integer cents (every amount column has two decimal
 * places) and instants in integer microseconds (the resolution of the
 * timestamps the app stores), so that the truncation to whole seconds is
 * visible.
 */
module Models {

  type UserId = nat
  type AuctionId = nat
  /** An amount of money in hundredths of the currency unit. */
  type Cents = int
  /** An instant, in microseconds since an arbitrary epoch. */
  type Micros = int

  const MicrosPerSecond: int := 1_000_000

  datatype Option<T> = None | Some(value: T)

  /** The three at-a-glance counters of a user profile. */
  datatype Profile = Profile(venduesCreated: nat, tendersPlaced: nat, auctionsWon: nat)

  /** An auction row; title, description, category and image are not modelled. */
  datatype Auction = Auction(owner: UserId, basePrice: Cents, endsAt: Micros, isActive: bool)

  /** A bid row; its creation time is its position in the bid log. */
  datatype Bid = Bid(auction: AuctionId, bidder: UserId, amount: Cents)

  /** A vendue (a listing request from which an auction is created). */
  datatype Vendue = Vendue(seller: UserId, basePrice: Cents, durationMinutes: nat)

  /** A persisted alert, by kind rather than by its formatted text. */
  datatype Notification =
    | Won(user: UserId, auction: AuctionId, amount: Cents)
    | Lost(user: UserId, auction: AuctionId)

  /** The profile a newly registered user starts with. */
  function NewProfile(): (p: Profile)
    ensures p.venduesCreated == 0 && p.tendersPlaced == 0 && p.auctionsWon == 0
  {
    Profile(0, 0, 0)
  }

  /** The auction a newly published listing starts as. */
  function NewAuction(owner: UserId, basePrice: Cents, endsAt: Micros): (a: Auction)
    ensures a.isActive
    ensures a.owner == owner && a.basePrice == basePrice && a.endsAt == endsAt
  {
    Auction(owner, basePrice, endsAt, true)
  }

  /** The bids of one auction, in the order they were placed. */
  function BidsOn(bs: seq<Bid>, id: AuctionId): (r: seq<Bid>)
    ensures forall b :: b in r <==> b in bs && b.auction == id
    ensures |r| <= |bs|
  {
    if bs == [] then []
    else
      var last := bs[|bs| - 1];
      BidsOn(bs[..|bs| - 1], id) + (if last.auction == id then [last] else [])
  }

  /** The bid log after the auction `id` is deleted: its bids go with it. */
  function DropBidsOn(bs: seq<Bid>, id: AuctionId): (r: seq<Bid>)
    ensures forall b :: b in r <==> b in bs && b.auction != id
    ensures |r| <= |bs|
  {
    if bs == [] then []
    else
      var last := bs[|bs| - 1];
      DropBidsOn(bs[..|bs| - 1], id) + (if last.auction != id then [last] else [])
  }

  /**
   * The bid that an ordering by descending amount puts first. Among equal
   * maxima the order is left to the database; this model takes the one
   * placed earliest.
   */
  function TopBid(bs: seq<Bid>): (r: Option<Bid>)
    ensures r.None? <==> bs == []
    ensures r.Some? ==> r.value in bs && forall b :: b in bs ==> b.amount <= r.value.amount
  {
    if bs == [] then None
    else
      var front := bs[..|bs| - 1];
      var last := bs[|bs| - 1];
      assert bs == front + [last];
      var best := TopBid(front);
      if best.None? || last.amount > best.value.amount then Some(last) else best
  }

  /** The current bid of an auction whose bids are `bs`. */
  function CurrentBid(basePrice: Cents, bs: seq<Bid>): (r: Cents)
    ensures bs == [] ==> r == basePrice
    ensures bs != [] ==> (exists b :: b in bs && b.amount == r) && forall b :: b in bs ==> b.amount <= r
  {
    match TopBid(bs)
    case None => basePrice
    case Some(b) => b.amount
  }

  /**
   * Whole seconds left from `now` until `endsAt`: the positive difference
   * truncated to seconds, and 0 once the deadline is reached.
   */
  function TimeRemaining(endsAt: Micros, now: Micros): (r: nat)
    ensures endsAt <= now ==> r == 0
    ensures endsAt > now ==> r * MicrosPerSecond <= endsAt - now < (r + 1) * MicrosPerSecond
  {
    var delta := endsAt - now;
    if delta > 0 then delta / MicrosPerSecond else 0
  }

  /** Amounts strictly increase in placement order. */
  ghost predicate StrictlyIncreasing(bs: seq<Bid>)
  {
    forall i, j :: 0 <= i < j < |bs| ==> bs[i].amount < bs[j].amount
  }

  /** Placing one more bid extends the bid list of its own auction only. */
  lemma {:induction false} BidsOnAppend(bs: seq<Bid>, b: Bid, id: AuctionId)
    ensures BidsOn(bs + [b], id) == BidsOn(bs, id) + (if b.auction == id then [b] else [])
  {
  }

  /** Deleting one auction leaves the bid list of every other auction as it was. */
  lemma {:induction false} DropBidsOnKeepsOthers(bs: seq<Bid>, id: AuctionId, other: AuctionId)
    requires other != id
    ensures BidsOn(DropBidsOn(bs, id), other) == BidsOn(bs, other)
  {
    if bs != [] {
      var front := bs[..|bs| - 1];
      var last := bs[|bs| - 1];
      var kept := DropBidsOn(front, id);
      DropBidsOnKeepsOthers(front, id, other);
      if last.auction != id {
        assert DropBidsOn(bs, id) == kept + [last];
        BidsOnAppend(kept, last, other);
      } else {
        assert DropBidsOn(bs, id) == kept;
      }
    }
  }

  /** An auction none of whose bids are in the log has an empty bid list. */
  lemma {:induction false} NoBidsOn(bs: seq<Bid>, id: AuctionId)
    requires forall b :: b in bs ==> b.auction != id
    ensures BidsOn(bs, id) == []
  {
    if bs != [] {
      NoBidsOn(bs[..|bs| - 1], id);
    }
  }

  /** Deleting an auction removes all of its bids. */
  lemma DropBidsOnRemovesAll(bs: seq<Bid>, id: AuctionId)
    ensures BidsOn(DropBidsOn(bs, id), id) == []
  {
    NoBidsOn(DropBidsOn(bs, id), id);
  }

  /** On every auction, amounts strictly increase in placement order. */
  ghost predicate IncreasingPerAuction(bs: seq<Bid>)
  {
    forall id :: StrictlyIncreasing(BidsOn(bs, id))
  }

  /** Appending a bid above every earlier bid on its auction keeps amounts increasing. */
  lemma AppendKeepsIncreasing(bs: seq<Bid>, b: Bid)
    requires IncreasingPerAuction(bs)
    requires forall x :: x in BidsOn(bs, b.auction) ==> x.amount < b.amount
    ensures IncreasingPerAuction(bs + [b])
  {
    forall id
      ensures StrictlyIncreasing(BidsOn(bs + [b], id))
    {
      BidsOnAppend(bs, b, id);
      var earlier := BidsOn(bs, id);
      if b.auction == id {
        forall i | 0 <= i < |earlier|
          ensures earlier[i].amount < b.amount
        {
          assert earlier[i] in earlier;
        }
      }
    }
  }

  /** Deleting an auction's bids keeps amounts increasing on every auction. */
  lemma DropKeepsIncreasing(bs: seq<Bid>, id: AuctionId)
    requires IncreasingPerAuction(bs)
    ensures IncreasingPerAuction(DropBidsOn(bs, id))
  {
    forall other
      ensures StrictlyIncreasing(BidsOn(DropBidsOn(bs, id), other))
    {
      if other == id {
        DropBidsOnRemovesAll(bs, id);
      } else {
        DropBidsOnKeepsOthers(bs, id, other);
        assert StrictlyIncreasing(BidsOn(bs, other));
      }
    }
  }

  /**
   * When the amounts of an auction's bids strictly increase, the top bid is
   * the latest one, so the winner is unique and the current bid is that
   * latest amount.
   */
  lemma {:induction false} TopBidOfIncreasing(basePrice: Cents, bs: seq<Bid>)
    requires bs != [] && StrictlyIncreasing(bs)
    ensures TopBid(bs) == Some(bs[|bs| - 1])
    ensures CurrentBid(basePrice, bs) == bs[|bs| - 1].amount
  {
  }

  /** A bid above every earlier bid becomes the current bid, strictly above the previous one. */
  lemma {:induction false} RaisedCurrentBid(basePrice: Cents, bs: seq<Bid>, b: Bid)
    requires b.amount > CurrentBid(basePrice, bs)
    ensures CurrentBid(basePrice, bs + [b]) == b.amount
    ensures CurrentBid(basePrice, bs + [b]) > CurrentBid(basePrice, bs)
  {
  }

  /**
   * Placing a bid above the current bid of its auction makes it the current
   * bid of that auction.
   */
  lemma PlacedBidBecomesCurrent(basePrice: Cents, bs: seq<Bid>, b: Bid)
    requires b.amount > CurrentBid(basePrice, BidsOn(bs, b.auction))
    ensures CurrentBid(basePrice, BidsOn(bs + [b], b.auction)) == b.amount
  {
    BidsOnAppend(bs, b, b.auction);
    RaisedCurrentBid(basePrice, BidsOn(bs, b.auction), b);
  }

  /** The current bid is never below the base price once every bid exceeds it. */
  lemma CurrentBidAtLeastBase(basePrice: Cents, bs: seq<Bid>)
    requires forall b :: b in bs ==> b.amount > basePrice
    ensures CurrentBid(basePrice, bs) >= basePrice
    ensures bs != [] ==> CurrentBid(basePrice, bs) > basePrice
  {
  }

  /** Bids are refused with under one second left: the whole-second count is then 0. */
  lemma LastSecondCountsAsZero(endsAt: Micros, now: Micros)
    ensures TimeRemaining(endsAt, now) == 0 <==> endsAt - now < MicrosPerSecond
  {
  }
}
