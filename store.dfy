/**
 * The auction store: auctions, the bid log, persisted alerts, vendues and
 * user profiles, and the operations of the app that change them. Each
 * operation is one atomic step; locking and interleaving are not modelled.
 */
module Store {
  import opened Models
  import opened Views
  import opened Expiry

  /**
   * Every auction id was handed out; every bid is on an existing auction, by
   * a user other than its owner, above its base price; on each auction
   * amounts strictly increase.
   */
  ghost predicate Consistent(auctions: map<AuctionId, Auction>, nextId: AuctionId, bids: seq<Bid>)
  {
    && (forall id :: id in auctions ==> id < nextId)
    && (forall b :: b in bids ==>
          && b.auction in auctions
          && b.bidder != auctions[b.auction].owner
          && b.amount > auctions[b.auction].basePrice)
    && IncreasingPerAuction(bids)
  }

  /**
   * Consistency survives any change that keeps the same auctions with the
   * same owners and base prices, such as closing auctions.
   */
  lemma ConsistentUnderSameShape(auctions: map<AuctionId, Auction>, auctions': map<AuctionId, Auction>,
                                 nextId: AuctionId, bids: seq<Bid>)
    requires Consistent(auctions, nextId, bids)
    requires auctions'.Keys == auctions.Keys
    requires forall id :: id in auctions ==>
               auctions'[id].owner == auctions[id].owner && auctions'[id].basePrice == auctions[id].basePrice
    ensures Consistent(auctions', nextId, bids)
  {
  }

  /**
   * A sweep at `now` does not change how a bid placed at `now` is decided:
   * it removes no auction, and the auctions it closes refuse bids anyway.
   */
  lemma SweepKeepsDecision(auctions: map<AuctionId, Auction>, bs: seq<Bid>, id: AuctionId,
                           bidder: UserId, input: BidInput, now: Micros)
    ensures id in CloseExpired(auctions, now) <==> id in auctions
    ensures id in auctions ==>
              Decide(CloseExpired(auctions, now)[id], bs, bidder, input, now) == Decide(auctions[id], bs, bidder, input, now)
  {
    if id in auctions && Expired(auctions[id], now) {
      ClosingExpiredKeepsDecision(auctions[id], bs, bidder, input, now);
    }
  }

  /** Deleting an auction together with its bids keeps the store consistent. */
  lemma ConsistentAfterDelete(auctions: map<AuctionId, Auction>, nextId: AuctionId, bids: seq<Bid>, id: AuctionId)
    requires Consistent(auctions, nextId, bids)
    ensures Consistent(auctions - {id}, nextId, DropBidsOn(bids, id))
  {
    DropKeepsIncreasing(bids, id);
  }

  /** The batch of "lost" alerts for auction `id`: one per user of `loserIds`, in order. */
  method LostAlerts(loserIds: seq<UserId>, id: AuctionId) returns (batch: seq<Notification>)
    ensures batch == LostNotes(loserIds, id)
  {
    batch := [];
    for j := 0 to |loserIds|
      invariant batch == LostNotes(loserIds[..j], id)
    {
      assert loserIds[..j + 1][..j] == loserIds[..j];
      batch := batch + [Lost(loserIds[j], id)];
    }
    assert loserIds[..|loserIds|] == loserIds;
  }

  class AuctionHouse {
    var auctions: map<AuctionId, Auction>
    /** The id the next created auction gets (auto-increment primary key). */
    var nextId: AuctionId
    /** Every bid, in the order placed. */
    var bids: seq<Bid>
    var notifications: seq<Notification>
    var vendues: seq<Vendue>
    var users: map<UserId, Profile>

    /** The store's fields satisfy `Consistent`. */
    ghost predicate Valid()
      reads this
    {
      Consistent(auctions, nextId, bids)
    }

    constructor ()
      ensures Valid()
      ensures auctions == map[] && nextId == 0 && bids == [] && notifications == []
      ensures vendues == [] && users == map[]
    {
      auctions, nextId, bids, notifications := map[], 0, [], [];
      vendues, users := [], map[];
    }

    /** A new user joins with all three counters at zero. */
    method AddProfile(u: UserId)
      requires Valid() && u !in users
      modifies this
      ensures Valid()
      ensures users == old(users)[u := NewProfile()]
      ensures auctions == old(auctions) && nextId == old(nextId) && bids == old(bids)
      ensures notifications == old(notifications) && vendues == old(vendues)
    {
      users := users[u := NewProfile()];
    }

    /**
     * A seller publishes a vendue: it is recorded, the seller's vendue
     * counter goes up by one, and an active auction with the same base price
     * ending `minutes` minutes after `now` is created under a fresh id.
     */
    method CreateAuction(seller: UserId, basePrice: Cents, minutes: nat, now: Micros) returns (id: AuctionId)
      requires Valid() && seller in users
      modifies this
      ensures Valid()
      ensures id == old(nextId) && id !in old(auctions) && nextId == old(nextId) + 1
      ensures vendues == old(vendues) + [Vendue(seller, basePrice, minutes)]
      ensures users == old(users)[seller := old(users)[seller].(venduesCreated := old(users)[seller].venduesCreated + 1)]
      ensures auctions == old(auctions)[id := NewAuction(seller, basePrice, Deadline(now, minutes))]
      ensures bids == old(bids) && notifications == old(notifications)
      ensures auctions[id].isActive && TimeRemaining(auctions[id].endsAt, now) == minutes * 60
      ensures BidsOn(bids, id) == [] && CurrentBid(auctions[id].basePrice, BidsOn(bids, id)) == basePrice
      ensures NeverReopened(old(auctions), auctions)
    {
      vendues := vendues + [Vendue(seller, basePrice, minutes)];
      users := users[seller := users[seller].(venduesCreated := users[seller].venduesCreated + 1)];
      id := nextId;
      auctions := auctions[id := NewAuction(seller, basePrice, Deadline(now, minutes))];
      nextId := nextId + 1;
      NoBidsOn(bids, id);
    }

    /**
     * A posted bid by `bidder` on auction `id`. When the guard chain accepts
     * it, exactly one bid is appended and only the bidder's bid counter goes
     * up by one; otherwise nothing changes.
     */
    method PlaceBid(bidder: UserId, id: AuctionId, input: BidInput, now: Micros) returns (r: BidOutcome)
      requires Valid() && bidder in users
      modifies this
      ensures Valid()
      ensures r == if id in old(auctions)
                   then Decide(old(auctions)[id], BidsOn(old(bids), id), bidder, input, now)
                   else Rejected(NoSuchAuction)
      ensures auctions == old(auctions) && nextId == old(nextId)
      ensures notifications == old(notifications) && vendues == old(vendues)
      ensures r.Rejected? ==> bids == old(bids) && users == old(users)
      ensures r.Accepted? ==> bids == old(bids) + [Bid(id, bidder, r.amount)]
      ensures r.Accepted? ==> users == CountTender(old(users), bidder)
    {
      if id !in auctions {
        return Rejected(NoSuchAuction);
      }
      var a := auctions[id];
      r := Decide(a, BidsOn(bids, id), bidder, input, now);
      if r.Accepted? {
        var b := Bid(id, bidder, r.amount);
        AppendKeepsIncreasing(bids, b);
        if BidsOn(bids, id) != [] {
          assert BidsOn(bids, id)[0] in BidsOn(bids, id);
        }
        bids := bids + [b];
        users := CountTender(users, bidder);
      }
    }

    /**
     * A delete request by `requester`. Only a POST by the owner removes the
     * auction, and its bids with it; any other request changes nothing.
     */
    method DeleteAuction(requester: UserId, id: AuctionId, isPost: bool) returns (r: DeleteOutcome)
      requires Valid()
      modifies this
      ensures Valid()
      ensures r == if id in old(auctions) then DecideDelete(old(auctions)[id], requester, isPost) else NotFound
      ensures r == Deleted ==> auctions == old(auctions) - {id} && bids == DropBidsOn(old(bids), id)
      ensures r == Deleted ==> BidsOn(bids, id) == []
      ensures forall other :: other != id ==> BidsOn(bids, other) == BidsOn(old(bids), other)
      ensures r != Deleted ==> auctions == old(auctions) && bids == old(bids)
      ensures users == old(users) && notifications == old(notifications)
      ensures nextId == old(nextId) && vendues == old(vendues)
      ensures NeverReopened(old(auctions), auctions)
    {
      if id !in auctions {
        return NotFound;
      }
      r := DecideDelete(auctions[id], requester, isPost);
      if r == Deleted {
        forall other | other != id
          ensures BidsOn(DropBidsOn(bids, id), other) == BidsOn(bids, other)
        {
          DropBidsOnKeepsOthers(bids, id, other);
        }
        DropBidsOnRemovesAll(bids, id);
        ConsistentAfterDelete(auctions, nextId, bids, id);
        auctions := auctions - {id};
        bids := DropBidsOn(bids, id);
      }
    }

    /**
     * The settlement of auction `id` once it is closed: if it has bids, the
     * bidder of its highest bid gets a win and a "won" alert, then each
     * distinct other bidder a "lost" alert, written as one batch.
     */
    method Conclude(id: AuctionId)
      modifies this
      ensures notifications == old(notifications) + SettlementNotes(id, BidsOn(bids, id))
      ensures users == match Winner(bids, id)
                       case None => old(users)
                       case Some(w) => AwardWin(old(users), w.bidder)
      ensures auctions == old(auctions) && bids == old(bids)
      ensures nextId == old(nextId) && vendues == old(vendues)
    {
      var top := TopBid(BidsOn(bids, id));
      if top.Some? {
        var winner := top.value.bidder;
        users := AwardWin(users, winner);
        notifications := notifications + [Won(winner, id, top.value.amount)];
        var batch := LostAlerts(OtherBidders(BidsOn(bids, id), winner), id);
        if batch != [] {
          notifications := notifications + batch;
        }
        assert notifications == old(notifications) + ([Won(winner, id, top.value.amount)] + batch);
      }
    }

    /**
     * One transaction of a sweep: close the active auction `id`, then award
     * it to its highest bidder, if any.
     */
    method Settle(id: AuctionId)
      requires Valid() && id in auctions && auctions[id].isActive
      modifies this
      ensures Valid()
      ensures auctions == old(auctions)[id := old(auctions)[id].(isActive := false)]
      ensures notifications == old(notifications) + SettlementNotes(id, BidsOn(bids, id))
      ensures users == match Winner(bids, id)
                       case None => old(users)
                       case Some(w) => AwardWin(old(users), w.bidder)
      ensures bids == old(bids) && nextId == old(nextId) && vendues == old(vendues)
    {
      ghost var auctions0 := auctions;
      auctions := auctions[id := auctions[id].(isActive := false)];
      ConsistentUnderSameShape(auctions0, auctions, nextId, bids);
      Conclude(id);
    }

    /**
     * Settles the auctions `due` one transaction at a time, in that order.
     * They are distinct and all active to begin with.
     */
    method SettleAll(due: seq<AuctionId>)
      requires Valid() && Distinct(due)
      requires forall i :: 0 <= i < |due| ==> due[i] in auctions && auctions[due[i]].isActive
      modifies this
      ensures Valid()
      ensures auctions == CloseEach(old(auctions), due)
      ensures notifications == old(notifications) + SweepNotes(due, bids)
      ensures users == Award(old(users), due, bids)
      ensures bids == old(bids) && nextId == old(nextId) && vendues == old(vendues)
    {
      var log := bids;
      for k := 0 to |due|
        invariant Valid()
        invariant auctions == CloseEach(old(auctions), due[..k])
        invariant notifications == old(notifications) + SweepNotes(due[..k], log)
        invariant users == Award(old(users), due[..k], log)
        invariant bids == log && nextId == old(nextId) && vendues == old(vendues)
      {
        var id := due[k];
        ghost var (auctions0, alerts0, users0) := (auctions, notifications, users);
        assert auctions[id] == old(auctions)[id] by {
          CloseEachAt(old(auctions), due[..k], id);
        }
        // The re-read under the row lock finds the auction still present and
        // active: with no concurrent request, nothing closed it since the query.
        assert id in auctions && auctions[id].isActive;
        Settle(id);
        CloseEachStep(old(auctions), due, k, auctions0, auctions);
        SweepNotesStep(due, k, log, old(notifications), alerts0, notifications);
        AwardStep(old(users), due, k, log, users0, users);
      }
      assert due[..|due|] == due;
    }

    /**
     * One sweep at `now`: every auction that is active and past its deadline
     * is settled, in ascending id order. Nothing else changes.
     */
    method Sweep(now: Micros)
      requires Valid()
      modifies this
      ensures Valid()
      ensures auctions == CloseExpired(old(auctions), now)
      ensures notifications == old(notifications) + SweepNotes(Due(old(auctions), now, old(nextId)), bids)
      ensures users == Award(old(users), Due(old(auctions), now, old(nextId)), bids)
      ensures bids == old(bids) && nextId == old(nextId) && vendues == old(vendues)
      ensures NeverReopened(old(auctions), auctions)
    {
      var due := Due(auctions, now, nextId);
      DueAscending(auctions, now, nextId);
      SettleAll(due);
      CloseEachDue(old(auctions), now, old(nextId));
      CloseExpiredIdempotent(old(auctions), now);
    }

    /**
     * A posted bid as the detail page handles it: a sweep at `now` first,
     * then the guard chain. Because the sweep only closes auctions past their
     * deadline, which the guard chain refuses anyway, the outcome is that of
     * the guard chain on the state before the sweep.
     */
    method Detail(bidder: UserId, id: AuctionId, input: BidInput, now: Micros) returns (r: BidOutcome)
      requires Valid() && bidder in users
      modifies this
      ensures Valid()
      ensures r == if id in old(auctions)
                   then Decide(old(auctions)[id], BidsOn(old(bids), id), bidder, input, now)
                   else Rejected(NoSuchAuction)
      ensures bids == old(bids) + if r.Accepted? then [Bid(id, bidder, r.amount)] else []
      ensures auctions == CloseExpired(old(auctions), now)
      ensures notifications == old(notifications) + SweepNotes(Due(old(auctions), now, old(nextId)), old(bids))
      ensures var swept := Award(old(users), Due(old(auctions), now, old(nextId)), old(bids));
              users == if r.Accepted? then CountTender(swept, bidder) else swept
      ensures nextId == old(nextId) && vendues == old(vendues)
    {
      SweepKeepsDecision(auctions, BidsOn(bids, id), id, bidder, input, now);
      Sweep(now);
      r := PlaceBid(bidder, id, input, now);
    }
  }
}
