/**
 * What one sweep over expired auctions does, as functions of the state it
 * starts from: which auctions are due, who wins each, which alerts are
 * written and by how much the win counters grow.
 */
module Expiry {
  import opened Models

  /** Due for settlement: still active and strictly past the deadline. */
  predicate Expired(a: Auction, now: Micros)
  {
    a.isActive && a.endsAt < now
  }

  /** The auction after a sweep at `now` has looked at it. */
  function Close(a: Auction, now: Micros): (r: Auction)
    ensures r.isActive <==> a.isActive && now <= a.endsAt
    ensures r.owner == a.owner && r.basePrice == a.basePrice && r.endsAt == a.endsAt
  {
    if Expired(a, now) then a.(isActive := false) else a
  }

  /** Every auction after a sweep at `now`. */
  function CloseExpired(auctions: map<AuctionId, Auction>, now: Micros): (r: map<AuctionId, Auction>)
    ensures r.Keys == auctions.Keys
    ensures forall id :: id in r ==> !Expired(r[id], now)
    ensures forall id :: id in r && r[id] != auctions[id] ==> Expired(auctions[id], now)
    ensures forall id :: id in auctions && Expired(auctions[id], now) ==> r[id] == auctions[id].(isActive := false)
  {
    map id | id in auctions :: Close(auctions[id], now)
  }

  /** No auction goes from inactive back to active between `before` and `after`. */
  ghost predicate NeverReopened(before: map<AuctionId, Auction>, after: map<AuctionId, Auction>)
  {
    forall id :: id in before && id in after && after[id].isActive ==> before[id].isActive
  }

  /** The ids below `n` of the auctions due at `now`, in ascending order. */
  function Due(auctions: map<AuctionId, Auction>, now: Micros, n: nat): (r: seq<AuctionId>)
    ensures forall id :: id in r <==> id < n && id in auctions && Expired(auctions[id], now)
    ensures forall i :: 0 <= i < |r| ==> r[i] < n
  {
    if n == 0 then []
    else
      Due(auctions, now, n - 1)
        + (if n - 1 in auctions && Expired(auctions[n - 1], now) then [n - 1] else [])
  }

  /** The due ids come in strictly ascending order, so none is settled twice. */
  lemma {:induction false} DueAscending(auctions: map<AuctionId, Auction>, now: Micros, n: nat)
    ensures forall i, j :: 0 <= i < j < |Due(auctions, now, n)| ==> Due(auctions, now, n)[i] < Due(auctions, now, n)[j]
  {
    if n > 0 {
      var front := Due(auctions, now, n - 1);
      var due := Due(auctions, now, n);
      DueAscending(auctions, now, n - 1);
      if n - 1 in auctions && Expired(auctions[n - 1], now) {
        assert due == front + [n - 1];
        forall i, j | 0 <= i < j < |due|
          ensures due[i] < due[j]
        {
          assert due[i] == front[i];
          if j < |front| {
            assert due[j] == front[j];
            assert front[i] < front[j];
          } else {
            assert front[i] < n - 1;
          }
        }
      } else {
        assert due == front;
      }
    }
  }

  /** The highest bid on auction `id`, if any: it decides the winner. */
  function Winner(bids: seq<Bid>, id: AuctionId): (r: Option<Bid>)
    ensures r.Some? ==> r.value in bids && r.value.auction == id
    ensures r.Some? ==> forall b :: b in bids && b.auction == id ==> b.amount <= r.value.amount
    ensures r.None? ==> forall b :: b in bids ==> b.auction != id
  {
    TopBid(BidsOn(bids, id))
  }

  predicate Distinct<T(==)>(s: seq<T>)
  {
    forall i, j :: 0 <= i < j < |s| ==> s[i] != s[j]
  }

  /** The distinct bidders of `bs` other than `winner`, in order of first bid. */
  function OtherBidders(bs: seq<Bid>, winner: UserId): (r: seq<UserId>)
    ensures winner !in r
    ensures |r| <= |bs|
  {
    if bs == [] then []
    else
      var earlier := OtherBidders(bs[..|bs| - 1], winner);
      var u := bs[|bs| - 1].bidder;
      if u == winner || u in earlier then earlier else earlier + [u]
  }

  /**
   * The list holds exactly the users other than `winner` that placed a bid
   * in `bs`, each once.
   */
  lemma {:induction false} OtherBiddersMembers(bs: seq<Bid>, winner: UserId)
    ensures forall u :: u in OtherBidders(bs, winner) <==> u != winner && exists b :: b in bs && b.bidder == u
    ensures Distinct(OtherBidders(bs, winner))
  {
    if bs != [] {
      var front := bs[..|bs| - 1];
      var last := bs[|bs| - 1];
      assert bs == front + [last];
      OtherBiddersMembers(front, winner);
    }
  }

  /** The same bidders as a set. */
  ghost function OtherBidderSet(bs: seq<Bid>, winner: UserId): set<UserId>
  {
    set b | b in bs && b.bidder != winner :: b.bidder
  }

  /** One "lost" alert for auction `id` per user of `us`, in order. */
  function LostNotes(us: seq<UserId>, id: AuctionId): (r: seq<Notification>)
    ensures |r| == |us|
    ensures forall n :: n in r ==> n.Lost? && n.auction == id
  {
    if us == [] then [] else LostNotes(us[..|us| - 1], id) + [Lost(us[|us| - 1], id)]
  }

  /** The i-th "lost" alert is for the i-th user. */
  lemma {:induction false} LostNotesShape(us: seq<UserId>, id: AuctionId)
    ensures |LostNotes(us, id)| == |us|
    ensures forall i :: 0 <= i < |us| ==> LostNotes(us, id)[i] == Lost(us[i], id)
  {
    if us != [] {
      LostNotesShape(us[..|us| - 1], id);
    }
  }

  /** The alerts written when auction `id`, whose bids are `bs`, is settled. */
  function SettlementNotes(id: AuctionId, bs: seq<Bid>): (r: seq<Notification>)
    ensures r == [] <==> bs == []
    ensures forall n :: n in r ==> n.auction == id
    ensures r != [] ==> r[0].Won? && forall b :: b in bs ==> b.amount <= r[0].amount
  {
    match TopBid(bs)
    case None => []
    case Some(w) => [Won(w.bidder, id, w.amount)] + LostNotes(OtherBidders(bs, w.bidder), id)
  }

  /** The alerts written when the auctions `ids` are settled in that order. */
  function SweepNotes(ids: seq<AuctionId>, bids: seq<Bid>): (r: seq<Notification>)
    ensures forall n :: n in r ==> n.auction in ids
  {
    if ids == [] then []
    else
      var id := ids[|ids| - 1];
      SweepNotes(ids[..|ids| - 1], bids) + SettlementNotes(id, BidsOn(bids, id))
  }

  /** The win counter of `w` goes up by one; a user that does not exist is left alone. */
  function AwardWin(users: map<UserId, Profile>, w: UserId): (r: map<UserId, Profile>)
    ensures r.Keys == users.Keys
    ensures w in users ==> r[w] == users[w].(auctionsWon := users[w].auctionsWon + 1)
    ensures forall v :: v in users && v != w ==> r[v] == users[v]
  {
    if w in users then users[w := users[w].(auctionsWon := users[w].auctionsWon + 1)] else users
  }

  /** The profiles after the auctions `ids` are settled in that order. */
  function Award(users: map<UserId, Profile>, ids: seq<AuctionId>, bids: seq<Bid>): (r: map<UserId, Profile>)
    ensures r.Keys == users.Keys
  {
    if ids == [] then users
    else
      var earlier := Award(users, ids[..|ids| - 1], bids);
      match Winner(bids, ids[|ids| - 1])
      case None => earlier
      case Some(w) => AwardWin(earlier, w.bidder)
  }

  /** The auctions after those of `ids` are closed one at a time, in that order. */
  function CloseEach(auctions: map<AuctionId, Auction>, ids: seq<AuctionId>): (r: map<AuctionId, Auction>)
    ensures r.Keys == auctions.Keys
  {
    if ids == [] then auctions
    else
      var earlier := CloseEach(auctions, ids[..|ids| - 1]);
      var id := ids[|ids| - 1];
      if id in earlier then earlier[id := earlier[id].(isActive := false)] else earlier
  }

  /** Closing the auctions `ids` one at a time closes exactly those. */
  lemma {:induction false} CloseEachAt(auctions: map<AuctionId, Auction>, ids: seq<AuctionId>, x: AuctionId)
    requires x in auctions
    ensures CloseEach(auctions, ids)[x] == if x in ids then auctions[x].(isActive := false) else auctions[x]
  {
    if ids != [] {
      var front := ids[..|ids| - 1];
      assert ids == front + [ids[|ids| - 1]];
      CloseEachAt(auctions, front, x);
    }
  }

  /**
   * Closing the due auctions one at a time, as a sweep does, gives the
   * auctions after the sweep.
   */
  lemma CloseEachDue(auctions: map<AuctionId, Auction>, now: Micros, n: nat)
    requires forall id :: id in auctions ==> id < n
    ensures CloseEach(auctions, Due(auctions, now, n)) == CloseExpired(auctions, now)
  {
    var due := Due(auctions, now, n);
    forall x | x in auctions
      ensures CloseEach(auctions, due)[x] == CloseExpired(auctions, now)[x]
    {
      CloseEachAt(auctions, due, x);
    }
  }

  /** Closing the k-th auction of `ids` after the first k extends `CloseEach` by it. */
  lemma CloseEachStep(auctions: map<AuctionId, Auction>, ids: seq<AuctionId>, k: nat,
                      before: map<AuctionId, Auction>, after: map<AuctionId, Auction>)
    requires k < |ids|
    requires before == CloseEach(auctions, ids[..k]) && ids[k] in before
    requires after == before[ids[k] := before[ids[k]].(isActive := false)]
    ensures after == CloseEach(auctions, ids[..k + 1])
  {
    assert ids[..k + 1][..k] == ids[..k];
  }

  /**
   * A prefix one longer is the shorter prefix and one element. Stated apart
   * so that `SweepNotesStep` need not prove it among the alert functions,
   * where the solver runs out of resource.
   */
  lemma PrefixSnoc<T>(s: seq<T>, k: nat)
    requires k < |s|
    ensures s[..k + 1] == s[..k] + [s[k]]
  {
  }

  /** Concatenation is associative; used by `SweepNotesStep` for the same reason. */
  lemma AppendAssoc<T>(a: seq<T>, b: seq<T>, c: seq<T>)
    ensures (a + b) + c == a + (b + c)
  {
  }

  /** The alerts of one more settled auction come after those of the earlier ones. */
  lemma SweepNotesSnoc(done: seq<AuctionId>, id: AuctionId, bids: seq<Bid>)
    ensures SweepNotes(done + [id], bids) == SweepNotes(done, bids) + SettlementNotes(id, BidsOn(bids, id))
  {
    assert (done + [id])[..|done|] == done;
  }

  /** Settling the k-th auction of `ids` after the first k appends its alerts. */
  lemma SweepNotesStep(ids: seq<AuctionId>, k: nat, bids: seq<Bid>,
                       start: seq<Notification>, before: seq<Notification>, after: seq<Notification>)
    requires k < |ids|
    requires before == start + SweepNotes(ids[..k], bids)
    requires after == before + SettlementNotes(ids[k], BidsOn(bids, ids[k]))
    ensures after == start + SweepNotes(ids[..k + 1], bids)
  {
    PrefixSnoc(ids, k);
    SweepNotesSnoc(ids[..k], ids[k], bids);
    AppendAssoc(start, SweepNotes(ids[..k], bids), SettlementNotes(ids[k], BidsOn(bids, ids[k])));
  }

  /** Settling the k-th auction of `ids` after the first k applies its win. */
  lemma AwardStep(users: map<UserId, Profile>, ids: seq<AuctionId>, k: nat, bids: seq<Bid>,
                  before: map<UserId, Profile>, after: map<UserId, Profile>)
    requires k < |ids|
    requires before == Award(users, ids[..k], bids)
    requires after == match Winner(bids, ids[k])
                      case None => before
                      case Some(w) => AwardWin(before, w.bidder)
    ensures after == Award(users, ids[..k + 1], bids)
  {
    assert ids[..k + 1][..k] == ids[..k];
  }

  /** How many of the auctions `ids` user `u` wins. */
  function WinsFor(ids: seq<AuctionId>, bids: seq<Bid>, u: UserId): nat
  {
    if ids == [] then 0
    else
      var won := match Winner(bids, ids[|ids| - 1]) case None => 0 case Some(w) => if w.bidder == u then 1 else 0;
      WinsFor(ids[..|ids| - 1], bids, u) + won
  }

  /** The elements of a list, as a set. */
  ghost function Elements<T>(s: seq<T>): set<T>
  {
    set x | x in s
  }

  /** A distinct list has as many elements as its set. */
  lemma {:induction false} DistinctCard<T>(s: seq<T>)
    requires Distinct(s)
    ensures |Elements(s)| == |s|
  {
    if s != [] {
      var front := s[..|s| - 1];
      var last := s[|s| - 1];
      DistinctCard(front);
      assert last !in front;
      assert Elements(s) == Elements(front) + {last} by {
        assert s == front + [last];
      }
    }
  }

  /** Over a distinct list of users, each user gets one "lost" alert or none. */
  lemma {:induction false} LostNotesCount(us: seq<UserId>, id: AuctionId, n: Notification)
    requires Distinct(us)
    ensures multiset(LostNotes(us, id))[n] == if n.Lost? && n.auction == id && n.user in us then 1 else 0
  {
    if us != [] {
      var front := us[..|us| - 1];
      var last := us[|us| - 1];
      assert us == front + [last];
      LostNotesCount(front, id, n);
      assert last !in front;
    }
  }

  /** The distinct other bidders, as a list, are the set of other bidders. */
  lemma OtherBiddersAsSet(bs: seq<Bid>, winner: UserId)
    ensures Elements(OtherBidders(bs, winner)) == OtherBidderSet(bs, winner)
    ensures |OtherBidders(bs, winner)| == |OtherBidderSet(bs, winner)|
  {
    var others := OtherBidders(bs, winner);
    OtherBiddersMembers(bs, winner);
    assert Elements(others) == OtherBidderSet(bs, winner);
    DistinctCard(others);
  }

  /**
   * Settling one auction: with no bids nothing is written; otherwise the
   * bidder of a maximal bid gets exactly one "won" alert carrying that
   * maximum, first, and every distinct other bidder exactly one "lost"
   * alert, so 1 + (number of other bidders) alerts in all.
   */
  lemma SettlementNotesExact(id: AuctionId, bs: seq<Bid>)
    ensures bs == [] ==> SettlementNotes(id, bs) == []
    ensures bs != [] ==>
      var notes := SettlementNotes(id, bs);
      && |notes| == 1 + |OtherBidderSet(bs, notes[0].user)|
      && notes[0].Won? && notes[0].auction == id
      && (exists b :: b in bs && b.bidder == notes[0].user && b.amount == notes[0].amount)
      && (forall b :: b in bs ==> b.amount <= notes[0].amount)
      && (forall i :: 1 <= i < |notes| ==> notes[i].Lost?)
      && (forall u :: multiset(notes)[Lost(u, id)] == if u in OtherBidderSet(bs, notes[0].user) then 1 else 0)
  {
    if bs != [] {
      var w := TopBid(bs).value;
      var others := OtherBidders(bs, w.bidder);
      var lost := LostNotes(others, id);
      var notes := SettlementNotes(id, bs);
      assert notes == [Won(w.bidder, id, w.amount)] + lost;
      assert notes[0] == Won(w.bidder, id, w.amount);
      OtherBiddersAsSet(bs, w.bidder);
      OtherBiddersMembers(bs, w.bidder);
      LostNotesShape(others, id);
      forall i | 1 <= i < |notes|
        ensures notes[i].Lost?
      {
        assert notes[i] == lost[i - 1];
      }
      forall u
        ensures multiset(notes)[Lost(u, id)] == if u in OtherBidderSet(bs, w.bidder) then 1 else 0
      {
        LostNotesCount(others, id, Lost(u, id));
        assert multiset(notes) == multiset{Won(w.bidder, id, w.amount)} + multiset(lost);
      }
    }
  }

  /**
   * Over a sweep of distinct auctions, the alerts about one auction are
   * exactly those of its own settlement, and there are none about any
   * auction outside the sweep.
   */
  lemma {:induction false} SweepNotesExact(ids: seq<AuctionId>, bids: seq<Bid>, n: Notification)
    requires Distinct(ids)
    ensures multiset(SweepNotes(ids, bids))[n] ==
              if n.auction in ids then multiset(SettlementNotes(n.auction, BidsOn(bids, n.auction)))[n] else 0
  {
    if ids != [] {
      var front := ids[..|ids| - 1];
      var id := ids[|ids| - 1];
      assert ids == front + [id];
      assert Distinct(front);
      assert id !in front;
      SweepNotesExact(front, bids, n);
      if n.auction != id {
        assert n !in SettlementNotes(id, BidsOn(bids, id));
      }
    }
  }

  /**
   * The counters after settling `ids`: each user's win counter grows by the
   * number of those auctions the user wins; no other counter and no other
   * user changes.
   */
  lemma {:induction false} AwardExact(users: map<UserId, Profile>, ids: seq<AuctionId>, bids: seq<Bid>)
    ensures Award(users, ids, bids).Keys == users.Keys
    ensures forall u :: u in users ==>
              Award(users, ids, bids)[u] == users[u].(auctionsWon := users[u].auctionsWon + WinsFor(ids, bids, u))
  {
    if ids != [] {
      AwardExact(users, ids[..|ids| - 1], bids);
    }
  }

  /** A sweep leaves nothing due at the same instant. */
  lemma {:induction false} NothingDueAfterSweep(auctions: map<AuctionId, Auction>, now: Micros, n: nat)
    ensures Due(CloseExpired(auctions, now), now, n) == []
  {
    if n > 0 {
      NothingDueAfterSweep(auctions, now, n - 1);
    }
  }

  /**
   * A second sweep at the same instant finds nothing due, so it writes no
   * alert, changes no counter and closes no auction.
   */
  lemma SecondSweepChangesNothing(auctions: map<AuctionId, Auction>, users: map<UserId, Profile>,
                                  bids: seq<Bid>, now: Micros, n: nat)
    ensures var swept := CloseExpired(auctions, now);
            && SweepNotes(Due(swept, now, n), bids) == []
            && Award(users, Due(swept, now, n), bids) == users
            && CloseExpired(swept, now) == swept
  {
    NothingDueAfterSweep(auctions, now, n);
    CloseExpiredIdempotent(auctions, now);
  }

  /** Sweeping again at the same instant closes nothing more. */
  lemma CloseExpiredIdempotent(auctions: map<AuctionId, Auction>, now: Micros)
    ensures CloseExpired(CloseExpired(auctions, now), now) == CloseExpired(auctions, now)
    ensures NeverReopened(auctions, CloseExpired(auctions, now))
  {
  }
}
