/** The two tables the route handlers work on (`auctions` and `bids`), the
    queries over them, and the consistency invariant that the handlers keep:
    on every auction the accepted bids have strictly increasing amounts and the
    last of them is the auction's current price. */
module Ledger {
  import opened Domain
  import opened Seqs

  /** Position of the first auction row with this id: `filter(id == …).first()`. */
  function FindIndex(auctions: seq<Auction>, id: int): (r: Option<nat>)
    ensures r.Some? ==> r.value < |auctions| && auctions[r.value].id == id
    ensures r.Some? ==> forall k :: 0 <= k < r.value ==> auctions[k].id != id
    ensures r.None? <==> forall k :: 0 <= k < |auctions| ==> auctions[k].id != id
  {
    if auctions == [] then None
    else if auctions[0].id == id then Some(0)
    else
      match FindIndex(auctions[1..], id)
      case None => None
      case Some(j) => Some(j + 1)
  }

  /** The auction row with this id, if there is one. */
  function FindAuction(auctions: seq<Auction>, id: int): (r: Option<Auction>)
    ensures r.Some? ==> r.value in auctions && r.value.id == id
    ensures r.None? <==> !HasAuction(auctions, id)
  {
    match FindIndex(auctions, id)
    case None => None
    case Some(i) => Some(auctions[i])
  }

  const AuctionNotFound := HttpError(404, "Auction not found")

  /** The bids placed on one auction, in table order (`auction.bids`). */
  function BidsOn(bids: seq<Bid>, auctionId: int): seq<Bid>
  {
    Filter(bids, (b: Bid) => b.auctionId == auctionId)
  }

  /** The bids placed by one user, in table order. */
  function BidsBy(bids: seq<Bid>, userId: int): seq<Bid>
  {
    Filter(bids, (b: Bid) => b.userId == userId)
  }

  function Time(b: Bid): int { b.time }

  /** Bids ordered by time, most recent first (`order_by(time.desc())`). */
  function NewestFirst(bs: seq<Bid>): (r: seq<Bid>)
    ensures SortedDesc(r, Time)
    ensures multiset(r) == multiset(bs)
  {
    SortDesc(bs, Time)
  }

  /** Every bid on a page of `NewestFirst(bs)` is one of `bs`. */
  lemma NewestPageFrom(bs: seq<Bid>, skip: nat, limit: nat)
    ensures forall k :: 0 <= k < |Page(NewestFirst(bs), skip, limit)| ==> Page(NewestFirst(bs), skip, limit)[k] in bs
  {
    var ordered := NewestFirst(bs);
    var page := Page(ordered, skip, limit);
    forall k | 0 <= k < |page| ensures page[k] in bs {
      assert page[k] == ordered[skip + k];
      assert page[k] in multiset(ordered);
    }
  }

  /** The last bid accepted on an auction: its current leader. */
  function Leader(bids: seq<Bid>, auctionId: int): (r: Option<Bid>)
    ensures r.None? <==> BidsOn(bids, auctionId) == []
    ensures r.Some? ==> r.value in bids && r.value.auctionId == auctionId
  {
    var h := BidsOn(bids, auctionId);
    if h == [] then None else Some(h[|h| - 1])
  }

  /** The bid with the largest amount (`order_by(amount.desc()).first()`).
      Among equal amounts the earliest row is taken; the database leaves that
      choice open. */
  function MaxByAmount(bs: seq<Bid>): (r: Option<Bid>)
    ensures r.None? <==> bs == []
    ensures r.Some? ==> r.value in bs && forall b :: b in bs ==> b.amount <= r.value.amount
  {
    if bs == [] then None
    else
      var last := bs[|bs| - 1];
      var init := bs[..|bs| - 1];
      assert bs == init + [last];
      var best := MaxByAmount(init);
      if best.None? || last.amount > best.value.amount then Some(last) else best
  }

  /** The query `create_bid` runs after storing bid `newBidId`: the highest bid
      on the same auction other than the new one. */
  function OutbidTarget(bids: seq<Bid>, auctionId: int, newBidId: int): (r: Option<Bid>)
    ensures r.None? <==> forall b :: b in bids ==> b.auctionId != auctionId || b.id == newBidId
    ensures r.Some? ==> r.value in bids && r.value.auctionId == auctionId && r.value.id != newBidId
    ensures r.Some? ==> forall b :: b in bids && b.auctionId == auctionId && b.id != newBidId ==> b.amount <= r.value.amount
  {
    MaxByAmount(Filter(bids, (b: Bid) => b.auctionId == auctionId && b.id != newBidId))
  }

  predicate StrictlyIncreasing(history: seq<Bid>)
  {
    forall j, k :: 0 <= j < k < |history| ==> history[j].amount < history[k].amount
  }

  /** What the bid history of auction `a` must look like: amounts strictly
      increase, the first exceeds the starting price, the last is the current
      price, and without bids the current price is the starting price. */
  predicate PriceHistory(a: Auction, history: seq<Bid>)
  {
    && StrictlyIncreasing(history)
    && (history == [] ==> a.currentPrice == a.startingPrice)
    && (history != [] ==> history[0].amount > a.startingPrice && history[|history| - 1].amount == a.currentPrice)
  }

  predicate HasAuction(auctions: seq<Auction>, id: int)
  {
    exists k :: 0 <= k < |auctions| && auctions[k].id == id
  }

  predicate DistinctAuctionIds(auctions: seq<Auction>)
  {
    forall j, k :: 0 <= j < k < |auctions| ==> auctions[j].id != auctions[k].id
  }

  predicate DistinctBidIds(bids: seq<Bid>)
  {
    forall j, k :: 0 <= j < k < |bids| ==> bids[j].id != bids[k].id
  }

  /** Every bid belongs to an auction that is in the table. */
  predicate BidsReferenceAuctions(auctions: seq<Auction>, bids: seq<Bid>)
  {
    forall k :: 0 <= k < |bids| ==> HasAuction(auctions, bids[k].auctionId)
  }

  /** Every auction's bid history is well formed. */
  predicate HistoriesHold(auctions: seq<Auction>, bids: seq<Bid>)
  {
    forall i :: 0 <= i < |auctions| ==> PriceHistory(auctions[i], BidsOn(bids, auctions[i].id))
  }

  /** The invariant of the two tables. */
  predicate Consistent(auctions: seq<Auction>, bids: seq<Bid>)
  {
    && DistinctAuctionIds(auctions)
    && DistinctBidIds(bids)
    && BidsReferenceAuctions(auctions, bids)
    && HistoriesHold(auctions, bids)
  }

  /** An auction id that no row carries has no bids. */
  lemma NoBidsOnUnknownAuction(auctions: seq<Auction>, bids: seq<Bid>, id: int)
    requires Consistent(auctions, bids)
    requires !HasAuction(auctions, id)
    ensures BidsOn(bids, id) == []
  {
    FilterEmpty(bids, (b: Bid) => b.auctionId == id);
  }

  /** Appending bid `nb` extends the history of its own auction by `nb` and
      leaves every other history as it was. */
  lemma BidsOnAppend(bids: seq<Bid>, nb: Bid, id: int)
    ensures BidsOn(bids + [nb], id) == BidsOn(bids, id) + (if nb.auctionId == id then [nb] else [])
  {
    FilterAppend(bids, nb, (b: Bid) => b.auctionId == id);
  }

  /** A bid above the current price extends a well-formed history, with the
      bid's amount as the new current price. */
  lemma ExtendHistory(a: Auction, history: seq<Bid>, nb: Bid)
    requires PriceHistory(a, history)
    requires nb.amount > a.currentPrice
    ensures PriceHistory(a.(currentPrice := nb.amount), history + [nb])
  {
    var h' := history + [nb];
    forall j, k | 0 <= j < k < |h'| ensures h'[j].amount < h'[k].amount {
      if k == |history| && j < |history| - 1 {
        assert history[j].amount < history[|history| - 1].amount;
      }
    }
  }

  /** Changing one row but not its id keeps every bid's auction present. */
  lemma ReferencesKept(auctions: seq<Auction>, bids: seq<Bid>, i: nat, a: Auction)
    requires i < |auctions| && a.id == auctions[i].id
    requires BidsReferenceAuctions(auctions, bids)
    ensures BidsReferenceAuctions(auctions[i := a], bids)
  {
    forall k | 0 <= k < |bids| ensures HasAuction(auctions[i := a], bids[k].auctionId) {
      var j :| 0 <= j < |auctions| && auctions[j].id == bids[k].auctionId;
      assert auctions[i := a][j].id == bids[k].auctionId;
    }
  }

  /** Changing one row but not its id keeps the ids distinct. */
  lemma DistinctIdsKept(auctions: seq<Auction>, i: nat, a: Auction)
    requires DistinctAuctionIds(auctions)
    requires i < |auctions| && a.id == auctions[i].id
    ensures DistinctAuctionIds(auctions[i := a])
  {
    assert forall j :: 0 <= j < |auctions| ==> auctions[i := a][j].id == auctions[j].id;
  }

  /** Appending a bid with a new id keeps the bid ids distinct. */
  lemma DistinctBidIdsKept(bids: seq<Bid>, nb: Bid)
    requires DistinctBidIds(bids)
    requires forall k :: 0 <= k < |bids| ==> bids[k].id != nb.id
    ensures DistinctBidIds(bids + [nb])
  {
    assert forall k :: 0 <= k < |bids| ==> (bids + [nb])[k] == bids[k];
  }

  /** After accepting `nb` on auction `i`, every history is still well formed. */
  lemma HistoriesExtended(auctions: seq<Auction>, bids: seq<Bid>, i: nat, nb: Bid)
    requires DistinctAuctionIds(auctions) && HistoriesHold(auctions, bids)
    requires i < |auctions| && nb.auctionId == auctions[i].id
    requires nb.amount > auctions[i].currentPrice
    ensures HistoriesHold(auctions[i := auctions[i].(currentPrice := nb.amount)], bids + [nb])
  {
    var auctions' := auctions[i := auctions[i].(currentPrice := nb.amount)];
    forall j | 0 <= j < |auctions'|
      ensures PriceHistory(auctions'[j], BidsOn(bids + [nb], auctions'[j].id))
    {
      BidsOnAppend(bids, nb, auctions[j].id);
      if j == i {
        ExtendHistory(auctions[i], BidsOn(bids, auctions[i].id), nb);
      } else {
        assert auctions[j].id != auctions[i].id;
        assert auctions'[j] == auctions[j];
      }
    }
  }

  /** Appending a bid on an auction in the table keeps every bid's auction
      present. */
  lemma ReferencesExtended(auctions: seq<Auction>, bids: seq<Bid>, nb: Bid)
    requires BidsReferenceAuctions(auctions, bids)
    requires HasAuction(auctions, nb.auctionId)
    ensures BidsReferenceAuctions(auctions, bids + [nb])
  {
    assert forall k :: 0 <= k < |bids| ==> (bids + [nb])[k] == bids[k];
  }

  /** Accepting bid `nb` on auction `i` (its amount exceeds the current price,
      its id is new) and raising the current price to the amount keeps the
      tables consistent. */
  lemma AcceptKeepsConsistent(auctions: seq<Auction>, bids: seq<Bid>, i: nat, nb: Bid)
    requires Consistent(auctions, bids)
    requires i < |auctions| && nb.auctionId == auctions[i].id
    requires nb.amount > auctions[i].currentPrice
    requires forall k :: 0 <= k < |bids| ==> bids[k].id != nb.id
    ensures Consistent(auctions[i := auctions[i].(currentPrice := nb.amount)], bids + [nb])
  {
    var a := auctions[i].(currentPrice := nb.amount);
    DistinctIdsKept(auctions, i, a);
    DistinctBidIdsKept(bids, nb);
    HistoriesExtended(auctions, bids, i, nb);
    ReferencesExtended(auctions, bids, nb);
    ReferencesKept(auctions, bids + [nb], i, a);
  }

  /** Adding an auction with a new id whose current price is its starting
      price keeps the tables consistent. */
  lemma InsertKeepsConsistent(auctions: seq<Auction>, bids: seq<Bid>, a: Auction)
    requires Consistent(auctions, bids)
    requires !HasAuction(auctions, a.id)
    requires a.currentPrice == a.startingPrice
    ensures Consistent(auctions + [a], bids)
  {
    var auctions' := auctions + [a];
    NoBidsOnUnknownAuction(auctions, bids, a.id);
    forall k | 0 <= k < |bids| ensures HasAuction(auctions', bids[k].auctionId) {
      var j :| 0 <= j < |auctions| && auctions[j].id == bids[k].auctionId;
      assert auctions'[j].id == bids[k].auctionId;
    }
    forall j, k | 0 <= j < k < |auctions'| ensures auctions'[j].id != auctions'[k].id {
      if k == |auctions| { assert auctions[j].id != a.id; }
    }
  }

  /** Overwriting auction `i`, which has no bids, by a row with the same id
      whose current price is its starting price keeps the tables consistent. */
  lemma ReplaceKeepsConsistent(auctions: seq<Auction>, bids: seq<Bid>, i: nat, a: Auction)
    requires Consistent(auctions, bids)
    requires i < |auctions| && a.id == auctions[i].id
    requires BidsOn(bids, a.id) == []
    requires a.currentPrice == a.startingPrice
    ensures Consistent(auctions[i := a], bids)
  {
    ReferencesKept(auctions, bids, i, a);
  }

  /** Removing a row whose id no bid refers to keeps every bid's auction present. */
  lemma ReferencesKeptByRemoval(auctions: seq<Auction>, bids: seq<Bid>, i: nat)
    requires i < |auctions|
    requires BidsReferenceAuctions(auctions, bids)
    requires forall k :: 0 <= k < |bids| ==> bids[k].auctionId != auctions[i].id
    ensures BidsReferenceAuctions(auctions[..i] + auctions[i + 1..], bids)
  {
    var auctions' := auctions[..i] + auctions[i + 1..];
    forall k | 0 <= k < |bids| ensures HasAuction(auctions', bids[k].auctionId) {
      var j :| 0 <= j < |auctions| && auctions[j].id == bids[k].auctionId;
      if j < i {
        assert auctions'[j].id == bids[k].auctionId;
      } else {
        assert auctions'[j - 1].id == bids[k].auctionId;
      }
    }
  }

  /** Removing auction `i`, which has no bids, keeps the tables consistent. */
  lemma RemoveKeepsConsistent(auctions: seq<Auction>, bids: seq<Bid>, i: nat)
    requires Consistent(auctions, bids)
    requires i < |auctions|
    requires BidsOn(bids, auctions[i].id) == []
    ensures Consistent(auctions[..i] + auctions[i + 1..], bids)
  {
    var auctions' := auctions[..i] + auctions[i + 1..];
    assert BidsReferenceAuctions(auctions', bids) by {
      FilterEmpty(bids, (b: Bid) => b.auctionId == auctions[i].id);
      ReferencesKeptByRemoval(auctions, bids, i);
    }
    assert forall j :: 0 <= j < |auctions'| ==> auctions'[j] == if j < i then auctions[j] else auctions[j + 1];
    assert DistinctAuctionIds(auctions') by {
      forall j, k | 0 <= j < k < |auctions'| ensures auctions'[j].id != auctions'[k].id {
        var j0 := if j < i then j else j + 1;
        var k0 := if k < i then k else k + 1;
        assert auctions'[j] == auctions[j0] && auctions'[k] == auctions[k0] && j0 < k0;
      }
    }
    assert HistoriesHold(auctions', bids);
  }

  /** In a strictly increasing history the bid with the largest amount is the
      last one. */
  lemma {:induction false} LastIsMax(history: seq<Bid>)
    requires StrictlyIncreasing(history) && history != []
    ensures MaxByAmount(history) == Some(history[|history| - 1])
    decreases |history|
  {
    var init := history[..|history| - 1];
    if init != [] {
      LastIsMax(init);
      assert init[|init| - 1].amount < history[|history| - 1].amount;
    }
  }

  /** The user `create_bid` notifies as outbid is the one who held the previous
      highest bid on that auction: the last bid of its history before the new
      one, whose amount was the auction's current price. */
  lemma OutbidTargetIsPreviousLeader(auctions: seq<Auction>, bids: seq<Bid>, i: nat, nb: Bid)
    requires Consistent(auctions, bids)
    requires i < |auctions| && nb.auctionId == auctions[i].id
    requires forall k :: 0 <= k < |bids| ==> bids[k].id != nb.id
    ensures OutbidTarget(bids + [nb], nb.auctionId, nb.id) == Leader(bids, nb.auctionId)
    ensures Leader(bids, nb.auctionId).Some? ==> Leader(bids, nb.auctionId).value.amount == auctions[i].currentPrice
  {
    var id := auctions[i].id;
    var p := (b: Bid) => b.auctionId == id && b.id != nb.id;
    var h := BidsOn(bids, id);
    assert Filter(bids + [nb], p) == h by {
      FilterAppend(bids, nb, p);
      assert forall b :: b in bids ==> b.id != nb.id;
      FilterCongruent(bids, p, (b: Bid) => b.auctionId == id);
    }
    assert PriceHistory(auctions[i], h);
    if h != [] { LastIsMax(h); }
  }

  predicate IdsBelow(auctions: seq<Auction>, next: int)
  {
    forall k :: 0 <= k < |auctions| ==> auctions[k].id < next
  }

  predicate BidIdsBelow(bids: seq<Bid>, next: int)
  {
    forall k :: 0 <= k < |bids| ==> bids[k].id < next
  }

  /** The invariant of the tables together with the id counters: every row
      id handed out so far is below its counter. */
  ghost predicate Stored(auctions: seq<Auction>, bids: seq<Bid>, nextAuctionId: int, nextBidId: int)
  {
    && Consistent(auctions, bids)
    && IdsBelow(auctions, nextAuctionId)
    && BidIdsBelow(bids, nextBidId)
  }

  lemma NextBidIdFresh(bids: seq<Bid>, next: int, nb: Bid)
    requires BidIdsBelow(bids, next) && nb.id == next
    ensures forall k :: 0 <= k < |bids| ==> bids[k].id != nb.id
    ensures BidIdsBelow(bids + [nb], next + 1)
  {
    assert forall k :: 0 <= k < |bids| ==> (bids + [nb])[k] == bids[k];
  }

  lemma IdsBelowKept(auctions: seq<Auction>, next: int, i: nat, a: Auction)
    requires IdsBelow(auctions, next) && i < |auctions| && a.id == auctions[i].id
    ensures IdsBelow(auctions[i := a], next)
  {
    assert forall k :: 0 <= k < |auctions| ==> auctions[i := a][k].id == auctions[k].id;
  }

  /** Storing bid `nb` under the next bid id and raising auction `i`'s price
      to its amount keeps the tables valid. */
  lemma AcceptKeepsStored(auctions: seq<Auction>, bids: seq<Bid>, nextAuctionId: int, nextBidId: int, i: nat, nb: Bid)
    requires Stored(auctions, bids, nextAuctionId, nextBidId)
    requires i < |auctions| && nb.auctionId == auctions[i].id && nb.id == nextBidId
    requires nb.amount > auctions[i].currentPrice
    ensures Stored(auctions[i := auctions[i].(currentPrice := nb.amount)], bids + [nb], nextAuctionId, nextBidId + 1)
  {
    NextBidIdFresh(bids, nextBidId, nb);
    AcceptKeepsConsistent(auctions, bids, i, nb);
    IdsBelowKept(auctions, nextAuctionId, i, auctions[i].(currentPrice := nb.amount));
  }

  /** Storing a new auction under the next auction id, with its current
      price at its starting price, keeps the tables valid. */
  lemma InsertKeepsStored(auctions: seq<Auction>, bids: seq<Bid>, nextAuctionId: int, nextBidId: int, a: Auction)
    requires Stored(auctions, bids, nextAuctionId, nextBidId)
    requires a.id == nextAuctionId && a.currentPrice == a.startingPrice
    ensures Stored(auctions + [a], bids, nextAuctionId + 1, nextBidId)
  {
    assert !HasAuction(auctions, a.id);
    InsertKeepsConsistent(auctions, bids, a);
    assert forall k :: 0 <= k < |auctions| ==> (auctions + [a])[k] == auctions[k];
  }

  /** Overwriting auction `i`, which has no bids, with a row of the same id
      whose current price is its starting price keeps the tables valid. */
  lemma ReplaceKeepsStored(auctions: seq<Auction>, bids: seq<Bid>, nextAuctionId: int, nextBidId: int, i: nat, a: Auction)
    requires Stored(auctions, bids, nextAuctionId, nextBidId)
    requires i < |auctions| && a.id == auctions[i].id
    requires BidsOn(bids, a.id) == [] && a.currentPrice == a.startingPrice
    ensures Stored(auctions[i := a], bids, nextAuctionId, nextBidId)
  {
    ReplaceKeepsConsistent(auctions, bids, i, a);
    IdsBelowKept(auctions, nextAuctionId, i, a);
  }

  /** Removing auction `i`, which has no bids, keeps the tables valid. */
  lemma RemoveKeepsStored(auctions: seq<Auction>, bids: seq<Bid>, nextAuctionId: int, nextBidId: int, i: nat)
    requires Stored(auctions, bids, nextAuctionId, nextBidId)
    requires i < |auctions| && BidsOn(bids, auctions[i].id) == []
    ensures Stored(auctions[..i] + auctions[i + 1..], bids, nextAuctionId, nextBidId)
  {
    RemoveKeepsConsistent(auctions, bids, i);
    IdsBelowRemoved(auctions, nextAuctionId, i);
  }

  lemma IdsBelowRemoved(auctions: seq<Auction>, next: int, i: nat)
    requires IdsBelow(auctions, next) && i < |auctions|
    ensures IdsBelow(auctions[..i] + auctions[i + 1..], next)
  {
    var auctions' := auctions[..i] + auctions[i + 1..];
    assert forall j :: 0 <= j < |auctions'| ==> auctions'[j] == if j < i then auctions[j] else auctions[j + 1];
  }

  /** With distinct ids, removing row `i` removes exactly the auction with
      that id: every other row stays. */
  lemma {:induction false} RemoveExactly(auctions: seq<Auction>, i: nat)
    requires DistinctAuctionIds(auctions) && i < |auctions|
    ensures forall a :: a in auctions[..i] + auctions[i + 1..] <==> a in auctions && a.id != auctions[i].id
  {
    var auctions' := auctions[..i] + auctions[i + 1..];
    forall a | a in auctions && a.id != auctions[i].id ensures a in auctions' {
      var j :| 0 <= j < |auctions| && auctions[j] == a;
      if j < i {
        assert auctions[..i][j] == a;
        assert auctions'[j] == a;
      } else {
        assert j != i;
        assert auctions[i + 1..][j - i - 1] == a;
        assert auctions'[j - 1] == a;
      }
    }
    forall a | a in auctions' ensures a in auctions && a.id != auctions[i].id {
      var j :| 0 <= j < |auctions'| && auctions'[j] == a;
      var j0 := if j < i then j else j + 1;
      if j < i {
        assert auctions[..i][j] == a;
      } else {
        assert auctions[i + 1..][j - i] == a;
      }
      assert auctions[j0] == a && j0 != i;
      assert auctions[j0].id != auctions[i].id;
    }
  }

  /** The tables as one object, updated in place by the route handlers.
      Row ids are handed out by counters, as the database's primary keys are. */
  class Database {
    var auctions: seq<Auction>
    var bids: seq<Bid>
    var nextAuctionId: int
    var nextBidId: int

    ghost predicate Valid()
      reads this
    {
      Stored(auctions, bids, nextAuctionId, nextBidId)
    }

    constructor ()
      ensures Valid() && auctions == [] && bids == []
    {
      auctions := [];
      bids := [];
      nextAuctionId := 1;
      nextBidId := 1;
    }
  }
}
