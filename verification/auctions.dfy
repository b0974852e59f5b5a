/** The auction routes: creating, listing, reading, updating and deleting
    auctions, with the owner and no-bids guards on update and delete and the
    live-channel messages each change sends. */
module AuctionRoutes {
  import opened Domain
  import opened Seqs
  import opened Ledger
  import opened Connections

  /** `create_auction`: stores a row under the next id, owned by the caller,
      active, starting now, with its current price at its starting price, and
      announces it to every open socket. */
  method CreateAuction(db: Database, cm: ConnectionManager, input: AuctionInput, caller: User, now: int)
    returns (created: Auction)
    requires db.Valid()
    modifies db, cm`sent
    ensures db.Valid()
    ensures created.currentPrice == created.startingPrice == input.startingPrice
    ensures created.ownerId == caller.id && created.isActive && created.startTime == now
    ensures created.title == input.title && created.description == input.description
    ensures created.imageUrl == input.imageUrl && created.endTime == input.endTime
    ensures created.id == old(db.nextAuctionId) && !HasAuction(old(db.auctions), created.id)
    ensures db.auctions == old(db.auctions) + [created] && db.bids == old(db.bids)
    ensures db.nextAuctionId == old(db.nextAuctionId) + 1 && db.nextBidId == old(db.nextBidId)
    ensures cm.sent == old(cm.sent) + FanOut(cm.activeConnections, NewAuction(created.id, created.title, created.currentPrice))
  {
    created := Auction(db.nextAuctionId, input.title, input.description, input.startingPrice,
                       input.startingPrice, input.imageUrl, now, input.endTime, true, caller.id);
    InsertKeepsStored(db.auctions, db.bids, db.nextAuctionId, db.nextBidId, created);
    ghost var auctions' := db.auctions + [created];
    db.auctions := db.auctions + [created];
    db.nextAuctionId := db.nextAuctionId + 1;
    assert db.auctions == auctions';
    cm.Broadcast(NewAuction(created.id, created.title, created.currentPrice));
  }

  /** The rows `get_auctions` pages through: the live auctions with
      `activeOnly`, otherwise the whole table, in table order. */
  function Listed(auctions: seq<Auction>, activeOnly: bool, now: int): (listed: seq<Auction>)
    ensures activeOnly ==> forall a :: a in listed <==> a in auctions && IsLive(a, now)
    ensures !activeOnly ==> listed == auctions
  {
    if activeOnly then Filter(auctions, (a: Auction) => IsLive(a, now)) else auctions
  }

  /** `get_auctions`: with `activeOnly`, the live auctions only; then the page
      that skips `skip` rows and keeps at most `limit`. */
  function GetAuctions(auctions: seq<Auction>, skip: nat, limit: nat, activeOnly: bool, now: int): (r: seq<Auction>)
    ensures |r| <= limit
    ensures forall k :: 0 <= k < |r| ==> r[k] in auctions
    ensures activeOnly ==> forall k :: 0 <= k < |r| ==> IsLive(r[k], now)
    ensures !activeOnly ==> |r| == (if skip <= |auctions| then Min(limit, |auctions| - skip) else 0)
    ensures !activeOnly ==> forall k :: 0 <= k < |r| ==> r[k] == auctions[skip + k]
    ensures r == Page(Listed(auctions, activeOnly, now), skip, limit)
  {
    var listed := Listed(auctions, activeOnly, now);
    var page := Page(listed, skip, limit);
    assert forall k :: 0 <= k < |page| ==> page[k] in listed;
    page
  }

  /** Paging through the listing misses and repeats nothing: a page followed
      by the next one is the page of their combined length. */
  lemma ListingPagesConcatenate(auctions: seq<Auction>, skip: nat, l1: nat, l2: nat, activeOnly: bool, now: int)
    ensures GetAuctions(auctions, skip, l1, activeOnly, now) + GetAuctions(auctions, skip + l1, l2, activeOnly, now)
            == GetAuctions(auctions, skip, l1 + l2, activeOnly, now)
  {
    PagesConcatenate(Listed(auctions, activeOnly, now), skip, l1, l2);
  }

  /** A first page at least as long as the table lists every live auction. */
  lemma ActiveListingComplete(auctions: seq<Auction>, limit: nat, now: int)
    requires |auctions| <= limit
    ensures forall a :: a in GetAuctions(auctions, 0, limit, true, now) <==> a in auctions && IsLive(a, now)
  {
    PageAll(Listed(auctions, true, now), limit);
  }

  /** An auction with its bids, as `get_auction` returns it. */
  datatype AuctionDetails = AuctionDetails(auction: Auction, bids: seq<Bid>)

  /** `get_auction`: 404 for an unknown id, otherwise the row and its bids. */
  function GetAuction(auctions: seq<Auction>, bids: seq<Bid>, id: int): (r: Result<AuctionDetails>)
    ensures r.Err? <==> !HasAuction(auctions, id)
    ensures r.Err? ==> r.error == AuctionNotFound
    ensures r.Ok? ==> r.value.auction in auctions && r.value.auction.id == id
    ensures r.Ok? ==> forall b :: b in r.value.bids <==> b in bids && b.auctionId == id
  {
    match FindAuction(auctions, id)
    case None => Err(AuctionNotFound)
    case Some(a) => Ok(AuctionDetails(a, BidsOn(bids, id)))
  }

  /** In consistent tables the details agree with themselves. Whatever order
      the bids come in, the price shown is the highest amount among them and
      every one exceeds the starting price; with no bid it is the starting
      price. In table order the highest bid is the last one. */
  lemma DetailsAgree(auctions: seq<Auction>, bids: seq<Bid>, id: int)
    requires Consistent(auctions, bids)
    requires HasAuction(auctions, id)
    ensures var d := GetAuction(auctions, bids, id).value;
      && (d.bids == [] ==> d.auction.currentPrice == d.auction.startingPrice)
      && (d.bids != [] ==> exists b :: b in d.bids && b.amount == d.auction.currentPrice)
      && (forall b :: b in d.bids ==> d.auction.startingPrice < b.amount <= d.auction.currentPrice)
      && (d.bids != [] ==> d.auction.currentPrice == d.bids[|d.bids| - 1].amount)
  {
    var i := FindIndex(auctions, id).value;
    var h := BidsOn(bids, auctions[i].id);
    assert PriceHistory(auctions[i], h);
    forall b | b in h
      ensures auctions[i].startingPrice < b.amount <= auctions[i].currentPrice
    {
      var j :| 0 <= j < |h| && h[j] == b;
      assert h[0].amount <= b.amount;
      assert b.amount <= h[|h| - 1].amount;
    }
    if h != [] {
      assert h[|h| - 1] in h;
    }
  }

  /** The 403 refusal; `verb` is "update" or "delete". */
  function NotAuthorized(verb: string): HttpError
  {
    HttpError(403, "Not authorized to " + verb + " this auction")
  }

  /** The 400 refusal for an auction that already has bids. */
  function HasBids(verb: string): HttpError
  {
    HttpError(400, "Cannot " + verb + " auction with existing bids")
  }

  /** The guards `update_auction` and `delete_auction` apply in order, `verb`
      naming the operation in the messages: 404 for a missing auction, 403 for
      a caller who does not own it, 400 when it has bids. */
  function OwnerCheck(auction: Option<Auction>, hasBids: bool, callerId: int, verb: string): (r: Option<HttpError>)
    ensures r.None? <==> auction.Some? && auction.value.ownerId == callerId && !hasBids
    ensures auction.None? ==> r == Some(AuctionNotFound)
    ensures auction.Some? && auction.value.ownerId != callerId ==> r == Some(NotAuthorized(verb))
    ensures (auction.Some? && auction.value.ownerId == callerId && hasBids) ==> r == Some(HasBids(verb))
  {
    match auction
    case None => Some(AuctionNotFound)
    case Some(a) =>
      if a.ownerId != callerId then Some(NotAuthorized(verb))
      else if hasBids then Some(HasBids(verb))
      else None
  }

  /** Once a bid is accepted on an auction, nobody may update or delete it
      any more, not even its owner: the bid table only grows. */
  lemma BidLocksAuction(bids: seq<Bid>, nb: Bid, a: Auction, callerId: int, verb: string)
    requires nb.auctionId == a.id
    ensures OwnerCheck(Some(a), BidsOn(bids + [nb], a.id) != [], callerId, verb).Some?
  {
    BidsOnAppend(bids, nb, a.id);
  }

  /** The row after an update: five fields overwritten from the input and the
      current price reset to the new starting price; id, owner, start time and
      the active flag kept. */
  function Revised(a: Auction, input: AuctionInput): (r: Auction)
    ensures r.id == a.id && r.ownerId == a.ownerId && r.startTime == a.startTime && r.isActive == a.isActive
    ensures r.title == input.title && r.description == input.description && r.imageUrl == input.imageUrl
    ensures r.endTime == input.endTime
    ensures r.startingPrice == input.startingPrice && r.currentPrice == input.startingPrice
  {
    a.(title := input.title, description := input.description, startingPrice := input.startingPrice,
       currentPrice := input.startingPrice, imageUrl := input.imageUrl, endTime := input.endTime)
  }

  /** The write half of `update_auction`: overwrites row `i`, which has no
      bids, field by field from the input. */
  method ReviseRow(db: Database, i: nat, input: AuctionInput) returns (revised: Auction)
    requires db.Valid() && i < |db.auctions| && BidsOn(db.bids, db.auctions[i].id) == []
    modifies db
    ensures db.Valid()
    ensures revised == Revised(old(db.auctions)[i], input)
    ensures db.auctions == old(db.auctions)[i := revised] && db.bids == old(db.bids)
    ensures db.nextAuctionId == old(db.nextAuctionId) && db.nextBidId == old(db.nextBidId)
  {
    revised := db.auctions[i];
    revised := revised.(title := input.title);
    revised := revised.(description := input.description);
    revised := revised.(startingPrice := input.startingPrice);
    revised := revised.(currentPrice := input.startingPrice);
    revised := revised.(imageUrl := input.imageUrl);
    revised := revised.(endTime := input.endTime);
    ReplaceKeepsStored(db.auctions, db.bids, db.nextAuctionId, db.nextBidId, i, revised);
    ghost var auctions' := db.auctions[i := revised];
    db.auctions := db.auctions[i := revised];
    assert db.auctions == auctions';
    assert Stored(db.auctions, db.bids, db.nextAuctionId, db.nextBidId);
  }

  /** The write half of `delete_auction`: removes row `i`, which has no bids;
      exactly the auctions with other ids remain. */
  method RemoveRow(db: Database, i: nat)
    requires db.Valid() && i < |db.auctions| && BidsOn(db.bids, db.auctions[i].id) == []
    modifies db
    ensures db.Valid()
    ensures db.auctions == old(db.auctions)[..i] + old(db.auctions)[i + 1..]
    ensures forall a :: a in db.auctions <==> a in old(db.auctions) && a.id != old(db.auctions)[i].id
    ensures db.bids == old(db.bids)
    ensures db.nextAuctionId == old(db.nextAuctionId) && db.nextBidId == old(db.nextBidId)
  {
    RemoveKeepsStored(db.auctions, db.bids, db.nextAuctionId, db.nextBidId, i);
    RemoveExactly(db.auctions, i);
    ghost var auctions' := db.auctions[..i] + db.auctions[i + 1..];
    db.auctions := db.auctions[..i] + db.auctions[i + 1..];
    assert db.auctions == auctions';
    assert Stored(db.auctions, db.bids, db.nextAuctionId, db.nextBidId);
  }

  /** `update_auction`: after the guards, overwrites the row field by field
      and announces the change to the auction's watchers. */
  method UpdateAuction(db: Database, cm: ConnectionManager, auctionId: int, input: AuctionInput, caller: User)
    returns (r: Result<Auction>)
    requires db.Valid()
    modifies db, cm`sent
    ensures db.Valid()
    ensures var rejection := OwnerCheck(FindAuction(old(db.auctions), auctionId),
                                        BidsOn(old(db.bids), auctionId) != [], caller.id, "update");
      && (r.Err? <==> rejection.Some?)
      && (r.Err? ==> r.error == rejection.value && unchanged(db) && cm.sent == old(cm.sent))
    ensures r.Ok? ==>
      var i := FindIndex(old(db.auctions), auctionId).value;
      r.value == Revised(old(db.auctions)[i], input) && db.auctions == old(db.auctions)[i := r.value]
    ensures r.Ok? ==> db.bids == old(db.bids)
    ensures r.Ok? ==> db.nextAuctionId == old(db.nextAuctionId) && db.nextBidId == old(db.nextBidId)
    ensures r.Ok? ==> |cm.sent| >= |old(cm.sent)| && cm.sent[..|old(cm.sent)|] == old(cm.sent)
    ensures r.Ok? ==> OncePerMember(cm.sent[|old(cm.sent)|..], Watchers(cm.auctionConnections, auctionId),
                                    AuctionUpdated(auctionId, input.title, input.startingPrice))
  {
    var found := FindIndex(db.auctions, auctionId);
    if found.None? {
      return Err(AuctionNotFound);
    }
    var i := found.value;
    var auction := db.auctions[i];
    if auction.ownerId != caller.id {
      return Err(NotAuthorized("update"));
    }
    if |BidsOn(db.bids, auctionId)| > 0 {
      return Err(HasBids("update"));
    }
    auction := ReviseRow(db, i, input);
    cm.BroadcastToAuction(auctionId, AuctionUpdated(auction.id, auction.title, auction.currentPrice));
    return Ok(auction);
  }

  /** `delete_auction`: after the guards, removes the row and tells every open
      socket. The response has no body, so only the error is returned. */
  method DeleteAuction(db: Database, cm: ConnectionManager, auctionId: int, caller: User)
    returns (err: Option<HttpError>)
    requires db.Valid()
    modifies db, cm`sent
    ensures db.Valid()
    ensures err == OwnerCheck(FindAuction(old(db.auctions), auctionId),
                              BidsOn(old(db.bids), auctionId) != [], caller.id, "delete")
    ensures err.Some? ==> unchanged(db) && cm.sent == old(cm.sent)
    ensures err.None? ==>
      var i := FindIndex(old(db.auctions), auctionId).value;
      db.auctions == old(db.auctions)[..i] + old(db.auctions)[i + 1..]
    ensures err.None? ==> forall a :: a in db.auctions <==> a in old(db.auctions) && a.id != auctionId
    ensures err.None? ==> db.bids == old(db.bids)
    ensures err.None? ==> db.nextAuctionId == old(db.nextAuctionId) && db.nextBidId == old(db.nextBidId)
    ensures err.None? ==> cm.sent == old(cm.sent) + FanOut(cm.activeConnections, AuctionDeleted(auctionId))
  {
    err := OwnerCheck(FindAuction(db.auctions, auctionId), |BidsOn(db.bids, auctionId)| > 0, caller.id, "delete");
    if err.Some? {
      return;
    }
    var i := FindIndex(db.auctions, auctionId).value;
    RemoveRow(db, i);
    cm.Broadcast(AuctionDeleted(auctionId));
    return None;
  }
}
