/** The bid routes: placing a bid (the admission rules, the price update, the
    `new_bid` broadcast and the outbid notice) and the two bid listings. */
module BidRoutes {
  import opened Domain
  import opened Seqs
  import opened Ledger
  import opened Connections

  const AuctionHasEnded := HttpError(400, "Auction has ended")
  const BidTooLow := HttpError(400, "Bid must be higher than current price")

  /** The checks `create_bid` makes, in order, on the auction the request
      names (`None` when no row has that id). `None` means the bid is accepted.
      A bid at exactly the end time is accepted, and the owner of the auction
      may bid on it. */
  function BidRejection(auction: Option<Auction>, amount: real, now: int): (r: Option<HttpError>)
    ensures r.None? <==> auction.Some? && auction.value.isActive && now <= auction.value.endTime
                         && amount > auction.value.currentPrice
    ensures auction.None? ==> r == Some(AuctionNotFound)
    ensures auction.Some? && (!auction.value.isActive || auction.value.endTime < now) ==> r == Some(AuctionHasEnded)
    ensures (auction.Some? && auction.value.isActive && now <= auction.value.endTime
             && amount <= auction.value.currentPrice) ==> r == Some(BidTooLow)
  {
    match auction
    case None => Some(AuctionNotFound)
    case Some(a) =>
      if !a.isActive || a.endTime < now then Some(AuctionHasEnded)
      else if amount <= a.currentPrice then Some(BidTooLow)
      else None
  }

  /** The outbid notice: sent to the socket of the previous leader's user when
      that user is not the new bidder and has a socket. */
  function OutbidNotice(previous: Option<Bid>, bidderId: int, users: map<int, Socket>, m: Event): (notice: seq<Delivery>)
    ensures |notice| <= 1
    ensures |notice| == 1 <==> previous.Some? && previous.value.userId != bidderId && previous.value.userId in users
    ensures |notice| == 1 ==> notice[0].socket == users[previous.value.userId] && notice[0].message == m
  {
    if previous.Some? && previous.value.userId != bidderId && previous.value.userId in users
    then [Delivery(users[previous.value.userId], m)]
    else []
  }

  /** `after` is `before`, then one `m` to each watcher, then `notice`. */
  ghost predicate Announced(before: seq<Delivery>, after: seq<Delivery>, watchers: set<Socket>, m: Event, notice: seq<Delivery>)
  {
    && |before| + |notice| <= |after|
    && after[..|before|] == before
    && OncePerMember(after[|before|..|after| - |notice|], watchers, m)
    && after[|after| - |notice|..] == notice
  }

  lemma AnnouncedThenNotice(before: seq<Delivery>, announced: seq<Delivery>, watchers: set<Socket>, m: Event, notice: seq<Delivery>)
    requires |before| <= |announced| && announced[..|before|] == before
    requires OncePerMember(announced[|before|..], watchers, m)
    ensures Announced(before, announced + notice, watchers, m, notice)
  {
    var after := announced + notice;
    assert after[|before|..|after| - |notice|] == announced[|before|..];
    assert after[|after| - |notice|..] == notice;
  }

  /** The write half of `create_bid`: stores the bid under the next bid id
      and raises auction `i`'s current price to its amount. */
  method StoreBid(db: Database, i: nat, amount: real, now: int, userId: int) returns (bid: Bid)
    requires db.Valid()
    requires i < |db.auctions| && amount > db.auctions[i].currentPrice
    modifies db
    ensures db.Valid()
    ensures bid == Bid(old(db.nextBidId), amount, now, old(db.auctions)[i].id, userId)
    ensures db.bids == old(db.bids) + [bid]
    ensures db.auctions == old(db.auctions)[i := old(db.auctions)[i].(currentPrice := amount)]
    ensures db.nextAuctionId == old(db.nextAuctionId) && db.nextBidId == old(db.nextBidId) + 1
  {
    bid := Bid(db.nextBidId, amount, now, db.auctions[i].id, userId);
    var auctions' := db.auctions[i := db.auctions[i].(currentPrice := amount)];
    var bids' := db.bids + [bid];
    AcceptKeepsStored(db.auctions, db.bids, db.nextAuctionId, db.nextBidId, i, bid);
    db.auctions, db.bids, db.nextBidId := auctions', bids', db.nextBidId + 1;
  }

  /** The notification half of `create_bid`: `new_bid` to the auction's
      watchers, then `outbid` to the holder of the previous highest bid when
      that is another user. */
  method AnnounceBid(cm: ConnectionManager, auction: Auction, bid: Bid, username: string, highestPrevious: Option<Bid>)
    modifies cm`sent
    ensures Announced(old(cm.sent), cm.sent, Watchers(cm.auctionConnections, auction.id),
                      NewBid(auction.id, bid.id, bid.amount, username, bid.time),
                      OutbidNotice(highestPrevious, bid.userId, cm.userConnections, Outbid(auction.id, auction.title, bid.amount)))
  {
    ghost var before := cm.sent;
    ghost var watchers := Watchers(cm.auctionConnections, auction.id);
    var announcement := NewBid(auction.id, bid.id, bid.amount, username, bid.time);
    cm.BroadcastToAuction(auction.id, announcement);
    ghost var announced := cm.sent;
    assert OncePerMember(announced[|before|..], watchers, announcement);
    var notice := Outbid(auction.id, auction.title, bid.amount);
    ghost var outbid := OutbidNotice(highestPrevious, bid.userId, cm.userConnections, notice);
    if highestPrevious.Some? && highestPrevious.value.userId != bid.userId {
      cm.SendToUser(highestPrevious.value.userId, notice);
    }
    assert cm.sent == announced + outbid;
    AnnouncedThenNotice(before, announced, watchers, announcement, outbid);
  }

  /** `create_bid`: checks the request, then stores the bid, raises the
      auction's current price to the amount, announces the bid to the
      auction's watchers and tells the previous leader that they were outbid.
      A rejected request changes nothing. */
  method CreateBid(db: Database, cm: ConnectionManager, req: BidRequest, user: User, now: int) returns (r: Result<Bid>)
    requires db.Valid()
    modifies db, cm`sent
    ensures db.Valid()
    ensures var rejection := BidRejection(FindAuction(old(db.auctions), req.auctionId), req.amount, now);
      && (r.Err? <==> rejection.Some?)
      && (r.Err? ==> r.error == rejection.value && unchanged(db) && cm.sent == old(cm.sent))
    ensures r.Ok? ==> r.value == Bid(old(db.nextBidId), req.amount, now, req.auctionId, user.id)
    ensures r.Ok? ==> db.bids == old(db.bids) + [r.value]
    ensures r.Ok? ==> db.nextAuctionId == old(db.nextAuctionId) && db.nextBidId == old(db.nextBidId) + 1
    ensures r.Ok? ==>
      var i := FindIndex(old(db.auctions), req.auctionId).value;
      db.auctions == old(db.auctions)[i := old(db.auctions)[i].(currentPrice := req.amount)]
    ensures r.Ok? ==>
      var a := FindAuction(old(db.auctions), req.auctionId).value;
      Announced(old(cm.sent), cm.sent, Watchers(cm.auctionConnections, a.id),
                NewBid(a.id, r.value.id, r.value.amount, user.username, now),
                OutbidNotice(Leader(old(db.bids), a.id), user.id, cm.userConnections,
                             Outbid(a.id, a.title, req.amount)))
  {
    var found := FindIndex(db.auctions, req.auctionId);
    if found.None? {
      return Err(AuctionNotFound);
    }
    var i := found.value;
    var auction := db.auctions[i];
    if !auction.isActive || auction.endTime < now {
      return Err(AuctionHasEnded);
    }
    if req.amount <= auction.currentPrice {
      return Err(BidTooLow);
    }
    ghost var previous := Leader(db.bids, auction.id);
    var bid := StoreBid(db, i, req.amount, now, user.id);
    OutbidTargetIsPreviousLeader(old(db.auctions), old(db.bids), i, bid);
    var highestPrevious := OutbidTarget(db.bids, auction.id, bid.id);
    assert highestPrevious == previous;
    AnnounceBid(cm, auction, bid, user.username, highestPrevious);
    return Ok(bid);
  }

  /** Once a bid of `amount` is accepted on an auction, a second bid of the
      same amount on it is refused as too low (or as late), whoever sends it. */
  lemma EqualBidRefused(auctions: seq<Auction>, i: nat, amount: real, now: int)
    requires DistinctAuctionIds(auctions) && i < |auctions|
    ensures BidRejection(FindAuction(auctions[i := auctions[i].(currentPrice := amount)], auctions[i].id), amount, now).Some?
  {
    var auctions' := auctions[i := auctions[i].(currentPrice := amount)];
    assert DistinctAuctionIds(auctions');
    FindDistinct(auctions', i);
  }

  /** With distinct ids, looking up the id of row `i` finds row `i`. */
  lemma FindDistinct(auctions: seq<Auction>, i: nat)
    requires DistinctAuctionIds(auctions) && i < |auctions|
    ensures FindIndex(auctions, auctions[i].id) == Some(i)
  {
  }

  /** At the instant `end_time` an auction still takes bids, though the
      active listing (which asks for `end_time > now`) no longer shows it. */
  lemma BidAtClosingInstant(a: Auction, amount: real)
    requires a.isActive && amount > a.currentPrice
    ensures BidRejection(Some(a), amount, a.endTime).None?
    ensures !IsLive(a, a.endTime)
  {
  }

  /** `get_auction_bids`: 404 for an unknown auction, otherwise one page of
      that auction's bids, most recent first. */
  function GetAuctionBids(auctions: seq<Auction>, bids: seq<Bid>, auctionId: int, skip: nat, limit: nat): (r: Result<seq<Bid>>)
    ensures r.Err? <==> !HasAuction(auctions, auctionId)
    ensures r.Err? ==> r.error == AuctionNotFound
    ensures r.Ok? ==> |r.value| <= limit && SortedDesc(r.value, Time)
    ensures r.Ok? ==> forall k :: 0 <= k < |r.value| ==> r.value[k] in bids && r.value[k].auctionId == auctionId
    ensures r.Ok? ==> r.value == Page(NewestFirst(BidsOn(bids, auctionId)), skip, limit)
  {
    if FindAuction(auctions, auctionId).None? then Err(AuctionNotFound)
    else
      NewestPageFrom(BidsOn(bids, auctionId), skip, limit);
      Ok(Page(NewestFirst(BidsOn(bids, auctionId)), skip, limit))
  }

  /** A first page at least as long as the history holds every bid of the
      auction, each as often as the table does. */
  lemma AuctionBidsComplete(auctions: seq<Auction>, bids: seq<Bid>, auctionId: int, limit: nat)
    requires HasAuction(auctions, auctionId)
    requires |BidsOn(bids, auctionId)| <= limit
    ensures GetAuctionBids(auctions, bids, auctionId, 0, limit).Ok?
    ensures multiset(GetAuctionBids(auctions, bids, auctionId, 0, limit).value) == multiset(BidsOn(bids, auctionId))
  {
    var ordered := NewestFirst(BidsOn(bids, auctionId));
    assert |ordered| == |BidsOn(bids, auctionId)| by {
      assert |multiset(ordered)| == |multiset(BidsOn(bids, auctionId))|;
    }
    PageAll(ordered, limit);
  }

  /** `get_user_bids`: one page of the caller's bids, most recent first. */
  function GetUserBids(bids: seq<Bid>, userId: int, skip: nat, limit: nat): (r: seq<Bid>)
    ensures |r| <= limit && SortedDesc(r, Time)
    ensures forall k :: 0 <= k < |r| ==> r[k] in bids && r[k].userId == userId
    ensures r == Page(NewestFirst(BidsBy(bids, userId)), skip, limit)
  {
    NewestPageFrom(BidsBy(bids, userId), skip, limit);
    Page(NewestFirst(BidsBy(bids, userId)), skip, limit)
  }

  /** A first page at least as long as the user's bids holds all of them. */
  lemma UserBidsComplete(bids: seq<Bid>, userId: int, limit: nat)
    requires |BidsBy(bids, userId)| <= limit
    ensures multiset(GetUserBids(bids, userId, 0, limit)) == multiset(BidsBy(bids, userId))
  {
    var ordered := NewestFirst(BidsBy(bids, userId));
    assert |ordered| == |BidsBy(bids, userId)| by {
      assert |multiset(ordered)| == |multiset(BidsBy(bids, userId))|;
    }
    PageAll(ordered, limit);
  }

  /** A bid of the auction missing from a first page is no newer than any
      bid on it: the page holds the most recent bids. */
  lemma UnlistedAuctionBidsNoNewer(auctions: seq<Auction>, bids: seq<Bid>, auctionId: int, limit: nat)
    requires HasAuction(auctions, auctionId)
    ensures var page := GetAuctionBids(auctions, bids, auctionId, 0, limit).value;
      forall b :: b in BidsOn(bids, auctionId) && b !in page ==> forall p :: p in page ==> b.time <= p.time
  {
    NewestPageNoOlder(BidsOn(bids, auctionId), limit);
  }

  /** A bid of the user missing from a first page is no newer than any bid
      on it. */
  lemma UnlistedUserBidsNoNewer(bids: seq<Bid>, userId: int, limit: nat)
    ensures var page := GetUserBids(bids, userId, 0, limit);
      forall b :: b in BidsBy(bids, userId) && b !in page ==> forall p :: p in page ==> b.time <= p.time
  {
    NewestPageNoOlder(BidsBy(bids, userId), limit);
  }

  /** The first page of `NewestFirst(bs)` holds bids no older than any bid of
      `bs` left off it. */
  lemma NewestPageNoOlder(bs: seq<Bid>, limit: nat)
    ensures var page := Page(NewestFirst(bs), 0, limit);
      forall b :: b in bs && b !in page ==> forall p :: p in page ==> b.time <= p.time
  {
    var ordered := NewestFirst(bs);
    var n := Min(limit, |ordered|);
    var page := Page(ordered, 0, limit);
    assert page == ordered[..n];
    BelowSortedPrefix(ordered, n, Time);
    forall b | b in bs && b !in page ensures forall p :: p in page ==> b.time <= p.time {
      assert b in multiset(bs);
      assert b in ordered;
      forall p | p in page ensures b.time <= p.time {
        var j :| 0 <= j < n && ordered[..n][j] == p;
        assert Time(b) <= Time(ordered[j]);
      }
    }
  }
}
