/** The profile page: the visitor guard, the caller's bids sorted newest
    first, and the per-bid auction label and status. */
module ProfilePage {
  import opened Domain
  import opened Seqs
  import opened Ledger

  /** A bid of the caller as the page receives it, with its auction if the
      response carried one. */
  datatype UserBid = UserBid(bid: Bid, auction: Option<Auction>)

  function BidTime(b: UserBid): int { b.bid.time }

  /** `sortedBids`: a sorted copy, newest first; the page's own list is left
      as it was. */
  function SortedBids(bids: seq<UserBid>): (r: seq<UserBid>)
    ensures SortedDesc(r, BidTime)
    ensures multiset(r) == multiset(bids)
  {
    SortDesc(bids, BidTime)
  }

  /** Sorting a list that is already newest first changes nothing. */
  lemma {:induction false} SortedBidsStable(bids: seq<UserBid>)
    requires SortedDesc(bids, BidTime)
    ensures SortedBids(bids) == bids
    decreases |bids|
  {
    if bids != [] {
      var rest := bids[1..];
      assert SortedDesc(rest, BidTime);
      SortedBidsStable(rest);
      assert bids == [bids[0]] + rest;
    }
  }

  /** "Highest Bid" when the auction's current price equals the bid's amount. */
  predicate IsHighestBid(b: UserBid)
    ensures b.auction.None? ==> !IsHighestBid(b)
    ensures IsHighestBid(b) ==> b.bid.amount == b.auction.value.currentPrice
  {
    b.auction.Some? && b.auction.value.currentPrice == b.bid.amount
  }

  function StatusText(b: UserBid): (text: string)
    ensures text == "Highest Bid" <==> IsHighestBid(b)
    ensures text == "Highest Bid" || text == "Outbid"
  {
    if IsHighestBid(b) then "Highest Bid" else "Outbid"
  }

  /** The auction column: the title, or "Auction #<id>" when the title is
      missing or empty. */
  function AuctionText(b: UserBid): (text: string)
    ensures b.auction.Some? && b.auction.value.title != "" ==> text == b.auction.value.title
    ensures !(b.auction.Some? && b.auction.value.title != "") ==> text == "Auction #" + IntToString(b.bid.auctionId)
  {
    if b.auction.Some? && b.auction.value.title != "" then b.auction.value.title
    else "Auction #" + IntToString(b.bid.auctionId)
  }

  /** What a visit does: a signed-out visitor is sent to the login page and
      nothing is fetched. */
  datatype Visit = RedirectToLogin | FetchBids

  function OnVisit(isAuthenticated: bool): (v: Visit)
    ensures v == FetchBids <==> isAuthenticated
  {
    if isAuthenticated then FetchBids else RedirectToLogin
  }

  /** In a well-formed history, a bid is at the current price exactly when it
      is the last one. */
  lemma AtPriceMeansLast(a: Auction, h: seq<Bid>, x: Bid)
    requires PriceHistory(a, h) && x in h
    ensures a.currentPrice == x.amount <==> h[|h| - 1] == x
  {
    var j :| 0 <= j < |h| && h[j] == x;
    if j < |h| - 1 {
      assert h[j].amount < h[|h| - 1].amount;
    }
  }

  /** Against consistent tables, "Highest Bid" marks exactly the auction's
      current leader, the last bid accepted on it. Bid amounts are distinct on
      an auction, so a bid of the same user at an earlier, lower amount is
      shown as outbid. */
  lemma HighestMeansLeader(auctions: seq<Auction>, bids: seq<Bid>, k: nat)
    requires Consistent(auctions, bids) && k < |bids|
    ensures var b := UserBid(bids[k], FindAuction(auctions, bids[k].auctionId));
      IsHighestBid(b) <==> Leader(bids, bids[k].auctionId) == Some(bids[k])
  {
    var id := bids[k].auctionId;
    var a := HistoryOfBidAuction(auctions, bids, k);
    AtPriceMeansLast(a, BidsOn(bids, id), bids[k]);
  }

  /** The auction of bid `k` exists, and its history is well formed and holds
      the bid. */
  lemma HistoryOfBidAuction(auctions: seq<Auction>, bids: seq<Bid>, k: nat) returns (a: Auction)
    requires Consistent(auctions, bids) && k < |bids|
    ensures FindAuction(auctions, bids[k].auctionId) == Some(a)
    ensures PriceHistory(a, BidsOn(bids, bids[k].auctionId)) && bids[k] in BidsOn(bids, bids[k].auctionId)
  {
    var id := bids[k].auctionId;
    assert HasAuction(auctions, id);
    var i := FindIndex(auctions, id).value;
    a := auctions[i];
    assert PriceHistory(a, BidsOn(bids, a.id));
  }
}
