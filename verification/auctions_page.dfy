/** The auctions page: the list it shows, the active/all filter, and its
    reducer over the live feed. The page fetches through a closure created on
    its first render, so the refetch a feed message triggers always asks for
    active auctions only; `OnFeedMessageAsWritten` keeps that behaviour and
    `OnFeedMessage` fetches with the filter the page currently shows. */
module AuctionsPage {
  import opened Domain
  import opened Ledger
  import opened Feed

  datatype ListPage = ListPage(auctions: seq<Auction>, showActive: bool)

  /** The page as first rendered: empty, showing active auctions only. */
  const Start := ListPage([], true)

  /** The list after `auction_updated`: the matching auction takes the new
      title and current price and keeps every other field; the rest of the
      list is untouched. */
  function ApplyAuctionUpdated(list: seq<Auction>, id: int, title: string, currentPrice: real): (r: seq<Auction>)
    ensures |r| == |list|
    ensures forall k :: 0 <= k < |list| ==>
      r[k] == if list[k].id == id then list[k].(title := title, currentPrice := currentPrice) else list[k]
  {
    MapMatching(list, id, (a: Auction) => a.(title := title, currentPrice := currentPrice))
  }

  /** The list after `new_bid`: the matching auction takes the bid amount as
      its current price. */
  function ApplyNewBid(list: seq<Auction>, id: int, amount: real): (r: seq<Auction>)
    ensures |r| == |list|
    ensures forall k :: 0 <= k < |list| ==> r[k] == if list[k].id == id then list[k].(currentPrice := amount) else list[k]
  {
    MapMatching(list, id, (a: Auction) => a.(currentPrice := amount))
  }

  /** A page showing the server's table follows it through a bid: applying
      the `new_bid` message gives exactly the table `create_bid` leaves. */
  lemma NewBidTracksServer(auctions: seq<Auction>, i: nat, amount: real)
    requires DistinctAuctionIds(auctions) && i < |auctions|
    ensures ApplyNewBid(auctions, auctions[i].id, amount) == auctions[i := auctions[i].(currentPrice := amount)]
  {
    var r := ApplyNewBid(auctions, auctions[i].id, amount);
    forall k | 0 <= k < |auctions| ensures r[k] == auctions[i := auctions[i].(currentPrice := amount)][k] {
      if k != i {
        assert auctions[k].id != auctions[i].id by {
          if k < i { assert auctions[k].id != auctions[i].id; } else { assert auctions[i].id != auctions[k].id; }
        }
      }
    }
  }

  /** Receiving the same `auction_updated` twice shows the same list as once. */
  lemma AuctionUpdatedIdempotent(list: seq<Auction>, id: int, title: string, currentPrice: real)
    ensures ApplyAuctionUpdated(ApplyAuctionUpdated(list, id, title, currentPrice), id, title, currentPrice)
            == ApplyAuctionUpdated(list, id, title, currentPrice)
  {
  }

  /** Receiving the same `new_bid` twice shows the same list as once. */
  lemma NewBidIdempotent(list: seq<Auction>, id: int, amount: real)
    ensures ApplyNewBid(ApplyNewBid(list, id, amount), id, amount) == ApplyNewBid(list, id, amount)
  {
  }

  /** The local edits of the feed reducer. */
  function ApplyFeedEdit(list: seq<Auction>, e: Event): seq<Auction>
  {
    match e
    case AuctionUpdated(id, title, price) => ApplyAuctionUpdated(list, id, title, price)
    case NewBid(id, _, amount, _, _) => ApplyNewBid(list, id, amount)
    case _ => list
  }

  /** The feed reducer as written: `new_auction` and `auction_deleted` call
      the first render's `fetchAuctions`, whose default filter is the initial
      `showActive`, true. */
  function OnFeedMessageAsWritten(p: ListPage, e: Event): (r: (ListPage, Effect))
    ensures e.NewAuction? || e.AuctionDeleted? ==> r == (p, Refetch(Start.showActive))
    ensures !(e.NewAuction? || e.AuctionDeleted?) ==> r == (p.(auctions := ApplyFeedEdit(p.auctions, e)), NoFetch)
  {
    if e.NewAuction? || e.AuctionDeleted? then (p, Refetch(Start.showActive))
    else (p.(auctions := ApplyFeedEdit(p.auctions, e)), NoFetch)
  }

  /** The stale filter shows: on a page switched to all auctions, a new
      auction makes it fetch active auctions only, under the "All Auctions"
      heading. */
  lemma StaleFilterRefetch(p: ListPage, auctionId: int, title: string, price: real)
    requires !p.showActive
    ensures OnFeedMessageAsWritten(p, NewAuction(auctionId, title, price)).1 == Refetch(true)
    ensures OnFeedMessageAsWritten(p, NewAuction(auctionId, title, price)).1 != Refetch(p.showActive)
  {
  }

  /** The feed reducer with the refetch using the filter on display. */
  function OnFeedMessage(p: ListPage, e: Event): (r: (ListPage, Effect))
    ensures r.0.showActive == p.showActive
    ensures e.NewAuction? || e.AuctionDeleted? ==> r == (p, Refetch(p.showActive))
    ensures !(e.NewAuction? || e.AuctionDeleted?) ==> r == (p.(auctions := ApplyFeedEdit(p.auctions, e)), NoFetch)
  {
    if e.NewAuction? || e.AuctionDeleted? then (p, Refetch(p.showActive))
    else (p.(auctions := ApplyFeedEdit(p.auctions, e)), NoFetch)
  }

  /** Every fetch the corrected reducer asks for matches the heading shown,
      and it agrees with the code as written until the filter is switched. */
  lemma RefetchMatchesFilter(p: ListPage, e: Event)
    ensures OnFeedMessage(p, e).1.Refetch? ==> OnFeedMessage(p, e).1.activeOnly == p.showActive
    ensures p.showActive ==> OnFeedMessage(p, e) == OnFeedMessageAsWritten(p, e)
  {
  }

  /** `toggleActiveFilter`: flips the filter and fetches with the new value. */
  function ToggleActiveFilter(p: ListPage): (r: (ListPage, Effect))
    ensures r.0.showActive == !p.showActive && r.0.auctions == p.auctions
    ensures r.1 == Refetch(r.0.showActive)
  {
    (p.(showActive := !p.showActive), Refetch(!p.showActive))
  }

  /** Toggling twice restores the filter. */
  lemma ToggleTwice(p: ListPage)
    ensures ToggleActiveFilter(ToggleActiveFilter(p).0).0 == p
  {
  }

  /** The heading over the list. */
  function Heading(p: ListPage): (text: string)
    ensures text == "Active Auctions" <==> p.showActive
    ensures text == "Active Auctions" || text == "All Auctions"
  {
    if p.showActive then "Active Auctions" else "All Auctions"
  }
}
