/** The home page: the active auctions it fetches, its reducer over the live
    feed, the featured slice and the link to the full listing. */
module HomePage {
  import opened Domain
  import opened Seqs
  import opened Feed
  import opened Card

  /** How many auctions the home page features. */
  const FeaturedCount := 6

  /** The list after `auction_ended`: the matching auction is marked
      inactive; every other field and every other auction stay. */
  function MarkEnded(list: seq<Auction>, id: int): (r: seq<Auction>)
    ensures |r| == |list|
    ensures forall k :: 0 <= k < |list| ==> r[k] == if list[k].id == id then list[k].(isActive := false) else list[k]
  {
    MapMatching(list, id, (a: Auction) => a.(isActive := false))
  }

  /** Once marked ended, an auction's card offers "View Details", whatever
      its end time. */
  lemma EndedCardsOfferDetails(list: seq<Auction>, id: int, now: int)
    ensures forall k :: 0 <= k < |list| && list[k].id == id ==> ButtonLabel(MarkEnded(list, id)[k], now) == "View Details"
  {
  }

  /** The home page's feed reducer: `new_auction` fetches active auctions
      again, `auction_ended` marks one ended, anything else is ignored. */
  function OnFeedMessage(list: seq<Auction>, e: Event): (r: (seq<Auction>, Effect))
    ensures e.NewAuction? ==> r == (list, Refetch(true))
    ensures e.AuctionEnded? ==> r == (MarkEnded(list, e.auctionId), NoFetch)
    ensures !(e.NewAuction? || e.AuctionEnded?) ==> r == (list, NoFetch)
  {
    match e
    case NewAuction(_, _, _) => (list, Refetch(true))
    case AuctionEnded(id) => (MarkEnded(list, id), NoFetch)
    case _ => (list, NoFetch)
  }

  /** The featured cards: the first six auctions of the list. */
  function Featured(list: seq<Auction>): (r: seq<Auction>)
    ensures |r| == Min(|list|, FeaturedCount)
    ensures r == list[..|r|]
  {
    list[..Min(|list|, FeaturedCount)]
  }

  /** A list of at most six auctions is featured whole. */
  lemma ShortListFeaturedWhole(list: seq<Auction>)
    requires |list| <= FeaturedCount
    ensures Featured(list) == list
  {
  }

  /** The "View All Auctions" link shows exactly when some auction is listed,
      so whenever some card is featured. */
  predicate ShowViewAll(list: seq<Auction>)
    ensures ShowViewAll(list) <==> Featured(list) != []
  {
    |list| > 0
  }
}
