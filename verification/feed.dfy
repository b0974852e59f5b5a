/** What the listing pages do with a message of the live feed: edit the list
    they hold, in place of the matching auction, or fetch it again. */
module Feed {
  import opened Domain

  /** A request the reducer leaves to the page: fetch the list again, with
      the given `active_only` flag. */
  datatype Effect = NoFetch | Refetch(activeOnly: bool)

  /** `list.map(a => a.id === id ? f(a) : a)`. */
  function MapMatching(list: seq<Auction>, id: int, f: Auction -> Auction): (r: seq<Auction>)
    ensures |r| == |list|
    ensures forall k :: 0 <= k < |list| && list[k].id != id ==> r[k] == list[k]
    ensures forall k :: 0 <= k < |list| && list[k].id == id ==> r[k] == f(list[k])
  {
    seq(|list|, k requires 0 <= k < |list| => if list[k].id == id then f(list[k]) else list[k])
  }

  /** Mapping with an `f` that keeps the id and does not change what it has
      already changed is idempotent. */
  lemma MapMatchingTwice(list: seq<Auction>, id: int, f: Auction -> Auction)
    requires forall a :: f(a).id == a.id && f(f(a)) == f(a)
    ensures MapMatching(MapMatching(list, id, f), id, f) == MapMatching(list, id, f)
  {
  }
}
