/** The live panel of an auction page: the reducer over the messages of the
    auction's channel, which keeps the ten most recent bids and the viewer
    count, and reports prices to the page. */
module LiveUpdates {
  import opened Domain
  import opened Seqs

  /** A bid as the panel keeps it: the bid fields plus the bidder's name. */
  datatype LiveBid = LiveBid(id: int, amount: real, time: int, auctionId: int, userId: int, bidder: string)

  datatype LiveState = LiveState(bids: seq<LiveBid>, viewers: int)

  /** How many recent bids the panel keeps. */
  const Window := 10

  /** No bids yet; the viewer count starts at one, the viewer themself. */
  const Initial := LiveState([], 1)

  /** The entry built from a `new_bid` message; the message carries no user
      id, so it is set to 0. */
  function FromMessage(e: Event): (b: LiveBid)
    requires e.NewBid?
    ensures b.id == e.bidId && b.amount == e.amount && b.time == e.time
    ensures b.auctionId == e.auctionId && b.bidder == e.bidder && b.userId == 0
  {
    LiveBid(e.bidId, e.amount, e.time, e.auctionId, 0, e.bidder)
  }

  /** `handleMessage`: the next state, and the price handed to `onPriceUpdate`
      if the message calls it. */
  function HandleMessage(s: LiveState, e: Event): (r: (LiveState, Option<real>))
    ensures e.NewBid? ==> && |r.0.bids| == Min(|s.bids| + 1, Window)
                          && r.0.bids[0] == FromMessage(e)
                          && (forall k :: 1 <= k < |r.0.bids| ==> r.0.bids[k] == s.bids[k - 1])
                          && r.0.viewers == s.viewers && r.1 == Some(e.amount)
    ensures e.AuctionData? ==> r.0 == s && r.1 == Some(e.currentPrice)
    ensures e.ViewersUpdate? ==> r.0 == s.(viewers := e.count) && r.1 == None
    ensures !(e.NewBid? || e.AuctionData? || e.ViewersUpdate?) ==> r == (s, None)
  {
    match e
    case NewBid(_, _, amount, _, _) =>
      (s.(bids := [FromMessage(e)] + s.bids[..Min(Window - 1, |s.bids|)]), Some(amount))
    case AuctionData(_, _, _, currentPrice, _, _) => (s, Some(currentPrice))
    case ViewersUpdate(count) => (s.(viewers := count), None)
    case _ => (s, None)
  }

  /** The panel's state after a run of messages from the initial state. */
  function Replay(es: seq<Event>): LiveState
  {
    if es == [] then Initial else HandleMessage(Replay(es[..|es| - 1]), es[|es| - 1]).0
  }

  /** The `new_bid` messages of a run, as panel entries, oldest first. */
  function NewBids(es: seq<Event>): seq<LiveBid>
  {
    if es == [] then []
    else
      var last := es[|es| - 1];
      NewBids(es[..|es| - 1]) + (if last.NewBid? then [FromMessage(last)] else [])
  }

  /** The count of the last `viewers_update` of a run, or 1 if there is none. */
  function LastViewerCount(es: seq<Event>): int
  {
    if es == [] then 1
    else if es[|es| - 1].ViewersUpdate? then es[|es| - 1].count
    else LastViewerCount(es[..|es| - 1])
  }

  /** Putting `x` in front of the window of `older` and cutting back to the
      window size gives the window of `x` followed by `older`. */
  lemma WindowShift(x: LiveBid, older: seq<LiveBid>)
    ensures var prev := older[..Min(|older|, Window)];
      [x] + prev[..Min(Window - 1, |prev|)] == ([x] + older)[..Min(|older| + 1, Window)]
  {
    var prev := older[..Min(|older|, Window)];
    assert prev[..Min(Window - 1, |prev|)] == older[..Min(Window - 1, |older|)];
  }

  /** After any run of messages the panel lists the last ten `new_bid`
      messages, newest first. */
  lemma {:induction false} ReplayShowsRecentBids(es: seq<Event>)
    ensures Replay(es).bids == Reverse(NewBids(es))[..Min(|NewBids(es)|, Window)]
    decreases |es|
  {
    if es != [] {
      var init := es[..|es| - 1];
      var e := es[|es| - 1];
      ReplayShowsRecentBids(init);
      if e.NewBid? {
        var older := Reverse(NewBids(init));
        assert Reverse(NewBids(es)) == [FromMessage(e)] + older;
        WindowShift(FromMessage(e), older);
      }
    }
  }

  /** After any run of messages the panel shows the last viewer count it
      received, or 1. */
  lemma {:induction false} ReplayShowsLastViewerCount(es: seq<Event>)
    ensures Replay(es).viewers == LastViewerCount(es)
    decreases |es|
  {
    if es != [] {
      ReplayShowsLastViewerCount(es[..|es| - 1]);
    }
  }

  /** The panel never lists more than ten bids. */
  lemma WindowBound(es: seq<Event>)
    ensures |Replay(es).bids| <= Window
  {
    ReplayShowsRecentBids(es);
  }

  /** The viewer text: "person" exactly when one viewer is counted. */
  function ViewersNoun(viewers: int): (noun: string)
    ensures noun == "person" <==> viewers == 1
    ensures noun == "person" || noun == "people"
  {
    if viewers == 1 then "person" else "people"
  }
}
