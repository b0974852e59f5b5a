# BidStream (realtime bidding platform): a verified model

This project models the core of BidStream in Dafny. BidStream is an auction
site with a FastAPI backend and a Next.js frontend.

- The backend stores auctions and bids. It checks each bid against the
  auction's state and price. It pushes live messages over WebSockets:
  - `new_bid` to the watchers of an auction;
  - `outbid` to the previous leader;
  - `new_auction`, `auction_updated` and `auction_deleted`.
- The frontend keeps local state from those messages:
  - the live panel of an auction page;
  - the listing and home pages;
  - the bid form;
  - the profile page's bid history.

The modules follow the program's files:

| module | file |
|---|---|
| `Domain` | the records (`models.py`) and the messages of the live channels |
| `Seqs` | filter, page (`OFFSET`/`LIMIT`), stable descending sort, `list.remove` |
| `Ledger` | the two tables, their queries and the consistency invariant; `Database` is the tables plus the id counters, updated in place |
| `Connections` | `ConnectionManager`, a class whose fields are the three registries and a `sent` log that stands for the network |
| `BidRoutes` | `routes/bids.py` |
| `AuctionRoutes` | `routes/auctions.py` |
| `LiveUpdates` | `components/AuctionLiveUpdates.tsx` |
| `Card` | `components/AuctionCard.tsx` |
| `BidFormModel` | `components/BidForm.tsx`; the class `BidForm` holds the form's React state |
| `Feed`, `AuctionsPage`, `HomePage` | the reducers of `pages/auctions/index.tsx` and `pages/index.tsx` |
| `ProfilePage` | `pages/profile.tsx` |

Representation choices:
- Route handlers are methods on a `Database` and a `ConnectionManager`.
- The clock is a parameter `now`, in integer milliseconds. The auction card
  reads it twice, so `Card.CardAgrees` takes two readings.
- Prices are `real`.
- The caller is a `User` value.

The central invariant is `Ledger.Stored`:
- auction ids and bid ids are distinct;
- every bid names an existing auction;
- on each auction the bids' amounts strictly increase;
- the first bid is above the starting price;
- the last bid equals the current price, or the current price equals the
  starting price when there are no bids;
- every id handed out is below its counter.

Every handler that writes keeps `Stored`.

## Model

| member | source | states |
|---|---|---|
| `Domain.IsLive` | frontend/components/AuctionCard.tsx:11 | a live auction is active and its end time is still ahead; none is live once its end time is reached |
| `Domain.LiveUntilEnd` | backend/app/routes/auctions.py:54-59 | liveness only ends: live at an instant means live at every earlier one, and an auction past its end time never becomes live again |
| `Domain.NatToString` | frontend/components/BidForm.tsx:69 | a numeral (digits only, no leading zero) whose value is the number, and that begins with `0` only for zero |
| `Domain.LeadingDigitPositive` | frontend/components/BidForm.tsx:69 | digits that start with a non-zero digit denote a positive number |
| `Domain.NumeralSize` | frontend/components/BidForm.tsx:69 | a numeral is non-negative, and has more than one digit exactly when it denotes 10 or more |
| `Domain.LastDigitUnique` | frontend/components/AuctionCard.tsx:22-24 | a number's last decimal digit and the number of tens are determined by the number |
| `Domain.NumeralUnique` | frontend/pages/profile.tsx:125 | two numerals denoting the same number are the same text, so the numeral the model prints for a number is the only one |
| `Domain.IntToString` | frontend/pages/profile.tsx:125 | for a negative number, a minus sign followed by the numeral of its magnitude (which does not start with `0`); otherwise the numeral of the number; by `NumeralUnique` no other text meets this |
| `Domain.IntToStringUnique` | frontend/pages/profile.tsx:125 | any text with a leading minus and the numeral of the magnitude (for a negative number), or the numeral of the number (otherwise), is the text `IntToString` gives |
| `Seqs.Filter` | backend/app/routes/bids.py:93-94 | the selection holds exactly the elements satisfying the predicate, and is never longer than the input |
| `Seqs.FilterEmpty` | backend/app/routes/auctions.py:87 | a filter selects nothing exactly when no element satisfies the predicate |
| `Seqs.Page` | backend/app/routes/auctions.py:61 | `offset(skip).limit(limit)`: the page has `min(limit, len - skip)` elements, and its k-th element is the input's element `skip + k` |
| `Seqs.PagesConcatenate` | backend/app/routes/bids.py:95 | consecutive pages together are the page of the combined length, so paging neither skips nor repeats rows |
| `Seqs.BelowSortedPrefix` | backend/app/routes/bids.py:95-96 | in a sequence sorted largest first, an element outside the first `n` is keyed no larger than any of them |
| `Seqs.SortDesc` | frontend/pages/profile.tsx:57 | the result is ordered by key, largest first, and is a permutation of the input |
| `Seqs.FilterPrepend` | frontend/pages/profile.tsx:57 | filtering a sequence with an element in front keeps that element first exactly when it passes |
| `Seqs.InsertStable` | frontend/pages/profile.tsx:57 | among the elements of any one key, an inserted element comes first and the others keep their order |
| `Seqs.SortDescStable` | frontend/pages/profile.tsx:57 | the sort is stable: the elements of each key come out in the order they went in |
| `Seqs.RemoveFirst` | backend/app/websockets/connection_manager.py:29-30 | `list.remove`: drops exactly the first occurrence, removes one copy from the multiset, and changes nothing when the value is absent |
| `Seqs.RemoveFirstAfterAppend` | backend/app/websockets/connection_manager.py:16 | removing a socket just appended restores the list |
| `Ledger.FindIndex` | backend/app/routes/bids.py:23 | `filter(id == …).first()`: the position of the first row with the id, or none exactly when no row has it |
| `Ledger.FindAuction` | backend/app/routes/auctions.py:66-68 | the row found has the id asked for; none exactly when no row has it |
| `Ledger.NewestFirst` | backend/app/routes/bids.py:95 | `order_by(time.desc())`: sorted newest first, and a permutation of its input |
| `Ledger.Leader` | backend/app/database/models.py:35 | the last bid accepted on an auction; none exactly when the auction has no bids |
| `Ledger.MaxByAmount` | backend/app/routes/bids.py:65 | `order_by(amount.desc()).first()`: a member of the input whose amount no other exceeds; none only for no bids |
| `Ledger.OutbidTarget` | backend/app/routes/bids.py:62-65 | a bid of the auction other than the new one that no such bid exceeds; none exactly when the auction has no other bid |
| `Ledger.NewestPageFrom` | backend/app/routes/bids.py:93-95 | every bid on a page of the newest-first ordering is one of the bids ordered |
| `Ledger.NoBidsOnUnknownAuction` | backend/app/database/models.py:43 | in consistent tables an id with no auction row has no bids |
| `Ledger.BidsOnAppend` | backend/app/routes/bids.py:45 | adding a bid extends its own auction's history by it and leaves every other history alone |
| `Ledger.ExtendHistory` | backend/app/routes/bids.py:32-43 | a bid above the current price extends a well-formed history, with the new current price at its amount |
| `Ledger.AcceptKeepsConsistent` | backend/app/routes/bids.py:32-46 | accepting a bid above the current price and raising the price keeps the tables consistent |
| `Ledger.InsertKeepsConsistent` | backend/app/routes/auctions.py:22-31 | adding an auction with a fresh id whose current price is its starting price keeps the tables consistent |
| `Ledger.ReplaceKeepsConsistent` | backend/app/routes/auctions.py:87-96 | rewriting an auction without bids, its current price reset to the starting price, keeps the tables consistent |
| `Ledger.RemoveKeepsConsistent` | backend/app/routes/auctions.py:126-130 | deleting an auction without bids keeps the tables consistent |
| `Ledger.LastIsMax` | backend/app/routes/bids.py:62-65 | in a strictly increasing history the highest bid is the last one |
| `Ledger.OutbidTargetIsPreviousLeader` | backend/app/routes/bids.py:62-67 | the "highest previous bid" query after storing a bid returns the auction's leader before the bid, whose amount was the current price |
| `Ledger.AcceptKeepsStored` | backend/app/routes/bids.py:36-47 | storing a bid under the next id and raising the price keeps the tables and counters valid |
| `Ledger.InsertKeepsStored` | backend/app/routes/auctions.py:22-33 | storing a new auction under the next id keeps the tables and counters valid |
| `Ledger.ReplaceKeepsStored` | backend/app/routes/auctions.py:91-98 | rewriting an auction without bids keeps the tables and counters valid |
| `Ledger.RemoveKeepsStored` | backend/app/routes/auctions.py:129-130 | deleting an auction without bids keeps the tables and counters valid |
| `Ledger.RemoveExactly` | backend/app/routes/auctions.py:129 | deleting row `i` leaves exactly the rows with a different id |
| `Ledger.Database.constructor` | backend/app/database/models.py:20-47 | the empty tables satisfy the invariant |
| `Connections.FanOut` | backend/app/websockets/connection_manager.py:47-49 | one delivery of the message to each socket of the list, in list order |
| `Connections.RecipientsAppend` | backend/app/websockets/connection_manager.py:53-54 | one more delivery adds its socket to the set of recipients |
| `Connections.Join` | backend/app/websockets/connection_manager.py:19-22 | the auction's set gains the socket (a new set is created if needed) and no other auction's set changes |
| `Connections.Leave` | backend/app/websockets/connection_manager.py:33-38 | the socket leaves the auction's set, a set left empty is deleted, and other auctions are untouched |
| `Connections.JoinIdempotent` | backend/app/websockets/connection_manager.py:22 | joining twice is joining once |
| `Connections.LeaveUndoesJoin` | backend/app/websockets/connection_manager.py:19-38 | disconnecting right after connecting a socket that was not watching restores the registry |
| `Connections.Accept` | backend/app/websockets/connection_manager.py:15 | `websocket.accept()` opens a connecting socket, and fails on one already open |
| `Connections.RegistersAsWritten` | backend/app/websockets/connection_manager.py:14-16 | as written, `connect` reaches the append only for a socket that is still connecting |
| `Connections.EndpointSocketsNeverRegister` | backend/app/websockets/connection_manager.py:15 | a socket the endpoint has already accepted is never registered by `connect` as written |
| `Connections.ConnectionManager.constructor` | backend/app/websockets/connection_manager.py:6-12 | all three registries start empty and nothing has been sent |
| `Connections.ConnectionManager.Connect` | backend/app/websockets/connection_manager.py:14-26 | appends the socket, joins it to its auction, maps the user to it, and sends nothing |
| `Connections.ConnectionManager.Disconnect` | backend/app/websockets/connection_manager.py:28-42 | removes the first entry of the socket, leaves the auction, and deletes the user's entry whichever socket it points to |
| `Connections.ConnectionManager.SendPersonalMessage` | backend/app/websockets/connection_manager.py:44-45 | exactly one delivery, to the given socket |
| `Connections.ConnectionManager.Broadcast` | backend/app/websockets/connection_manager.py:47-49 | one delivery per entry of the open-socket list, in order |
| `Connections.ConnectionManager.BroadcastToAuction` | backend/app/websockets/connection_manager.py:51-54 | the message goes once to each watcher of the auction and to no one else; nothing is sent for an auction nobody watches |
| `Connections.ConnectionManager.SendToUser` | backend/app/websockets/connection_manager.py:56-58 | one delivery to the user's socket if the user has one, otherwise nothing |
| `BidRoutes.BidRejection` | backend/app/routes/bids.py:23-33 | a bid is accepted exactly when the auction exists, is active, has not passed its end time and the amount exceeds the current price; otherwise the first failing check's 404 or 400 |
| `BidRoutes.OutbidNotice` | backend/app/routes/bids.py:67-76 | at most one delivery; one exactly when there was a previous highest bid by another user who has a socket, and it goes to that socket |
| `BidRoutes.AnnouncedThenNotice` | backend/app/routes/bids.py:59-76 | the watcher broadcast followed by the outbid notice is the announcement `create_bid` makes |
| `BidRoutes.StoreBid` | backend/app/routes/bids.py:36-47 | stores the bid under the next id and raises the auction's price to its amount, keeping the invariant |
| `BidRoutes.AnnounceBid` | backend/app/routes/bids.py:50-76 | `new_bid` once to each watcher of the auction, then `outbid` to the previous highest bidder's socket only when that is another user with a socket |
| `BidRoutes.CreateBid` | backend/app/routes/bids.py:17-78 | fails exactly when a check refuses, with that error and no change; otherwise appends the bid, raises the price, keeps the invariant, and notifies the watchers and the previous leader |
| `BidRoutes.EqualBidRefused` | backend/app/routes/bids.py:32-33 | once an amount is accepted, the same amount on the same auction is refused |
| `BidRoutes.FindDistinct` | backend/app/routes/bids.py:23 | with distinct ids, looking up row `i`'s id finds row `i` |
| `BidRoutes.BidAtClosingInstant` | backend/app/routes/bids.py:28 | at exactly the end time a bid is still accepted, though the auction is no longer live |
| `BidRoutes.GetAuctionBids` | backend/app/routes/bids.py:81-97 | 404 exactly for an unknown auction; otherwise exactly the page that skips `skip` and keeps at most `limit` of that auction's bids ordered newest first |
| `BidRoutes.AuctionBidsComplete` | backend/app/routes/bids.py:93-95 | a first page long enough holds every bid of the auction, as often as the table does |
| `BidRoutes.GetUserBids` | backend/app/routes/bids.py:100-110 | exactly the page that skips `skip` and keeps at most `limit` of the caller's bids ordered newest first |
| `BidRoutes.UserBidsComplete` | backend/app/routes/bids.py:106-108 | a first page long enough holds all of the caller's bids |
| `BidRoutes.UnlistedAuctionBidsNoNewer` | backend/app/routes/bids.py:93-96 | a bid of the auction left off a first page is no newer than any bid on it |
| `BidRoutes.UnlistedUserBidsNoNewer` | backend/app/routes/bids.py:106-109 | a bid of the caller left off a first page is no newer than any bid on it |
| `BidRoutes.NewestPageNoOlder` | backend/app/routes/bids.py:95-96 | a first page of the newest-first ordering holds bids no older than any bid left off it |
| `AuctionRoutes.CreateAuction` | backend/app/routes/auctions.py:17-43 | stores the row under the next id with the current price at the starting price, keeps the invariant, and sends `new_auction` to every open socket |
| `AuctionRoutes.Listed` | backend/app/routes/auctions.py:52-59 | with `active_only`, exactly the live auctions of the table; otherwise the whole table |
| `AuctionRoutes.GetAuctions` | backend/app/routes/auctions.py:46-62 | exactly the page that skips `skip` and keeps at most `limit` rows of the listing; without `active_only` its length is `min(limit, len - skip)` and its k-th row is the table's row `skip + k` |
| `AuctionRoutes.ListingPagesConcatenate` | backend/app/routes/auctions.py:61 | a page of the listing followed by the next one is the page of their combined length |
| `AuctionRoutes.ActiveListingComplete` | backend/app/routes/auctions.py:54-59 | a long enough first page of the active listing holds exactly the live auctions |
| `AuctionRoutes.GetAuction` | backend/app/routes/auctions.py:64-69 | 404 exactly for an unknown id; otherwise the row and exactly its bids |
| `AuctionRoutes.DetailsAgree` | backend/app/routes/auctions.py:64-69 | in consistent tables, whatever order the bids come in, the price shown is the highest amount among them and every bid exceeds the starting price; with no bid the price is the starting price; in table order it is the last bid's amount |
| `AuctionRoutes.OwnerCheck` | backend/app/routes/auctions.py:80-88 | the request passes exactly when the auction exists, the caller owns it and it has no bids; otherwise the first failing guard's 404, 403 or 400 |
| `AuctionRoutes.BidLocksAuction` | backend/app/routes/auctions.py:126-127 | after a bid on an auction, nobody may update or delete it |
| `AuctionRoutes.Revised` | backend/app/routes/auctions.py:91-96 | the five input fields are overwritten and the current price is reset; id, owner, start time and active flag are kept |
| `AuctionRoutes.ReviseRow` | backend/app/routes/auctions.py:91-98 | rewrites exactly row `i` and keeps the invariant |
| `AuctionRoutes.RemoveRow` | backend/app/routes/auctions.py:129-130 | deletes exactly row `i`, keeps every row with another id, and keeps the invariant |
| `AuctionRoutes.UpdateAuction` | backend/app/routes/auctions.py:72-109 | fails exactly when a guard refuses, with no change; otherwise rewrites the row and sends `auction_updated` once to each watcher |
| `AuctionRoutes.DeleteAuction` | backend/app/routes/auctions.py:112-138 | fails exactly when a guard refuses, with no change; otherwise exactly that auction leaves the table and every open socket gets `auction_deleted` |
| `LiveUpdates.FromMessage` | frontend/components/AuctionLiveUpdates.tsx:63-70 | the entry copies the message's fields, with user id 0 |
| `LiveUpdates.HandleMessage` | frontend/components/AuctionLiveUpdates.tsx:58-89 | `new_bid` puts the bid in front and keeps at most ten entries, reporting its price; `auction_data` only reports the price; `viewers_update` sets the count; anything else changes nothing |
| `LiveUpdates.WindowShift` | frontend/components/AuctionLiveUpdates.tsx:72 | prepending to a ten-entry window and cutting back is cutting the full list |
| `LiveUpdates.ReplayShowsRecentBids` | frontend/components/AuctionLiveUpdates.tsx:17 | after any run of messages, the panel lists the last ten `new_bid` messages, newest first |
| `LiveUpdates.ReplayShowsLastViewerCount` | frontend/components/AuctionLiveUpdates.tsx:18 | after any run, the viewer count is the last one received, or 1 |
| `LiveUpdates.WindowBound` | frontend/components/AuctionLiveUpdates.tsx:72 | the panel never holds more than ten bids |
| `LiveUpdates.ViewersNoun` | frontend/components/AuctionLiveUpdates.tsx:102 | "person" exactly for one viewer, "people" otherwise |
| `Card.Split` | frontend/components/AuctionCard.tsx:18-20 | days, hours under 24 and minutes under 60 whose total lies within a minute below the time left |
| `Card.ModOfMultiple` | frontend/components/AuctionCard.tsx:19-20 | the remainder by a day splits into whole hours plus the remainder by an hour |
| `Card.DivModUnique` | frontend/components/AuctionCard.tsx:18 | a quotient and remainder in range are the floor division's |
| `Card.SplitUnique` | frontend/components/AuctionCard.tsx:18-20 | any reading of the time left within those bounds is the one computed |
| `Card.TimeLeft` | frontend/components/AuctionCard.tsx:12 | positive exactly when the end time is still ahead, and positive for an auction live at the same clock reading |
| `Card.FormatTimeLeft` | frontend/components/AuctionCard.tsx:15-25 | "Ended" exactly for no time left; the days form from one day on; the hours form from one hour; otherwise minutes; each form's numbers bracket the time left |
| `Card.Render` | frontend/components/AuctionCard.tsx:22-24 | the text reads "Ended" exactly for an ended auction |
| `Card.Urgent` | frontend/components/AuctionCard.tsx:63 | every ended auction is shown in red, and a red time reads "Ended" or at most five minutes |
| `Card.ButtonLabel` | frontend/components/AuctionCard.tsx:74 | "Bid Now" exactly when the auction is live, otherwise "View Details" |
| `Card.CardAgrees` | frontend/components/AuctionCard.tsx:11-16 | with the activity read at one clock reading and the time left at the same or a later one: a card offering "Bid Now" reads "Ended" only when the end time falls between the two readings, so never when they coincide; an ended card is shown in red |
| `Card.StraddledReadingsDisagree` | frontend/components/AuctionCard.tsx:11-12 | readings one millisecond either side of the end time show "Bid Now" beside "Ended" for an active auction |
| `BidFormModel.Ceil` | frontend/components/BidForm.tsx:21 | `Math.ceil`: the least integer not below the value |
| `BidFormModel.MinBid` | frontend/components/BidForm.tsx:21 | the minimum is at least one and less than two above the current price |
| `BidFormModel.ValidateAmount` | frontend/components/BidForm.tsx:65-70 | the field is required, and a value passes exactly when it reaches the minimum, with the two messages of the form |
| `BidFormModel.ClientMinimumSuffices` | frontend/components/BidForm.tsx:21 | an amount the form lets through is accepted by the server's price check on an open auction |
| `BidFormModel.ServerTakesLessThanForm` | frontend/components/BidForm.tsx:65-70 | the converse fails: half a unit above the price is refused by the form but accepted by the server |
| `BidFormModel.ErrorText` | frontend/components/BidForm.tsx:44 | the server's detail when it is present and non-empty, otherwise the fallback text |
| `BidFormModel.RefusalShown` | frontend/components/BidForm.tsx:44 | every refusal from `create_bid` reaches the user with its own detail |
| `BidFormModel.SubmitText` | frontend/components/BidForm.tsx:107 | "Placing Bid..." while loading; otherwise "Place Bid" exactly when signed in |
| `BidFormModel.SubmitDisabled` | frontend/components/BidForm.tsx:105-107 | the button is enabled only for a signed-in visitor with no bid in flight, exactly when its text is "Place Bid" |
| `BidFormModel.PlaceBidEnabled` | frontend/components/BidForm.tsx:105-107 | a button offering "Place Bid" is enabled |
| `BidFormModel.BidForm.constructor` | frontend/components/BidForm.tsx:14-16 | not loading, no error or success message |
| `BidFormModel.BidForm.OnSubmit` | frontend/components/BidForm.tsx:23-48 | signed out: the login error and no request; signed in: one request, then the success message and one refresh or the error text, and never still loading |
| `BidFormModel.BidForm.HandleSubmit` | frontend/components/BidForm.tsx:54-72 | the field message is the validation result; an invalid amount leaves loading, messages, requests and refreshes unchanged; a valid one ends in `onSubmit`'s state (the login error for a signed-out visitor; otherwise one request, not loading, and the success message with one refresh or the error text); every request sent is above the current price |
| `Feed.MapMatching` | frontend/pages/auctions/index.tsx:40-46 | the matching auctions are transformed and every other entry stays as it was |
| `Feed.MapMatchingTwice` | frontend/pages/auctions/index.tsx:50-56 | mapping twice with an idempotent, id-preserving edit is mapping once |
| `AuctionsPage.ApplyAuctionUpdated` | frontend/pages/auctions/index.tsx:39-47 | the matching auction takes the new title and current price and keeps every other field; every other entry stays as it was |
| `AuctionsPage.AuctionUpdatedIdempotent` | frontend/pages/auctions/index.tsx:39-47 | a repeated `auction_updated` message changes nothing more |
| `AuctionsPage.ApplyNewBid` | frontend/pages/auctions/index.tsx:49-57 | the matching auction takes the amount as its current price; nothing else changes |
| `AuctionsPage.NewBidTracksServer` | frontend/pages/auctions/index.tsx:49-57 | applying `new_bid` to the server's table gives exactly the table `create_bid` leaves |
| `AuctionsPage.NewBidIdempotent` | frontend/pages/auctions/index.tsx:49-57 | a repeated `new_bid` message changes nothing more |
| `AuctionsPage.OnFeedMessageAsWritten` | frontend/pages/auctions/index.tsx:34-58 | as written: `new_auction` and `auction_deleted` refetch with the filter of the first render, active only |
| `AuctionsPage.StaleFilterRefetch` | frontend/pages/auctions/index.tsx:16 | on a page switched to all auctions, a new auction refetches active auctions only |
| `AuctionsPage.OnFeedMessage` | frontend/pages/auctions/index.tsx:34-58 | corrected: the refetch uses the filter on display, and the filter never changes |
| `AuctionsPage.RefetchMatchesFilter` | frontend/pages/auctions/index.tsx:35-37 | every refetch matches the heading shown, and the correction agrees with the code until the filter is switched |
| `AuctionsPage.ToggleActiveFilter` | frontend/pages/auctions/index.tsx:67-70 | flips the filter, keeps the list, and fetches with the new filter |
| `AuctionsPage.ToggleTwice` | frontend/pages/auctions/index.tsx:67-70 | toggling twice restores the page |
| `AuctionsPage.Heading` | frontend/pages/auctions/index.tsx:76-78 | "Active Auctions" exactly when the filter is on, otherwise "All Auctions" |
| `HomePage.MarkEnded` | frontend/pages/index.tsx:37-46 | the matching auction becomes inactive and nothing else changes |
| `HomePage.EndedCardsOfferDetails` | frontend/pages/index.tsx:39-45 | a card marked ended offers "View Details" whatever its end time |
| `HomePage.OnFeedMessage` | frontend/pages/index.tsx:30-47 | `new_auction` refetches active auctions, `auction_ended` marks one ended, and anything else is ignored |
| `HomePage.Featured` | frontend/pages/index.tsx:94 | the first six auctions of the list, or all of them when fewer |
| `HomePage.ShortListFeaturedWhole` | frontend/pages/index.tsx:94 | a list of at most six auctions is featured whole |
| `HomePage.ShowViewAll` | frontend/pages/index.tsx:100 | the "View All" link shows exactly when the list is non-empty, which is exactly when `Featured` is non-empty; the test sits outside the page's loading and error branches |
| `ProfilePage.SortedBids` | frontend/pages/profile.tsx:57 | a copy of the bids, newest first, holding the same bids |
| `ProfilePage.SortedBidsStable` | frontend/pages/profile.tsx:57 | sorting bids already newest first leaves them as they are |
| `ProfilePage.IsHighestBid` | frontend/pages/profile.tsx:120 | never for a bid whose auction is missing; otherwise the auction's current price is the bid's amount |
| `ProfilePage.StatusText` | frontend/pages/profile.tsx:120-142 | "Highest Bid" exactly when the auction's current price equals the bid's amount, otherwise "Outbid" |
| `ProfilePage.AuctionText` | frontend/pages/profile.tsx:125 | the title when present and non-empty, otherwise "Auction #" and the id |
| `ProfilePage.OnVisit` | frontend/pages/profile.tsx:19-38 | the bids are fetched exactly for a signed-in visitor; anyone else is sent to the login page |
| `ProfilePage.AtPriceMeansLast` | frontend/pages/profile.tsx:120 | in a well-formed history a bid is at the current price exactly when it is the last one |
| `ProfilePage.HighestMeansLeader` | frontend/pages/profile.tsx:120 | against consistent tables, "Highest Bid" marks exactly the auction's current leader |
| `ProfilePage.HistoryOfBidAuction` | backend/app/database/models.py:43-46 | a bid's auction exists, and its history is well formed and holds the bid |

## Left out

- The WebSocket endpoints are not part of this model: socket accept,
  the optional `user_id` handshake, the receive loop, and the `auction_data`
  message sent on connect. The registry they drive is modelled by
  `ConnectionManager`.
- The live-feed endpoint connects sockets without an auction id. So
  `new_bid` and `auction_updated`, which go only to an auction's watchers,
  never reach the listing pages. The listing reducers are modelled as if
  those messages arrived.
- No server code sends `viewers_update` or `auction_ended`. The client
  handlers for them are modelled anyway.
- Database sessions, commits, JSON encoding, the HTTP layer, authentication
  and password hashing are left out. The caller is a given `User`.
- Concurrency is left out. Two requests that interleave between the price
  check and the commit could both be accepted; every handler here runs
  atomically.
- Floating-point prices are modelled as exact reals. Date parsing and time
  zones become integer milliseconds, and the clock is a parameter.
- `skip` and `limit` are natural numbers. Negative values are not modelled.
- `Ledger.MaxByAmount` takes the earliest of equal amounts, where the
  database leaves the choice open. `Seqs.SortDesc` keeps equal times in
  input order (proved as `Seqs.SortDescStable`), which is what
  `Array.prototype.sort` does and what the SQL ordering does not promise.
- `AuctionRoutes.GetAuctions`: the listing query has no `ORDER BY`
  (backend/app/routes/auctions.py:61), so which rows a page holds is up to
  the database. The model assumes table order: row `skip + k`, with a
  rewritten row kept in place. `AuctionRoutes.ListingPagesConcatenate` holds
  for one table state in that order, not across writes or for another
  order the database may choose.
- `Card.CardAgrees`, `Card.TimeLeft`: the card reads the clock twice, for
  `isActive` (frontend/components/AuctionCard.tsx:11) and for `timeLeft`
  (:12). `TimeLeft`'s "positive for a live auction" and the first clause of
  `CardAgrees` hold only when both readings coincide. When the end time falls
  between them, the card shows "Bid Now" beside "Ended"
  (`Card.StraddledReadingsDisagree`). The model does not fix how far apart
  the readings are.
- `AuctionRoutes.DetailsAgree`: `Auction.bids` (backend/app/database/models.py:35)
  has no `order_by`, so the order of `get_auction`'s bids is up to the
  database. `AuctionRoutes.GetAuction` returns them in table order. The
  lemma's last-bid clause holds only in that order. Its clauses on the
  highest amount hold in any order.
- `HomePage.ShowViewAll`: the page's `loading` and `error` state is not
  modelled. The link at frontend/pages/index.tsx:100 sits outside the
  loading/error branch at :76-98 and `error` is never cleared, so after a
  good fetch and a failed refetch the error text replaces the cards while
  the link still shows.
- `BidRoutes.GetUserBids` returns bid rows. The joined auction fields of
  the response schema are supplied to the profile page as an optional
  auction.
- `Connections.ConnectionManager.Connect`: leaves out `await websocket.accept()`
  (backend/app/websockets/connection_manager.py:15). Both callers accept the
  socket before they call `connect`
  (backend/app/websockets/websocket_routes.py:36 and :83), and a second accept
  would fail before the append. The method models `connect` as evidently
  intended, with only the registry updates. The code as written is
  `Connections.RegistersAsWritten`; see "## Findings".
- `BidFormModel.ValidateAmount`: leaves out the native `step="0.01"` and
  `min={minBid}` attributes of the input (frontend/components/BidForm.tsx:63-64).
  The browser blocks an amount below the minimum or off the 0.01 step, such
  as the minimum plus 0.005, before the form rules run.
- The form's `reset()` and the connection indicator (`isConnected`) are
  left out, and so is number formatting (`toFixed`).
- The login, registration and auction-creation pages are not part of this
  model.
- `BidFormModel.BidForm.OnSubmit`: the call to `placeBid` is a given
  outcome. Its request is recorded, and the "loading" interval is only
  visible as the state during the call.
- `Connections.ConnectionManager.BroadcastToAuction`: the iteration order of
  a Python set is not defined, so the contract states "once to each watcher,
  in some order" rather than a particular order.
- The code has no auction states beyond the `is_active` flag, no message
  sequence numbers and no rule against owners bidding on their own auctions,
  so the model has none either. An owner may bid, and a bid at exactly
  `end_time` is accepted (see `BidRoutes.BidAtClosingInstant`).

## Findings

| source | as written | input that shows it | evidently intended | confidence | as-written member | corrected member |
|---|---|---|---|---|---|---|
| frontend/pages/auctions/index.tsx:16 | the feed handler calls the `fetchAuctions` of the first render, whose default `activeOnly` is that render's `showActive` (true) | with the second accept of the next row removed, switch the page to "All Auctions", then another user creates an auction: the page refetches active auctions only, under the "All Auctions" heading (as written, the next row keeps the message from arriving at all) | refetch with the filter currently shown | not executed | `AuctionsPage.OnFeedMessageAsWritten` (counterexample lemma `AuctionsPage.StaleFilterRefetch`) | `AuctionsPage.OnFeedMessage` (proved by `AuctionsPage.RefetchMatchesFilter`) |
| backend/app/websockets/connection_manager.py:15 | `connect` calls `websocket.accept()` on a socket that both endpoints have already accepted (backend/app/websockets/websocket_routes.py:36 and :83); the second accept raises before the append | any client opening the live feed or an auction's channel: its socket is never registered, so no broadcast, `new_bid` or `outbid` message reaches any client | `connect` registers the already-accepted socket without accepting it again | not executed | `Connections.RegistersAsWritten` (counterexample lemma `Connections.EndpointSocketsNeverRegister`) | `Connections.ConnectionManager.Connect` (appends the socket and joins its auction and user) |
