/** The bid form of an auction page: the client-side minimum, the validation
    of the amount field, and the submit handler with its loading, error and
    success state. */
module BidFormModel {
  import opened Domain
  import opened BidRoutes

  /** `Math.ceil`. */
  function Ceil(x: real): (c: int)
    ensures x <= c as real < x + 1.0
  {
    -((-x).Floor)
  }

  /** `minBid`: one more than the current price rounded up. */
  function MinBid(currentPrice: real): (m: int)
    ensures currentPrice + 1.0 <= m as real < currentPrice + 2.0
  {
    Ceil(currentPrice) + 1
  }

  /** The field rules: required, and at least `minBid`. `None` for an empty
      field. The result is the message shown under the field, if any. */
  function ValidateAmount(amount: Option<real>, currentPrice: real): (message: Option<string>)
    ensures amount.None? ==> message == Some("Bid amount is required")
    ensures amount.Some? ==> (message.None? <==> amount.value >= MinBid(currentPrice) as real)
    ensures amount.Some? && message.Some? ==> message.value == "Bid must be at least $" + IntToString(MinBid(currentPrice))
  {
    match amount
    case None => Some("Bid amount is required")
    case Some(x) =>
      if x < MinBid(currentPrice) as real then Some("Bid must be at least $" + IntToString(MinBid(currentPrice)))
      else None
  }

  /** An amount the form lets through also clears the server's price check:
      on an auction still open for bids, the server accepts it. */
  lemma ClientMinimumSuffices(a: Auction, amount: real, now: int)
    requires ValidateAmount(Some(amount), a.currentPrice).None?
    requires a.isActive && now <= a.endTime
    ensures BidRejection(Some(a), amount, now).None?
  {
  }

  /** The converse fails: the server takes amounts the form refuses, such as
      half a unit above the current price. */
  lemma ServerTakesLessThanForm(a: Auction, now: int)
    requires a.isActive && now <= a.endTime
    ensures ValidateAmount(Some(a.currentPrice + 0.5), a.currentPrice).Some?
    ensures BidRejection(Some(a), a.currentPrice + 0.5, now).None?
  {
  }

  /** The answer of `placeBid`: accepted, or refused with the `detail` of the
      error response, if it had one. */
  datatype PlaceBidOutcome = Accepted | Refused(detail: Option<string>)

  const LoginRequired := "You need to login to place a bid"
  const BidPlaced := "Bid placed successfully!"
  const Fallback := "Failed to place bid. Try again."

  /** The error text after a refusal: the server's detail, or the fallback
      when it is missing or empty (JavaScript `||`). */
  function ErrorText(detail: Option<string>): (text: string)
    ensures detail.Some? && detail.value != "" ==> text == detail.value
    ensures !(detail.Some? && detail.value != "") ==> text == Fallback
    ensures text != ""
  {
    if detail.Some? && detail.value != "" then detail.value else Fallback
  }

  /** A refusal by `create_bid` reaches the user with its own message. */
  lemma RefusalShown(auction: Option<Auction>, amount: real, now: int)
    requires BidRejection(auction, amount, now).Some?
    ensures ErrorText(Some(BidRejection(auction, amount, now).value.detail)) == BidRejection(auction, amount, now).value.detail
  {
  }

  /** The submit button is disabled while a bid is in flight and for a
      signed-out visitor. */
  predicate SubmitDisabled(loading: bool, isAuthenticated: bool)
    ensures !SubmitDisabled(loading, isAuthenticated) ==> isAuthenticated && !loading
    ensures SubmitDisabled(loading, isAuthenticated) <==> SubmitText(loading, isAuthenticated) != "Place Bid"
  {
    loading || !isAuthenticated
  }

  /** The submit button's text. */
  function SubmitText(loading: bool, isAuthenticated: bool): (text: string)
    ensures loading ==> text == "Placing Bid..."
    ensures !loading ==> (text == "Place Bid" <==> isAuthenticated)
    ensures !loading && !isAuthenticated ==> text == "Login to Bid"
  {
    if loading then "Placing Bid..." else if isAuthenticated then "Place Bid" else "Login to Bid"
  }

  /** A button offering "Place Bid" is enabled. */
  lemma PlaceBidEnabled(loading: bool, isAuthenticated: bool)
    ensures SubmitText(loading, isAuthenticated) == "Place Bid" ==> !SubmitDisabled(loading, isAuthenticated)
  {
  }

  /** The form's state. `requests` records the calls to `placeBid` and
      `refreshes` the calls to `onBidPlaced`. */
  class BidForm {
    var loading: bool
    var error: Option<string>
    var success: Option<string>
    var fieldMessage: Option<string>
    var requests: seq<BidRequest>
    var refreshes: nat

    constructor ()
      ensures !loading && error.None? && success.None? && fieldMessage.None?
      ensures requests == [] && refreshes == 0
    {
      loading := false;
      error := None;
      success := None;
      fieldMessage := None;
      requests := [];
      refreshes := 0;
    }

    /** `onSubmit`: refuses a signed-out visitor without calling `placeBid`;
        otherwise sends the request and shows its outcome. */
    method OnSubmit(isAuthenticated: bool, auctionId: int, amount: real, outcome: PlaceBidOutcome)
      modifies this
      ensures fieldMessage == old(fieldMessage)
      ensures !isAuthenticated ==> && error == Some(LoginRequired) && requests == old(requests)
                                   && loading == old(loading) && success == old(success)
                                   && refreshes == old(refreshes)
      ensures isAuthenticated ==> requests == old(requests) + [BidRequest(auctionId, amount)] && !loading
      ensures isAuthenticated && outcome.Accepted? ==>
                success == Some(BidPlaced) && error.None? && refreshes == old(refreshes) + 1
      ensures isAuthenticated && outcome.Refused? ==>
                error == Some(ErrorText(outcome.detail)) && success.None? && refreshes == old(refreshes)
    {
      if !isAuthenticated {
        error := Some(LoginRequired);
        return;
      }
      loading := true;
      error := None;
      success := None;
      requests := requests + [BidRequest(auctionId, amount)];
      match outcome {
        case Accepted =>
          success := Some(BidPlaced);
          refreshes := refreshes + 1;
        case Refused(detail) =>
          error := Some(ErrorText(detail));
      }
      loading := false;
    }

    /** `handleSubmit(onSubmit)`: the field rules run first. An invalid
        amount shows its message and leaves the rest of the form as it was;
        a valid one runs `onSubmit`, so the form ends as `OnSubmit` leaves
        it. Every amount that reaches `placeBid` is above the current price
        shown. */
    method HandleSubmit(isAuthenticated: bool, auctionId: int, currentPrice: real, amount: Option<real>, outcome: PlaceBidOutcome)
      modifies this
      ensures fieldMessage == ValidateAmount(amount, currentPrice)
      ensures fieldMessage.Some? ==> loading == old(loading) && error == old(error) && success == old(success)
                                     && requests == old(requests) && refreshes == old(refreshes)
      ensures fieldMessage.None? && !isAuthenticated ==>
                error == Some(LoginRequired) && loading == old(loading) && success == old(success)
                && requests == old(requests) && refreshes == old(refreshes)
      ensures fieldMessage.None? && isAuthenticated ==>
                requests == old(requests) + [BidRequest(auctionId, amount.value)] && !loading
      ensures fieldMessage.None? && isAuthenticated && outcome.Accepted? ==>
                success == Some(BidPlaced) && error.None? && refreshes == old(refreshes) + 1
      ensures fieldMessage.None? && isAuthenticated && outcome.Refused? ==>
                error == Some(ErrorText(outcome.detail)) && success.None? && refreshes == old(refreshes)
      ensures requests == old(requests) || (|requests| == |old(requests)| + 1 && requests[..|old(requests)|] == old(requests)
                                            && requests[|old(requests)|].amount > currentPrice)
      ensures |requests| == |old(requests)| + 1 <==> fieldMessage.None? && isAuthenticated
    {
      fieldMessage := ValidateAmount(amount, currentPrice);
      if fieldMessage.Some? {
        return;
      }
      OnSubmit(isAuthenticated, auctionId, amount.value, outcome);
    }
  }
}
