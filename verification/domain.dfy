/** The records the backend stores and the messages that travel over the
    WebSocket channels, shared by the server and the client modules.
    Prices are exact reals (the database keeps them as floats); times are
    integer milliseconds. */
module Domain {

  datatype Option<T> = None | Some(value: T)

  /** An HTTP error raised by a route handler: status code and `detail` text. */
  datatype HttpError = HttpError(status: int, detail: string)

  datatype Result<T> = Ok(value: T) | Err(error: HttpError)

  /** The authenticated caller of a route. */
  datatype User = User(id: int, username: string)

  /** A row of the `auctions` table, also the `Auction` record the client receives. */
  datatype Auction = Auction(
    id: int,
    title: string,
    description: string,
    startingPrice: real,
    currentPrice: real,
    imageUrl: Option<string>,
    startTime: int,
    endTime: int,
    isActive: bool,
    ownerId: int)

  /** Open for bidding and listed as active: the flag is set and the end time
      lies strictly in the future. */
  predicate IsLive(a: Auction, now: int)
    ensures IsLive(a, now) ==> a.isActive && now < a.endTime
    ensures now >= a.endTime ==> !IsLive(a, now)
  {
    a.isActive && a.endTime > now
  }

  /** Liveness only ever ends: an auction live at some instant was live at
      every earlier one, and once its end time is reached it is never live
      again. */
  lemma LiveUntilEnd(a: Auction, earlier: int, later: int)
    requires earlier <= later
    ensures IsLive(a, later) ==> IsLive(a, earlier)
    ensures !IsLive(a, earlier) && earlier >= a.endTime ==> !IsLive(a, later)
  {
  }

  /** A row of the `bids` table. */
  datatype Bid = Bid(id: int, amount: real, time: int, auctionId: int, userId: int)

  /** The body of a create or update request for an auction. */
  datatype AuctionInput = AuctionInput(
    title: string,
    description: string,
    startingPrice: real,
    imageUrl: Option<string>,
    endTime: int)

  /** The body of a bid request. */
  datatype BidRequest = BidRequest(auctionId: int, amount: real)

  /** The messages of the live channels, one constructor per `event` tag. */
  datatype Event =
    | NewBid(auctionId: int, bidId: int, amount: real, bidder: string, time: int)
    | Outbid(auctionId: int, auctionTitle: string, newPrice: real)
    | NewAuction(auctionId: int, title: string, currentPrice: real)
    | AuctionUpdated(auctionId: int, title: string, currentPrice: real)
    | AuctionDeleted(auctionId: int)
    | AuctionData(auctionId: int, title: string, description: string, currentPrice: real, endTime: int, isActive: bool)
    | ViewersUpdate(count: int)
    | AuctionEnded(auctionId: int)

  /** The decimal digit character for `d`. */
  function DigitChar(d: nat): (c: char)
    requires d < 10
    ensures '0' <= c <= '9'
    ensures DigitValue(c) == d
  {
    ('0' as int + d) as char
  }

  /** The value of a decimal digit character. */
  function DigitValue(c: char): int
  {
    c as int - '0' as int
  }

  /** The number a string of decimal digits denotes. */
  function DigitsValue(s: string): int
  {
    if s == [] then 0 else DigitsValue(s[..|s| - 1]) * 10 + DigitValue(s[|s| - 1])
  }

  /** A decimal numeral: one or more digits, without a leading zero. */
  predicate Numeral(s: string)
  {
    && |s| >= 1
    && (forall k :: 0 <= k < |s| ==> '0' <= s[k] <= '9')
    && (|s| > 1 ==> s[0] != '0')
  }

  /** A numeral whose first digit is not zero denotes a positive number. */
  lemma {:induction false} LeadingDigitPositive(s: string)
    requires |s| >= 1 && (forall k :: 0 <= k < |s| ==> '0' <= s[k] <= '9') && s[0] != '0'
    ensures DigitsValue(s) >= 1
  {
    if |s| > 1 {
      var init := s[..|s| - 1];
      assert init[0] == s[0];
      LeadingDigitPositive(init);
    }
  }

  /** A numeral has more than one digit exactly when it denotes 10 or more. */
  lemma NumeralSize(s: string)
    requires Numeral(s)
    ensures 0 <= DigitsValue(s)
    ensures |s| > 1 <==> DigitsValue(s) >= 10
  {
    if |s| > 1 {
      var init := s[..|s| - 1];
      assert init[0] == s[0];
      LeadingDigitPositive(init);
    }
  }

  /** The last digit and the rest of a number are determined by it. */
  lemma LastDigitUnique(a: int, d: int, b: int, e: int)
    requires 0 <= d < 10 && 0 <= e < 10 && a * 10 + d == b * 10 + e
    ensures a == b && d == e
  {
    assert (a - b) * 10 == e - d;
  }

  /** Two numerals that denote the same number are the same text: a number
      has exactly one decimal numeral. */
  lemma {:induction false} NumeralUnique(s: string, t: string)
    requires Numeral(s) && Numeral(t) && DigitsValue(s) == DigitsValue(t)
    ensures s == t
  {
    NumeralSize(s);
    NumeralSize(t);
    if |s| == 1 {
      assert s == [s[0]] && t == [t[0]];
    } else {
      var si, ti := s[..|s| - 1], t[..|t| - 1];
      assert si[0] == s[0] && ti[0] == t[0];
      NumeralSize(si);
      NumeralSize(ti);
      LastDigitUnique(DigitsValue(si), DigitValue(s[|s| - 1]), DigitsValue(ti), DigitValue(t[|t| - 1]));
      NumeralUnique(si, ti);
      assert s == si + [s[|s| - 1]] && t == ti + [t[|t| - 1]];
    }
  }

  /** Decimal digits of `n`, without leading zeros: the one numeral that
      denotes `n` (see `NumeralUnique`). */
  function NatToString(n: nat): (s: string)
    ensures Numeral(s)
    ensures s[0] == '0' <==> n == 0
    ensures DigitsValue(s) == n
  {
    if n < 10 then [DigitChar(n)]
    else
      var init := NatToString(n / 10);
      var s := init + [DigitChar(n % 10)];
      assert s[..|s| - 1] == init;
      s
  }

  /** The decimal text of an integer, as JavaScript template strings print it:
      a minus sign before the digits of a negative number. */
  function IntToString(i: int): (s: string)
    ensures |s| >= 1
    ensures i < 0 ==> |s| >= 2 && s[0] == '-' && Numeral(s[1..]) && s[1] != '0' && DigitsValue(s[1..]) == -i
    ensures i >= 0 ==> Numeral(s) && DigitsValue(s) == i
  {
    if i < 0 then
      var digits := NatToString(-i);
      assert ("-" + digits)[1..] == digits;
      "-" + digits
    else NatToString(i)
  }
  /** `IntToString`'s contract pins its text: any text that meets it for
      `i` is `IntToString(i)`. */
  lemma IntToStringUnique(i: int, s: string)
    requires i >= 0 ==> Numeral(s) && DigitsValue(s) == i
    requires i < 0 ==> |s| >= 2 && s[0] == '-' && Numeral(s[1..]) && DigitsValue(s[1..]) == -i
    ensures s == IntToString(i)
  {
    var t := IntToString(i);
    if i >= 0 {
      NumeralUnique(s, t);
    } else {
      NumeralUnique(s[1..], t[1..]);
      assert s == [s[0]] + s[1..] && t == [t[0]] + t[1..];
    }
  }

}
