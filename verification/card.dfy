/** The auction card of the listing pages: whether the auction counts as
    active, the time-left text, its urgency colour and the button label. */
module Card {
  import opened Domain

  const MsPerMinute := 60000
  const MsPerHour := 3600000
  const MsPerDay := 86400000

  /** Below this many milliseconds left the time is shown in red. */
  const UrgentMs := 300000

  /** Milliseconds until the auction's end time. */
  function TimeLeft(a: Auction, now: int): (t: int)
    ensures t > 0 <==> now < a.endTime
    ensures IsLive(a, now) ==> t > 0
  {
    a.endTime - now
  }

  /** Whole days, hours and minutes of a positive duration. */
  datatype Remaining = Remaining(days: int, hours: int, minutes: int)

  function Millis(r: Remaining): int
  {
    r.days * MsPerDay + r.hours * MsPerHour + r.minutes * MsPerMinute
  }

  /** The three floor divisions of `formatTimeLeft`. */
  function Split(t: int): (r: Remaining)
    requires t > 0
    ensures r.days >= 0 && 0 <= r.hours < 24 && 0 <= r.minutes < 60
    ensures Millis(r) <= t < Millis(r) + MsPerMinute
  {
    var days := t / MsPerDay;
    var hours := (t % MsPerDay) / MsPerHour;
    var minutes := (t % MsPerHour) / MsPerMinute;
    assert t % MsPerDay == hours * MsPerHour + t % MsPerHour by {
      assert MsPerDay == 24 * MsPerHour;
      ModOfMultiple(t, MsPerHour, 24);
    }
    Remaining(days, hours, minutes)
  }

  /** Reducing modulo `n * m` and then modulo `n` is reducing modulo `n`, and
      what the first leaves over is a whole number of `n`s plus the second. */
  lemma ModOfMultiple(t: int, n: int, m: int)
    requires n > 0 && m > 0
    ensures t % (n * m) == (t % (n * m)) / n * n + t % n
  {
    var q := t / (n * m);
    var r := t % (n * m);
    assert t == q * (n * m) + r;
    assert t == (q * m) * n + r;
    var q2 := r / n;
    assert r == q2 * n + r % n;
    assert t == (q * m + q2) * n + r % n;
    DivModUnique(t, n, q * m + q2, r % n);
  }

  /** Division with remainder has one answer. */
  lemma DivModUnique(t: int, n: int, q: int, r: int)
    requires n > 0 && 0 <= r < n && t == q * n + r
    ensures t / n == q && t % n == r
  {
    var q0 := t / n;
    var r0 := t % n;
    assert t == q0 * n + r0;
    assert (q0 - q) * n == r - r0;
    if q0 != q {
      AtLeastOneMultiple(if q0 > q then q0 - q else q - q0, n);
    }
  }

  lemma AtLeastOneMultiple(d: int, n: int)
    requires d >= 1 && n > 0
    ensures d * n >= n
  {
    assert d * n == (d - 1) * n + n;
  }

  /** Any days-hours-minutes reading of `t` within the bounds `Split`
      guarantees is the one `Split` computes. */
  lemma SplitUnique(t: int, r: Remaining)
    requires t > 0
    requires r.days >= 0 && 0 <= r.hours < 24 && 0 <= r.minutes < 60
    requires Millis(r) <= t < Millis(r) + MsPerMinute
    ensures Split(t) == r
  {
    var rest := t - Millis(r);
    var belowDay := r.hours * MsPerHour + r.minutes * MsPerMinute + rest;
    DivModUnique(t, MsPerDay, r.days, belowDay);
    var belowHour := r.minutes * MsPerMinute + rest;
    DivModUnique(belowDay, MsPerHour, r.hours, belowHour);
    DivModUnique(belowHour, MsPerMinute, r.minutes, rest);
    assert t == (r.days * 24 + r.hours) * MsPerHour + belowHour;
    DivModUnique(t, MsPerHour, r.days * 24 + r.hours, belowHour);
  }

  /** Which of the four texts the card shows. */
  datatype TimeText = Ended | DaysHours(days: int, hours: int) | HoursMinutes(hours: int, minutes: int) | MinutesOnly(minutes: int)

  /** `formatTimeLeft`, as the choice of text and the numbers in it. */
  function FormatTimeLeft(t: int): (f: TimeText)
    ensures f.Ended? <==> t <= 0
    ensures f.DaysHours? <==> t >= MsPerDay
    ensures f.HoursMinutes? <==> MsPerHour <= t < MsPerDay
    ensures f.MinutesOnly? <==> 0 < t < MsPerHour
    ensures f.DaysHours? ==> f.days >= 1 && 0 <= f.hours < 24
                             && f.days * MsPerDay + f.hours * MsPerHour <= t < f.days * MsPerDay + (f.hours + 1) * MsPerHour
    ensures f.HoursMinutes? ==> 1 <= f.hours < 24 && 0 <= f.minutes < 60
                                && f.hours * MsPerHour + f.minutes * MsPerMinute <= t < f.hours * MsPerHour + (f.minutes + 1) * MsPerMinute
    ensures f.MinutesOnly? ==> 0 <= f.minutes < 60 && f.minutes * MsPerMinute <= t < (f.minutes + 1) * MsPerMinute
  {
    if t <= 0 then Ended
    else
      var r := Split(t);
      if r.days > 0 then DaysHours(r.days, r.hours)
      else if r.hours > 0 then HoursMinutes(r.hours, r.minutes)
      else MinutesOnly(r.minutes)
  }

  /** The text itself. */
  function Render(f: TimeText): (s: string)
    ensures s == "Ended" <==> f.Ended?
  {
    match f
    case Ended => "Ended"
    case DaysHours(d, h) => IntToString(d) + "d " + IntToString(h) + "h left"
    case HoursMinutes(h, m) => IntToString(h) + "h " + IntToString(m) + "m left"
    case MinutesOnly(m) => IntToString(m) + "m left"
  }

  /** The time is shown in red when at most five minutes are left, which
      includes every auction whose end time has passed. */
  predicate Urgent(t: int)
    ensures t <= 0 ==> Urgent(t)
    ensures Urgent(t) ==> FormatTimeLeft(t).Ended? || (FormatTimeLeft(t).MinutesOnly? && FormatTimeLeft(t).minutes <= 5)
    ensures FormatTimeLeft(t).DaysHours? || FormatTimeLeft(t).HoursMinutes? ==> !Urgent(t)
  {
    t <= UrgentMs
  }

  /** The card's button: "Bid Now" for an active auction, else "View Details". */
  function ButtonLabel(a: Auction, now: int): (text: string)
    ensures text == "Bid Now" <==> IsLive(a, now)
    ensures text == "Bid Now" || text == "View Details"
  {
    if IsLive(a, now) then "Bid Now" else "View Details"
  }

  /** The card reads the clock twice: `isActive` at `now1` and the time left
      at a later `now2`. Read once, a card offering "Bid Now" never reads
      "Ended"; read twice, it does so only when the end time falls between the
      two readings. An ended card is red either way. */
  lemma CardAgrees(a: Auction, now1: int, now2: int)
    requires now1 <= now2
    ensures now1 == now2 && ButtonLabel(a, now1) == "Bid Now" ==> Render(FormatTimeLeft(TimeLeft(a, now2))) != "Ended"
    ensures (ButtonLabel(a, now1) == "Bid Now" && Render(FormatTimeLeft(TimeLeft(a, now2))) == "Ended")
            ==> now1 < a.endTime <= now2
    ensures Render(FormatTimeLeft(TimeLeft(a, now2))) == "Ended" ==> Urgent(TimeLeft(a, now2))
  {
  }

  /** Readings that straddle the end time by one millisecond make the card of
      an active auction offer "Bid Now" beside "Ended". */
  lemma StraddledReadingsDisagree(a: Auction)
    requires a.isActive
    ensures ButtonLabel(a, a.endTime - 1) == "Bid Now"
    ensures Render(FormatTimeLeft(TimeLeft(a, a.endTime))) == "Ended"
  {
  }
}
