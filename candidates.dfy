/** The earnings screener (earningstrats/earnings.py,
    `get_companies_with_earnings_today_AMC_or_tomm_BMO`): announcements after
    today's close or before tomorrow's open, stamped with option-market data
    for tickers that trade enough options, filtered and sorted by volume. The
    two earnings calendars and the market data arrive as parameters. */
module Candidates {
  import opened Common
  import opened Sorting
  import PriceEffect

  /** One calendar entry: ticker, company, the day and hour of its timestamp,
      and the other columns the screen keeps (the rest of the timestamp, the
      EPS estimate), which matter only when duplicates are dropped. */
  datatype Listing = Listing(ticker: string, companyName: string, day: int, hour: int, details: string)

  /** A calendar entry labelled with its session. */
  datatype Announcement = Announcement(listing: Listing, session: PriceEffect.Session)

  /** What the market reports for a ticker: whether it has option expirations,
      the summed call and put volume and open interest of the nearest one, and
      the latest close (already rounded to cents). */
  datatype TickerData = TickerData(hasExpirations: bool, volumeSum: int, openInterestSum: int, close: real)

  /** A row of the result table; `openInterest` is NaN (`None`) until stamped. */
  datatype Candidate = Candidate(
    announcement: Announcement,
    stockPrice: real,
    isWeekly: bool,
    volume: int,
    openInterest: Option<int>)

  function Ticker(c: Candidate): string
  {
    c.announcement.listing.ticker
  }

  function Volume(c: Candidate): real
  {
    c.volume as real
  }

  /** Today's entries after 14:xx, labelled AMC. */
  function AfterCloseToday(today: seq<Listing>): (r: seq<Announcement>)
    ensures forall a :: a in r <==> a.session == PriceEffect.AMC && a.listing in today && a.listing.hour > 14
  {
    if today == [] then []
    else
      var rest := AfterCloseToday(today[..|today| - 1]);
      var l := today[|today| - 1];
      assert today == today[..|today| - 1] + [l];
      if l.hour > 14 then rest + [Announcement(l, PriceEffect.AMC)] else rest
  }

  /** Tomorrow's entries up to 14:xx, labelled BMO. */
  function BeforeOpenTomorrow(tomorrow: seq<Listing>): (r: seq<Announcement>)
    ensures forall a :: a in r <==> a.session == PriceEffect.BMO && a.listing in tomorrow && a.listing.hour <= 14
  {
    if tomorrow == [] then []
    else
      var rest := BeforeOpenTomorrow(tomorrow[..|tomorrow| - 1]);
      var l := tomorrow[|tomorrow| - 1];
      assert tomorrow == tomorrow[..|tomorrow| - 1] + [l];
      if l.hour <= 14 then rest + [Announcement(l, PriceEffect.BMO)] else rest
  }

  /** Both lists concatenated, duplicates dropped. */
  function Announcements(today: seq<Listing>, tomorrow: seq<Listing>): seq<Announcement>
  {
    Dedup(AfterCloseToday(today) + BeforeOpenTomorrow(tomorrow))
  }

  /** The screen's rows are exactly today's after-close and tomorrow's
      before-open entries, each once. */
  lemma AnnouncementsExactly(today: seq<Listing>, tomorrow: seq<Listing>)
    ensures forall a :: a in Announcements(today, tomorrow) <==>
      (a.session == PriceEffect.AMC && a.listing in today && a.listing.hour > 14) ||
      (a.session == PriceEffect.BMO && a.listing in tomorrow && a.listing.hour <= 14)
    ensures var r := Announcements(today, tomorrow);
      forall i, j :: 0 <= i < j < |r| ==> r[i] != r[j]
  {
  }

  /** The screen drops a 14:xx entry of today, while the price-effect
      calculator counts an event at 14:xx as after the close. */
  lemma FourteenHundredDisagreement(l: Listing)
    requires l.hour == 14
    ensures Announcement(l, PriceEffect.AMC) !in Announcements([l], [])
    ensures PriceEffect.Classify(l.hour) == PriceEffect.AMC
  {
  }

  /** The ticker is optionable, has an expiration, and its nearest expiration
      traded at least `minVolSum` contracts. */
  predicate Eligible(t: string, market: string -> TickerData, optionSet: set<string>, minVolSum: int)
  {
    t in optionSet && market(t).hasExpirations && market(t).volumeSum >= minVolSum
  }

  /** A row before the loop: price 0, not weekly, volume 0, no open interest. */
  function Blank(a: Announcement): Candidate
  {
    Candidate(a, 0.0, false, 0, None)
  }

  /** The loop's writes for one ticker. */
  function Stamp(c: Candidate, d: TickerData, weekly: bool): Candidate
  {
    c.(stockPrice := d.close, volume := d.volumeSum, openInterest := Some(d.openInterestSum), isWeekly := weekly)
  }

  /** A row after the loop. */
  function Screened(a: Announcement, market: string -> TickerData, optionSet: set<string>, weeklySet: set<string>, minVolSum: int): Candidate
  {
    var t := a.listing.ticker;
    if Eligible(t, market, optionSet, minVolSum) then Stamp(Blank(a), market(t), t in weeklySet) else Blank(a)
  }

  predicate Kept(c: Candidate, minPrice: real)
  {
    c.volume != 0 && c.stockPrice > minPrice
  }

  /** Drop rows with no volume or a price at or below `minPrice`, keeping order. */
  function KeepRows(cs: seq<Candidate>, minPrice: real): (r: seq<Candidate>)
    ensures forall c :: c in r <==> c in cs && Kept(c, minPrice)
    ensures |r| <= |cs|
  {
    if cs == [] then []
    else
      var rest := KeepRows(cs[..|cs| - 1], minPrice);
      var c := cs[|cs| - 1];
      assert cs == cs[..|cs| - 1] + [c];
      if Kept(c, minPrice) then rest + [c] else rest
  }

  /** Every kept row comes back as many times as it was given, and no other
      row does. */
  lemma {:induction false} KeepRowsCounts(cs: seq<Candidate>, minPrice: real)
    ensures forall c :: multiset(KeepRows(cs, minPrice))[c] == if Kept(c, minPrice) then multiset(cs)[c] else 0
  {
    if cs != [] {
      KeepRowsCounts(cs[..|cs| - 1], minPrice);
      assert cs == cs[..|cs| - 1] + [cs[|cs| - 1]];
    }
  }

  /** The rows the screen returns, before sorting. */
  function Survivors(today: seq<Listing>, tomorrow: seq<Listing>, market: string -> TickerData,
                     optionSet: set<string>, weeklySet: set<string>, minVolSum: int, minPrice: real): seq<Candidate>
  {
    var anns := Announcements(today, tomorrow);
    KeepRows(seq(|anns|, i requires 0 <= i < |anns| => Screened(anns[i], market, optionSet, weeklySet, minVolSum)), minPrice)
  }

  /** Every returned row belongs to an announcement of the screen, passed the
      eligibility test, and carries its ticker's market data; no returned row
      has zero volume or a price at or below the floor. */
  lemma SurvivorsStamped(today: seq<Listing>, tomorrow: seq<Listing>, market: string -> TickerData,
                         optionSet: set<string>, weeklySet: set<string>, minVolSum: int, minPrice: real, c: Candidate)
    requires c in Survivors(today, tomorrow, market, optionSet, weeklySet, minVolSum, minPrice)
    ensures c.announcement in Announcements(today, tomorrow)
    ensures Eligible(Ticker(c), market, optionSet, minVolSum)
    ensures c == Stamp(Blank(c.announcement), market(Ticker(c)), Ticker(c) in weeklySet)
    ensures c.volume != 0 && c.volume >= minVolSum && c.stockPrice > minPrice
  {
    var anns := Announcements(today, tomorrow);
    var rows := seq(|anns|, i requires 0 <= i < |anns| => Screened(anns[i], market, optionSet, weeklySet, minVolSum));
    var i :| 0 <= i < |rows| && rows[i] == c;
    assert c.announcement == anns[i];
  }

  /** Conversely, every announcement of an eligible ticker with non-zero volume
      and a price above the floor is returned. */
  lemma EligibleSurvives(today: seq<Listing>, tomorrow: seq<Listing>, market: string -> TickerData,
                         optionSet: set<string>, weeklySet: set<string>, minVolSum: int, minPrice: real, a: Announcement)
    requires a in Announcements(today, tomorrow)
    requires Eligible(a.listing.ticker, market, optionSet, minVolSum)
    requires market(a.listing.ticker).volumeSum != 0 && market(a.listing.ticker).close > minPrice
    ensures Screened(a, market, optionSet, weeklySet, minVolSum) in Survivors(today, tomorrow, market, optionSet, weeklySet, minVolSum, minPrice)
  {
    var anns := Announcements(today, tomorrow);
    var rows := seq(|anns|, i requires 0 <= i < |anns| => Screened(anns[i], market, optionSet, weeklySet, minVolSum));
    var i :| 0 <= i < |anns| && anns[i] == a;
    assert rows[i] == Screened(a, market, optionSet, weeklySet, minVolSum);
  }

  /** The rows after the loop has visited the first `i` rows: a row is stamped
      once some visited row shares its ticker and that ticker is eligible. */
  function StampedUpTo(anns: seq<Announcement>, i: nat, market: string -> TickerData,
                       optionSet: set<string>, weeklySet: set<string>, minVolSum: int): (r: seq<Candidate>)
    requires i <= |anns|
    ensures |r| == |anns|
  {
    seq(|anns|, j requires 0 <= j < |anns| =>
      if anns[j].listing.ticker in Tickers(anns[..i]) then Screened(anns[j], market, optionSet, weeklySet, minVolSum)
      else Blank(anns[j]))
  }

  function Tickers(anns: seq<Announcement>): (ts: seq<string>)
    ensures |ts| == |anns| && forall i :: 0 <= i < |anns| ==> ts[i] == anns[i].listing.ticker
  {
    seq(|anns|, i requires 0 <= i < |anns| => anns[i].listing.ticker)
  }

  /** `comp.loc[rows of ticker t, ...] = ...`: every row of ticker `t` is stamped. */
  function StampTicker(comp: seq<Candidate>, t: string, d: TickerData, weekly: bool): (r: seq<Candidate>)
    ensures |r| == |comp|
  {
    seq(|comp|, j requires 0 <= j < |comp| => if Ticker(comp[j]) == t then Stamp(comp[j], d, weekly) else comp[j])
  }

  /** Visiting row `i` stamps the rows of its ticker when that ticker is eligible. */
  lemma StampedUpToStep(anns: seq<Announcement>, i: nat, market: string -> TickerData,
                        optionSet: set<string>, weeklySet: set<string>, minVolSum: int)
    requires i < |anns|
    ensures var t := anns[i].listing.ticker;
      var before := StampedUpTo(anns, i, market, optionSet, weeklySet, minVolSum);
      StampedUpTo(anns, i + 1, market, optionSet, weeklySet, minVolSum) ==
        if Eligible(t, market, optionSet, minVolSum) then StampTicker(before, t, market(t), t in weeklySet) else before
  {
    var t := anns[i].listing.ticker;
    assert Tickers(anns[..i + 1]) == Tickers(anns[..i]) + [t];
  }

  /** After the last row, every row is screened. */
  lemma StampedUpToEnd(anns: seq<Announcement>, market: string -> TickerData,
                       optionSet: set<string>, weeklySet: set<string>, minVolSum: int)
    ensures StampedUpTo(anns, |anns|, market, optionSet, weeklySet, minVolSum) ==
      seq(|anns|, j requires 0 <= j < |anns| => Screened(anns[j], market, optionSet, weeklySet, minVolSum))
  {
    assert anns[..|anns|] == anns;
    forall j | 0 <= j < |anns|
      ensures anns[j].listing.ticker in Tickers(anns)
    {
      assert Tickers(anns)[j] == anns[j].listing.ticker;
    }
  }

  /** `get_companies_with_earnings_today_AMC_or_tomm_BMO`: the surviving rows,
      largest volume first. */
  method CompaniesWithEarnings(today: seq<Listing>, tomorrow: seq<Listing>, market: string -> TickerData,
                               optionSet: set<string>, weeklySet: set<string>, minVolSum: int, minPrice: real)
    returns (r: seq<Candidate>)
    ensures NonIncreasing(r, Volume)
    ensures multiset(r) == multiset(Survivors(today, tomorrow, market, optionSet, weeklySet, minVolSum, minPrice))
  {
    var anns := Announcements(today, tomorrow);
    var comp := seq(|anns|, j requires 0 <= j < |anns| => Blank(anns[j]));
    var i := 0;
    while i < |comp|
      invariant 0 <= i <= |anns| && |comp| == |anns|
      invariant comp == StampedUpTo(anns, i, market, optionSet, weeklySet, minVolSum)
    {
      var t := Ticker(comp[i]);
      StampedUpToStep(anns, i, market, optionSet, weeklySet, minVolSum);
      if t in optionSet && market(t).hasExpirations && market(t).volumeSum >= minVolSum {
        comp := StampTicker(comp, t, market(t), t in weeklySet);
      }
      i := i + 1;
    }
    StampedUpToEnd(anns, market, optionSet, weeklySet, minVolSum);
    var kept := KeepRows(comp, minPrice);
    var a := new Candidate[|kept|](j requires 0 <= j < |kept| => kept[j]);
    assert a[..] == kept;
    SortDescending(a, Volume);
    r := a[..];
  }
}
