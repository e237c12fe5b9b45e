/** The earnings price-effect calculator (earningstrats/earnings.py,
    `get_stock_earnings_price_effect`): for each past earnings event, the move
    from the reference close to the next session's open and close, then one
    "Absolute Average" row. Daily bars arrive as a map from calendar-day number
    to bar; events as (day number, hour) of their timestamps. */
module PriceEffect {
  import opened Common

  datatype Bar = Bar(open: real, close: real)

  /** One entry of the earnings history: calendar-day number and hour of its timestamp. */
  datatype EarningsEvent = EarningsEvent(day: int, hour: int)

  /** After market close, or before market open. */
  datatype Session = AMC | BMO

  /** The four columns of a per-event row. */
  datatype Effect = Effect(
    closeToNextOpen: real,
    pctCloseToNextOpen: real,
    closeToNextClose: real,
    pctCloseToNextClose: real)

  /** A row's index label: the event date, or the summary row. */
  datatype RowLabel = EventDay(day: int) | AbsoluteAverage

  /** A row of the returned table; `effect` is `None` only for a summary of no
      events, where pandas averages nothing into NaN. */
  datatype EffectRow = EffectRow(symbol: string, index: RowLabel, effect: Option<Effect>)

  /** The records dictionary: (date, effect) in first-insertion order. */
  type Records = seq<(int, Effect)>

  ghost predicate PositiveCloses(bars: map<int, Bar>)
  {
    forall d :: d in bars ==> bars[d].close > 0.0
  }

  /** Hour before 14 is before the open; 14 or later is after the close. */
  function Classify(hour: int): Session
  {
    if hour < 14 then BMO else AMC
  }

  lemma ClassifyBoundary()
    ensures Classify(14) == AMC && Classify(13) == BMO
    ensures forall h :: Classify(h) == AMC <==> h >= 14
  {
  }

  /** The moves from a reference close to a later bar's open and close, in
      price and in percent of that same reference close. */
  function Deltas(refClose: real, bar: Bar): (eff: Effect)
    requires refClose > 0.0
    ensures refClose + eff.closeToNextOpen == bar.open
    ensures refClose + eff.closeToNextClose == bar.close
  {
    var toOpen := bar.open - refClose;
    var toClose := bar.close - refClose;
    Effect(toOpen, toOpen * 100.0 / refClose, toClose, toClose * 100.0 / refClose)
  }

  /** Each percentage is its change in percent of the same reference close. */
  lemma DeltasPercent(refClose: real, bar: Bar)
    requires refClose > 0.0
    ensures var eff := Deltas(refClose, bar);
      && eff.pctCloseToNextOpen * refClose == eff.closeToNextOpen * 100.0
      && eff.pctCloseToNextClose * refClose == eff.closeToNextClose * 100.0
  {
  }

  /** The day whose close is the reference: the event day after the close,
      the previous calendar day before the open. */
  function ReferenceDay(e: EarningsEvent): int
  {
    if Classify(e.hour) == AMC then e.day else e.day - 1
  }

  /** The day whose open and close are measured: the next calendar day after
      the close, the event day before the open. */
  function LaterDay(e: EarningsEvent): int
  {
    if Classify(e.hour) == AMC then e.day + 1 else e.day
  }

  /** The effect of one event, from the reference day's close to the later
      day's bar; no effect when either bar is missing. */
  function EventEffect(e: EarningsEvent, bars: map<int, Bar>): (r: Option<Effect>)
    requires PositiveCloses(bars)
    ensures r.Some? <==> e.day in bars && (if Classify(e.hour) == AMC then e.day + 1 in bars else e.day - 1 in bars)
  {
    if ReferenceDay(e) in bars && LaterDay(e) in bars then
      Some(Deltas(bars[ReferenceDay(e)].close, bars[LaterDay(e)]))
    else None
  }

  function Keys(data: Records): (ks: seq<int>)
    ensures |ks| == |data| && forall i :: 0 <= i < |data| ==> ks[i] == data[i].0
  {
    seq(|data|, i requires 0 <= i < |data| => data[i].0)
  }

  predicate HasKey(data: Records, k: int)
  {
    exists j :: 0 <= j < |data| && data[j].0 == k
  }

  /** Position of the entry for `k`: the first one, the only one when dates
      are distinct. */
  function IndexOf(data: Records, k: int): (i: nat)
    requires HasKey(data, k)
    ensures i < |data| && data[i].0 == k
    ensures forall j :: 0 <= j < i ==> data[j].0 != k
  {
    if data[0].0 == k then 0
    else
      assert HasKey(data[1..], k) by {
        var j :| 0 <= j < |data| && data[j].0 == k;
        assert data[1..][j - 1].0 == k;
      }
      1 + IndexOf(data[1..], k)
  }

  /** The records dictionary's key-to-value view: the value stored under a
      date, if any; it states what `data[str(date)] = ...` leaves behind. */
  function Lookup(data: Records, k: int): (r: Option<Effect>)
    ensures r.Some? <==> HasKey(data, k)
  {
    if HasKey(data, k) then Some(data[IndexOf(data, k)].1) else None
  }

  /** `data[date] = value`: a new date goes to the end, an existing one keeps
      its place and takes the new value; no other entry changes. */
  function Put(data: Records, k: int, v: Effect): (r: Records)
    ensures Lookup(r, k) == Some(v)
    ensures forall k' :: k' != k ==> Lookup(r, k') == Lookup(data, k')
    ensures Keys(r) == if HasKey(data, k) then Keys(data) else Keys(data) + [k]
  {
    if HasKey(data, k) then
      var r := data[IndexOf(data, k) := (k, v)];
      assert Keys(r) == Keys(data);
      forall k' | k' != k
        ensures Lookup(r, k') == Lookup(data, k')
      {
        if HasKey(data, k') {
          var i := IndexOf(data, k');
          assert r[i].0 == k';
        }
      }
      r
    else
      var r := data + [(k, v)];
      assert r[|data|].0 == k;
      forall k' | k' != k
        ensures Lookup(r, k') == Lookup(data, k')
      {
        if HasKey(data, k') {
          var i := IndexOf(data, k');
          assert r[i].0 == k';
        }
        if HasKey(r, k') {
          var i := IndexOf(r, k');
          assert data[i].0 == k';
        }
      }
      r
  }

  /** The records after the given events, processed in order. */
  function Collect(events: seq<EarningsEvent>, bars: map<int, Bar>): Records
    requires PositiveCloses(bars)
  {
    if events == [] then []
    else
      var data := Collect(events[..|events| - 1], bars);
      var e := events[|events| - 1];
      match EventEffect(e, bars)
      case None => data
      case Some(eff) => Put(data, e.day, eff)
  }

  /** The effect of the last event on `day` that has one: an independent
      statement of which record survives under a date. */
  function LastEffectOn(events: seq<EarningsEvent>, bars: map<int, Bar>, day: int): Option<Effect>
    requires PositiveCloses(bars)
  {
    if events == [] then None
    else
      var e := events[|events| - 1];
      if e.day == day && EventEffect(e, bars).Some? then EventEffect(e, bars)
      else LastEffectOn(events[..|events| - 1], bars, day)
  }

  ghost predicate DistinctKeys(data: Records)
  {
    forall i, j :: 0 <= i < j < |data| ==> data[i].0 != data[j].0
  }

  /** Records are keyed by date: the entry for a date is the effect of the last
      event on that date whose bars are present, and dates never repeat. */
  lemma {:induction false} CollectKeyedByDate(events: seq<EarningsEvent>, bars: map<int, Bar>, day: int)
    requires PositiveCloses(bars)
    ensures Lookup(Collect(events, bars), day) == LastEffectOn(events, bars, day)
    ensures DistinctKeys(Collect(events, bars))
  {
    if events != [] {
      var prefix := events[..|events| - 1];
      CollectKeyedByDate(prefix, bars, day);
      var data := Collect(prefix, bars);
      var e := events[|events| - 1];
      if EventEffect(e, bars).Some? {
        var r := Put(data, e.day, EventEffect(e, bars).value);
        assert forall i :: 0 <= i < |r| ==> r[i].0 == Keys(r)[i];
        assert forall i :: 0 <= i < |data| ==> data[i].0 == Keys(data)[i];
      }
    }
  }

  /** One more event: the records gain its effect, if it has one, under its date. */
  lemma CollectStep(events: seq<EarningsEvent>, i: nat, bars: map<int, Bar>)
    requires PositiveCloses(bars) && i < |events|
    ensures EventEffect(events[i], bars).None? ==> Collect(events[..i + 1], bars) == Collect(events[..i], bars)
    ensures EventEffect(events[i], bars).Some? ==>
      Collect(events[..i + 1], bars) == Put(Collect(events[..i], bars), events[i].day, EventEffect(events[i], bars).value)
  {
    assert events[..i + 1][..i] == events[..i];
  }

  /** An event whose adjacent bar is missing leaves the records unchanged. */
  lemma MissingBarSkipped(events: seq<EarningsEvent>, e: EarningsEvent, bars: map<int, Bar>)
    requires PositiveCloses(bars)
    requires e.day !in bars || (Classify(e.hour) == AMC && e.day + 1 !in bars) || (Classify(e.hour) == BMO && e.day - 1 !in bars)
    ensures Collect(events + [e], bars) == Collect(events, bars)
  {
    assert EventEffect(e, bars).None?;
    assert (events + [e])[..|events|] == events;
  }

  /** After the close: the moves from the event day's close to the next
      calendar day's open and close. */
  lemma AfterCloseEffect(e: EarningsEvent, bars: map<int, Bar>)
    requires PositiveCloses(bars)
    requires e.hour >= 14 && e.day in bars && e.day + 1 in bars
    ensures EventEffect(e, bars) == Some(Deltas(bars[e.day].close, bars[e.day + 1]))
    ensures EventEffect(e, bars).value.closeToNextOpen == bars[e.day + 1].open - bars[e.day].close
    ensures EventEffect(e, bars).value.closeToNextClose == bars[e.day + 1].close - bars[e.day].close
  {
  }

  /** Before the open: the moves from the previous calendar day's close to the
      event day's open and close. */
  lemma BeforeOpenEffect(e: EarningsEvent, bars: map<int, Bar>)
    requires PositiveCloses(bars)
    requires e.hour < 14 && e.day - 1 in bars && e.day in bars
    ensures EventEffect(e, bars) == Some(Deltas(bars[e.day - 1].close, bars[e.day]))
    ensures EventEffect(e, bars).value.closeToNextOpen == bars[e.day].open - bars[e.day - 1].close
    ensures EventEffect(e, bars).value.closeToNextClose == bars[e.day].close - bars[e.day - 1].close
  {
  }

  /** Close 100 on day D, open 102 and close 105 on D + 1, event at 16:00 on D:
      the moves are 2, 2%, 5 and 5%. */
  lemma AfterCloseExample(d: int, openOnD: real)
    ensures var bars := map[d := Bar(openOnD, 100.0), d + 1 := Bar(102.0, 105.0)];
      PositiveCloses(bars) &&
      EventEffect(EarningsEvent(d, 16), bars) == Some(Effect(2.0, 2.0, 5.0, 5.0))
  {
  }

  // ---------------------------------------------------------------------------
  // The returned table

  function AbsColumn(data: Records, pick: Effect -> real): (r: seq<real>)
    ensures |r| == |data|
    ensures forall i :: 0 <= i < |data| ==> r[i] == Abs(pick(data[i].1))
  {
    seq(|data|, i requires 0 <= i < |data| => Abs(pick(data[i].1)))
  }

  /** The "Absolute Average" values: the mean of |x| of each column; NaN (`None`)
      when there are no records. */
  function AbsoluteAverages(data: Records): (r: Option<Effect>)
    ensures r.Some? <==> |data| > 0
  {
    if data == [] then None
    else Some(Effect(
      Mean(AbsColumn(data, (e: Effect) => e.closeToNextOpen)).value,
      Mean(AbsColumn(data, (e: Effect) => e.pctCloseToNextOpen)).value,
      Mean(AbsColumn(data, (e: Effect) => e.closeToNextClose)).value,
      Mean(AbsColumn(data, (e: Effect) => e.pctCloseToNextClose)).value))
  }

  /** One more record adds its absolute value at the end of a column. */
  lemma AbsColumnSnoc(data: Records, rec: (int, Effect), pick: Effect -> real)
    ensures AbsColumn(data + [rec], pick) == AbsColumn(data, pick) + [Abs(pick(rec.1))]
  {
  }

  /** A single record averages to its own absolute values. */
  lemma AbsoluteAveragesOneRecord(d: int, e: Effect)
    ensures AbsoluteAverages([(d, e)]) ==
      Some(Effect(Abs(e.closeToNextOpen), Abs(e.pctCloseToNextOpen), Abs(e.closeToNextClose), Abs(e.pctCloseToNextClose)))
  {
    MeanOne(Abs(e.closeToNextOpen));
    MeanOne(Abs(e.pctCloseToNextOpen));
    MeanOne(Abs(e.closeToNextClose));
    MeanOne(Abs(e.pctCloseToNextClose));
    assert AbsColumn([(d, e)], (e: Effect) => e.closeToNextOpen) == [Abs(e.closeToNextOpen)];
    assert AbsColumn([(d, e)], (e: Effect) => e.pctCloseToNextOpen) == [Abs(e.pctCloseToNextOpen)];
    assert AbsColumn([(d, e)], (e: Effect) => e.closeToNextClose) == [Abs(e.closeToNextClose)];
    assert AbsColumn([(d, e)], (e: Effect) => e.pctCloseToNextClose) == [Abs(e.pctCloseToNextClose)];
  }

  /** One more record moves each summary value as a running mean of absolute
      values: from `a` over `n` records to (a * n + |x|) / (n + 1). With the
      one-record case this fixes every summary value for any number of records. */
  lemma AbsoluteAveragesAppend(data: Records, rec: (int, Effect))
    requires |data| > 0
    ensures var a, b, e, n := AbsoluteAverages(data).value, AbsoluteAverages(data + [rec]).value, rec.1, |data|;
      && b.closeToNextOpen == RunningMean(a.closeToNextOpen, n, Abs(e.closeToNextOpen))
      && b.pctCloseToNextOpen == RunningMean(a.pctCloseToNextOpen, n, Abs(e.pctCloseToNextOpen))
      && b.closeToNextClose == RunningMean(a.closeToNextClose, n, Abs(e.closeToNextClose))
      && b.pctCloseToNextClose == RunningMean(a.pctCloseToNextClose, n, Abs(e.pctCloseToNextClose))
  {
    AbsMeanSnoc(data, rec, (e: Effect) => e.closeToNextOpen);
    AbsMeanSnoc(data, rec, (e: Effect) => e.pctCloseToNextOpen);
    AbsMeanSnoc(data, rec, (e: Effect) => e.closeToNextClose);
    AbsMeanSnoc(data, rec, (e: Effect) => e.pctCloseToNextClose);
  }

  lemma AbsMeanSnoc(data: Records, rec: (int, Effect), pick: Effect -> real)
    requires |data| > 0
    ensures Mean(AbsColumn(data + [rec], pick)).value ==
      RunningMean(Mean(AbsColumn(data, pick)).value, |data|, Abs(pick(rec.1)))
  {
    AbsColumnSnoc(data, rec, pick);
    MeanSnoc(AbsColumn(data, pick), Abs(pick(rec.1)));
  }

  /** The per-event rows in record order, then the summary row, every row
      carrying the symbol. */
  function PriceEffectTable(symbol: string, data: Records): seq<EffectRow>
  {
    seq(|data|, i requires 0 <= i < |data| => EffectRow(symbol, EventDay(data[i].0), Some(data[i].1)))
      + [EffectRow(symbol, AbsoluteAverage, AbsoluteAverages(data))]
  }

  /** The table has one row per record, in record order, and exactly one
      "Absolute Average" row, last, holding the summary values; every row
      carries the symbol. */
  lemma PriceEffectTableShape(symbol: string, data: Records)
    ensures var t := PriceEffectTable(symbol, data);
      && |t| == |data| + 1
      && (forall i :: 0 <= i < |t| ==> t[i].symbol == symbol)
      && (forall i :: 0 <= i < |data| ==> t[i].index == EventDay(data[i].0) && t[i].effect == Some(data[i].1))
      && t[|data|].index == AbsoluteAverage
      && (forall i :: 0 <= i < |t| && t[i].index == AbsoluteAverage ==> i == |data|)
      && t[|data|].effect == AbsoluteAverages(data)
  {
  }

  /** Every value of the summary row is a mean of absolute values, hence >= 0. */
  lemma AbsoluteAveragesNonNegative(data: Records)
    requires |data| > 0
    ensures var a := AbsoluteAverages(data).value;
      a.closeToNextOpen >= 0.0 && a.pctCloseToNextOpen >= 0.0 &&
      a.closeToNextClose >= 0.0 && a.pctCloseToNextClose >= 0.0
  {
    MeanLowerBound(AbsColumn(data, (e: Effect) => e.closeToNextOpen), 0.0);
    MeanLowerBound(AbsColumn(data, (e: Effect) => e.pctCloseToNextOpen), 0.0);
    MeanLowerBound(AbsColumn(data, (e: Effect) => e.closeToNextClose), 0.0);
    MeanLowerBound(AbsColumn(data, (e: Effect) => e.pctCloseToNextClose), 0.0);
  }

  /** `get_stock_earnings_price_effect` on a symbol's bars and earnings history.
      The first event is read before the loop, so an empty history raises. */
  method StockEarningsPriceEffect(symbol: string, bars: map<int, Bar>, events: seq<EarningsEvent>)
    returns (r: Result<seq<EffectRow>>)
    requires PositiveCloses(bars)
    ensures r.Err? <==> events == []
    ensures r.Ok? ==> r.value == PriceEffectTable(symbol, Collect(events, bars))
  {
    if |events| == 0 {
      return Err(EmptyEarningsHistory);
    }
    var data: Records := [];
    var i := 0;
    while i < |events|
      invariant 0 <= i <= |events|
      invariant data == Collect(events[..i], bars)
    {
      var e := events[i];
      CollectStep(events, i, bars);
      var isAMC := e.hour >= 14;
      var refDay, laterDay := e.day, e.day + 1;
      if !isAMC {
        refDay, laterDay := e.day - 1, e.day;
      }
      assert refDay == ReferenceDay(e) && laterDay == LaterDay(e);
      if refDay in bars && laterDay in bars {
        data := Put(data, e.day, Deltas(bars[refDay].close, bars[laterDay]));
      }
      i := i + 1;
    }
    assert events[..|events|] == events;
    r := Ok(PriceEffectTable(symbol, data));
  }
}
