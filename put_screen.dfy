/** The put screener (earningstrats/options.py, `get_put_option_chain` and
    `get_all_put_options`): the put side of the chain with distance to spot, the
    probability of not being assigned, and the yield on collateral, ordered by
    strike from highest to lowest. */
module PutScreen {
  import opened Common
  import opened Options
  import opened Sorting

  /** One screened put: the provider row, its mark, its distance to spot in
      percent, the probability of not being assigned in percent (`None` where
      pandas computes 0/0), the yield on collateral in percent, and the
      estimator's four moves in percent. */
  datatype PutRow = PutRow(
    quote: Quote,
    mark: real,
    distPct: real,
    probPct: Option<real>,
    yieldPct: real,
    movesPct: Moves)

  function RowStrike(row: PutRow): real
  {
    row.quote.strike
  }

  /** The probability parameter stands for z |-> round(halfnorm.cdf(z) * 100, 4) / 100:
      both the half-normal distribution function and rounding are monotone and
      stay within [0, 1]; that is all the model relies on. */
  ghost predicate IsCdf(cdf: real -> real)
  {
    && (forall z :: 0.0 <= cdf(z) <= 1.0)
    && (forall z1, z2 :: z1 <= z2 ==> cdf(z1) <= cdf(z2))
  }

  /** A ceiling argument of -1 means the spot price. */
  function Ceiling(priceCeiling: real, spot: real): real
  {
    if priceCeiling == -1.0 then spot else priceCeiling
  }

  /** |spot - strike| / spot x 100. */
  function DistPct(strike: real, spot: real): (d: real)
    requires spot > 0.0
    ensures d >= 0.0
    ensures d == 0.0 <==> strike == spot
  {
    Abs((spot - strike) / spot * 100.0)
  }

  /** halfnorm.cdf(dist% / aggregate%) x 100. A zero aggregate move makes the
      z-score +inf for a positive distance (probability 100) and 0/0 = NaN for a
      zero distance. */
  function Probability(distPct: real, aggregatePct: real, cdf: real -> real): (p: Option<real>)
    requires distPct >= 0.0
    ensures p.None? <==> aggregatePct == 0.0 && distPct == 0.0
  {
    if aggregatePct == 0.0 then (if distPct == 0.0 then None else Some(100.0))
    else Some(cdf(distPct / aggregatePct) * 100.0)
  }

  /** The probability column always lies in [0, 100]. */
  lemma ProbabilityInRange(distPct: real, aggregatePct: real, cdf: real -> real)
    requires distPct >= 0.0
    requires IsCdf(cdf)
    ensures var p := Probability(distPct, aggregatePct, cdf);
      p.Some? ==> 0.0 <= p.value <= 100.0
  {
    if aggregatePct != 0.0 {
      var z := distPct / aggregatePct;
      assert 0.0 <= cdf(z) <= 1.0;
    }
  }

  /** For a fixed non-negative aggregate move, a put farther from spot is never
      given a lower probability of not being assigned. */
  lemma ProbabilityMonotone(d1: real, d2: real, aggregatePct: real, cdf: real -> real)
    requires 0.0 <= d1 <= d2
    requires aggregatePct >= 0.0
    requires IsCdf(cdf)
    requires Probability(d1, aggregatePct, cdf).Some?
    ensures Probability(d2, aggregatePct, cdf).Some?
    ensures Probability(d1, aggregatePct, cdf).value <= Probability(d2, aggregatePct, cdf).value
  {
    if aggregatePct == 0.0 {
      assert d1 > 0.0;
    } else {
      var z1, z2 := d1 / aggregatePct, d2 / aggregatePct;
      assert z1 <= z2;
      assert cdf(z1) <= cdf(z2);
      ProbabilityInRange(d2, aggregatePct, cdf);
    }
  }

  /** The estimator's four fractions as percentages (`moves[k] * 100`). */
  function Percent(m: Moves): Moves
  {
    Moves(m.ivMove * 100.0, m.straddleMove * 100.0, m.straddleStrangleMove * 100.0, m.aggregateMove * 100.0)
  }

  /** The rows whose strike does not exceed the ceiling, in chain order. */
  function KeepAtOrBelow(puts: seq<Quote>, ceiling: real): (r: seq<Quote>)
    ensures forall q :: q in r <==> q in puts && q.strike <= ceiling
    ensures |r| <= |puts|
  {
    if puts == [] then []
    else (if puts[0].strike <= ceiling then [puts[0]] else []) + KeepAtOrBelow(puts[1..], ceiling)
  }

  /** The cut keeps every put at or below the ceiling as many times as the
      chain holds it, and no other put. */
  lemma {:induction false} KeepAtOrBelowCounts(puts: seq<Quote>, ceiling: real)
    ensures forall q :: multiset(KeepAtOrBelow(puts, ceiling))[q] == if q.strike <= ceiling then multiset(puts)[q] else 0
  {
    if puts != [] {
      KeepAtOrBelowCounts(puts[1..], ceiling);
      assert puts == [puts[0]] + puts[1..];
    }
  }

  /** `collateral.all() == 0`: true as soon as one mark is zero. */
  predicate AnyZeroMark(puts: seq<Quote>)
  {
    exists i :: 0 <= i < |puts| && Mark(puts[i]) == 0.0
  }

  /** The zero-mark test does not depend on the order of the rows: it gives the
      same answer before and after the chain is sorted. */
  lemma AnyZeroMarkIgnoresOrder(a: seq<Quote>, b: seq<Quote>)
    requires multiset(a) == multiset(b)
    ensures AnyZeroMark(a) <==> AnyZeroMark(b)
  {
    if AnyZeroMark(a) {
      var i :| 0 <= i < |a| && Mark(a[i]) == 0.0;
      assert a[i] in multiset(b);
      var j :| 0 <= j < |b| && b[j] == a[i];
    }
    if AnyZeroMark(b) {
      var j :| 0 <= j < |b| && Mark(b[j]) == 0.0;
      assert b[j] in multiset(a);
      var i :| 0 <= i < |a| && a[i] == b[j];
    }
  }

  /** `collateral * 100 / strike` with collateral = price x 100: the premium as
      a percentage of the cash set aside for assignment. */
  function CollateralYield(price: real, strike: real): (y: real)
    requires strike > 0.0
    ensures price >= 0.0 ==> y >= 0.0
  {
    price * 100.0 * 100.0 / strike
  }

  /** Some row of the table has a zero mark. */
  predicate SomeMarkZero(rows: seq<PutRow>)
  {
    exists i :: 0 <= i < |rows| && rows[i].mark == 0.0
  }

  /** One screened row; `useLast` selects lastPrice instead of the mark for the
      collateral yield. */
  function ScoreRow(q: Quote, spot: real, movesPct: Moves, cdf: real -> real, useLast: bool): (row: PutRow)
    requires spot > 0.0 && q.strike > 0.0
  {
    var mark := Mark(q);
    var dist := DistPct(q.strike, spot);
    var price := if useLast then q.lastPrice else mark;
    PutRow(q, mark, dist, Probability(dist, movesPct.aggregateMove, cdf), CollateralYield(price, q.strike), movesPct)
  }

  ghost predicate PositiveStrikes(puts: seq<Quote>)
  {
    forall q :: q in puts ==> q.strike > 0.0
  }

  /** The computed columns for every row of `puts`, in the same order. */
  function ScoreRows(puts: seq<Quote>, spot: real, movesPct: Moves, cdf: real -> real): (r: seq<PutRow>)
    requires spot > 0.0 && PositiveStrikes(puts)
    ensures |r| == |puts|
    ensures forall i :: 0 <= i < |r| ==> r[i] == ScoreRow(puts[i], spot, movesPct, cdf, AnyZeroMark(puts))
  {
    var useLast := AnyZeroMark(puts);
    seq(|puts|, i requires 0 <= i < |puts| => ScoreRow(puts[i], spot, movesPct, cdf, useLast))
  }

  /** The rows `get_put_option_chain` returns, before sorting. The estimator's
      "Error" reaches the z-score division as a string and raises. */
  function ScreenedPuts(chain: Chain, spot: real, sqrtFactor: real, priceCeiling: real, cdf: real -> real)
    : (r: Result<seq<PutRow>>)
    requires spot > 0.0 && PositiveStrikes(chain.puts)
    ensures r.Err? <==> ExpectedMove(chain, spot, sqrtFactor).Err?
  {
    match ExpectedMove(chain, spot, sqrtFactor)
    case Err(e) => Err(e)
    case Ok(m) => Ok(ScoreRows(KeepAtOrBelow(chain.puts, Ceiling(priceCeiling, spot)), spot, Percent(m), cdf))
  }

  /** The rows `get_all_put_options` returns, before sorting: no ceiling. */
  function AllPuts(chain: Chain, spot: real, sqrtFactor: real, cdf: real -> real): (r: Result<seq<PutRow>>)
    requires spot > 0.0 && PositiveStrikes(chain.puts)
    ensures r.Err? <==> ExpectedMove(chain, spot, sqrtFactor).Err?
  {
    match ExpectedMove(chain, spot, sqrtFactor)
    case Err(e) => Err(e)
    case Ok(m) => Ok(ScoreRows(chain.puts, spot, Percent(m), cdf))
  }

  /** `get_put_option_chain`: drop the puts above the ceiling, add the computed
      columns, and sort by strike, highest first, in place. */
  method GetPutOptionChain(chain: Chain, spot: real, sqrtFactor: real, priceCeiling: real, cdf: real -> real)
    returns (r: Result<seq<PutRow>>)
    requires spot > 0.0 && PositiveStrikes(chain.puts)
    ensures r.Err? <==> ExpectedMove(chain, spot, sqrtFactor).Err?
    ensures r.Ok? ==> NonIncreasing(r.value, RowStrike)
    ensures r.Ok? ==> multiset(r.value) == multiset(ScreenedPuts(chain, spot, sqrtFactor, priceCeiling, cdf).value)
  {
    var estimate := ExpectedMove(chain, spot, sqrtFactor);
    if estimate.Err? {
      return Err(estimate.error);
    }
    var puts := KeepAtOrBelow(chain.puts, Ceiling(priceCeiling, spot));
    var rows := ScoreRows(puts, spot, Percent(estimate.value), cdf);
    var a := new PutRow[|rows|](i requires 0 <= i < |rows| => rows[i]);
    assert a[..] == rows;
    SortDescending(a, RowStrike);
    r := Ok(a[..]);
  }

  /** `get_all_put_options`: every put with the computed columns, sorted by
      strike, highest first. */
  method GetAllPutOptions(chain: Chain, spot: real, sqrtFactor: real, cdf: real -> real)
    returns (r: Result<seq<PutRow>>)
    requires spot > 0.0 && PositiveStrikes(chain.puts)
    ensures r.Err? <==> ExpectedMove(chain, spot, sqrtFactor).Err?
    ensures r.Ok? ==> NonIncreasing(r.value, RowStrike)
    ensures r.Ok? ==> multiset(r.value) == multiset(AllPuts(chain, spot, sqrtFactor, cdf).value)
  {
    var estimate := ExpectedMove(chain, spot, sqrtFactor);
    if estimate.Err? {
      return Err(estimate.error);
    }
    var rows := ScoreRows(chain.puts, spot, Percent(estimate.value), cdf);
    var a := new PutRow[|rows|](i requires 0 <= i < |rows| => rows[i]);
    assert a[..] == rows;
    SortDescending(a, RowStrike);
    r := Ok(a[..]);
  }

  // ---------------------------------------------------------------------------
  // Properties of the screen

  /** The screen is the scored rows of the puts at or below the ceiling, with
      the estimator's moves in percent. */
  lemma ScreenedPutsUnfold(chain: Chain, spot: real, sqrtFactor: real, priceCeiling: real, cdf: real -> real)
    requires spot > 0.0 && PositiveStrikes(chain.puts)
    requires ExpectedMove(chain, spot, sqrtFactor).Ok?
    ensures ScreenedPuts(chain, spot, sqrtFactor, priceCeiling, cdf).value ==
      ScoreRows(KeepAtOrBelow(chain.puts, Ceiling(priceCeiling, spot)), spot,
                Percent(ExpectedMove(chain, spot, sqrtFactor).value), cdf)
  {
  }

  /** Scoring keeps exactly the given puts, each row with a non-negative
      distance to spot and a probability in [0, 100]. */
  lemma ScoreRowsFacts(puts: seq<Quote>, spot: real, movesPct: Moves, cdf: real -> real)
    requires spot > 0.0 && PositiveStrikes(puts)
    requires IsCdf(cdf)
    ensures var rows := ScoreRows(puts, spot, movesPct, cdf);
      && (forall q :: q in puts <==> exists row :: row in rows && row.quote == q)
      && (forall row :: row in rows ==>
            && row.distPct == Abs((spot - row.quote.strike) / spot * 100.0)
            && row.distPct >= 0.0
            && (row.probPct.Some? ==> 0.0 <= row.probPct.value <= 100.0))
  {
    var rows := ScoreRows(puts, spot, movesPct, cdf);
    forall q ensures q in puts <==> exists row :: row in rows && row.quote == q {
      if q in puts {
        var i :| 0 <= i < |puts| && puts[i] == q;
        assert rows[i] in rows && rows[i].quote == q;
      }
      if exists row :: row in rows && row.quote == q {
        var row :| row in rows && row.quote == q;
        var i :| 0 <= i < |rows| && rows[i] == row;
        assert puts[i] == q;
      }
    }
    forall row | row in rows
      ensures row.distPct == Abs((spot - row.quote.strike) / spot * 100.0)
      ensures row.distPct >= 0.0 && (row.probPct.Some? ==> 0.0 <= row.probPct.value <= 100.0)
    {
      var i :| 0 <= i < |rows| && rows[i] == row;
      ScoreRowFacts(puts[i], spot, movesPct, cdf, AnyZeroMark(puts));
    }
  }

  /** One scored row: its distance and the range of its probability. */
  lemma ScoreRowFacts(q: Quote, spot: real, movesPct: Moves, cdf: real -> real, useLast: bool)
    requires spot > 0.0 && q.strike > 0.0
    requires IsCdf(cdf)
    ensures var row := ScoreRow(q, spot, movesPct, cdf, useLast);
      && row.quote == q
      && row.distPct == Abs((spot - q.strike) / spot * 100.0)
      && row.distPct >= 0.0
      && (row.probPct.Some? ==> 0.0 <= row.probPct.value <= 100.0)
  {
    ProbabilityInRange(DistPct(q.strike, spot), movesPct.aggregateMove, cdf);
  }

  /** Exactly the puts at or below the ceiling survive the screen, and every
      surviving row has a non-negative distance to spot and a probability in
      [0, 100]. */
  lemma ScreenedPutsFilter(chain: Chain, spot: real, sqrtFactor: real, priceCeiling: real, cdf: real -> real)
    requires spot > 0.0 && PositiveStrikes(chain.puts)
    requires IsCdf(cdf)
    requires ScreenedPuts(chain, spot, sqrtFactor, priceCeiling, cdf).Ok?
    ensures var rows := ScreenedPuts(chain, spot, sqrtFactor, priceCeiling, cdf).value;
      && (forall q :: q in chain.puts && q.strike <= Ceiling(priceCeiling, spot) <==>
            exists row :: row in rows && row.quote == q)
      && (forall row :: row in rows ==>
            && row.distPct == Abs((spot - row.quote.strike) / spot * 100.0)
            && row.distPct >= 0.0
            && (row.probPct.Some? ==> 0.0 <= row.probPct.value <= 100.0))
  {
    ScreenedPutsUnfold(chain, spot, sqrtFactor, priceCeiling, cdf);
    var puts := KeepAtOrBelow(chain.puts, Ceiling(priceCeiling, spot));
    ScoreRowsFacts(puts, spot, Percent(ExpectedMove(chain, spot, sqrtFactor).value), cdf);
  }

  /** The collateral fallback: every row's yield is price x 100 x 100 / strike,
      where price is lastPrice for every row as soon as one row has a zero mark,
      and the mark for every row otherwise. */
  lemma ScoreRowsYield(puts: seq<Quote>, spot: real, movesPct: Moves, cdf: real -> real)
    requires spot > 0.0 && PositiveStrikes(puts)
    ensures var rows := ScoreRows(puts, spot, movesPct, cdf);
      forall row :: row in rows ==>
        row.quote.strike > 0.0 &&
        row.yieldPct == CollateralYield(if SomeMarkZero(rows) then row.quote.lastPrice else row.mark, row.quote.strike)
  {
    var rows := ScoreRows(puts, spot, movesPct, cdf);
    assert AnyZeroMark(puts) == SomeMarkZero(rows) by {
      if AnyZeroMark(puts) {
        var i :| 0 <= i < |puts| && Mark(puts[i]) == 0.0;
        assert rows[i].mark == 0.0;
      }
      if SomeMarkZero(rows) {
        var i :| 0 <= i < |rows| && rows[i].mark == 0.0;
        assert Mark(puts[i]) == 0.0;
      }
    }
    forall row | row in rows
      ensures row.quote.strike > 0.0
      ensures row.yieldPct == CollateralYield(if AnyZeroMark(puts) then row.quote.lastPrice else row.mark, row.quote.strike)
    {
      var i :| 0 <= i < |rows| && rows[i] == row;
    }
  }

  /** The same fallback on the screen itself: the test runs over the surviving rows only. */
  lemma ScreenedPutsYield(chain: Chain, spot: real, sqrtFactor: real, priceCeiling: real, cdf: real -> real)
    requires spot > 0.0 && PositiveStrikes(chain.puts)
    requires ScreenedPuts(chain, spot, sqrtFactor, priceCeiling, cdf).Ok?
    ensures var rows := ScreenedPuts(chain, spot, sqrtFactor, priceCeiling, cdf).value;
      forall row :: row in rows ==>
        row.quote.strike > 0.0 &&
        row.yieldPct == CollateralYield(if SomeMarkZero(rows) then row.quote.lastPrice else row.mark, row.quote.strike)
  {
    ScreenedPutsUnfold(chain, spot, sqrtFactor, priceCeiling, cdf);
    var puts := KeepAtOrBelow(chain.puts, Ceiling(priceCeiling, spot));
    ScoreRowsYield(puts, spot, Percent(ExpectedMove(chain, spot, sqrtFactor).value), cdf);
  }

  /** Within one screen the probability column is ordered like the distance
      column, given non-negative quotes (hence a non-negative aggregate move). */
  lemma ScreenedPutsProbabilityOrdered(chain: Chain, spot: real, sqrtFactor: real, priceCeiling: real,
                                       cdf: real -> real, r1: PutRow, r2: PutRow)
    requires spot > 0.0 && sqrtFactor >= 0.0 && PositiveStrikes(chain.puts)
    requires forall q :: q in chain.calls + chain.puts ==>
      q.bid >= 0.0 && q.ask >= 0.0 && q.lastPrice >= 0.0 && q.impliedVolatility >= 0.0
    requires IsCdf(cdf)
    requires ScreenedPuts(chain, spot, sqrtFactor, priceCeiling, cdf).Ok?
    requires r1 in ScreenedPuts(chain, spot, sqrtFactor, priceCeiling, cdf).value
    requires r2 in ScreenedPuts(chain, spot, sqrtFactor, priceCeiling, cdf).value
    requires r1.distPct <= r2.distPct && r1.probPct.Some?
    ensures r2.probPct.Some? && r1.probPct.value <= r2.probPct.value
  {
    ScreenedPutsUnfold(chain, spot, sqrtFactor, priceCeiling, cdf);
    ExpectedMoveNonNegative(chain, spot, sqrtFactor);
    var m := ExpectedMove(chain, spot, sqrtFactor).value;
    var puts := KeepAtOrBelow(chain.puts, Ceiling(priceCeiling, spot));
    ScoreRowsProbabilityOrdered(puts, spot, Percent(m), cdf, r1, r2);
  }

  lemma ScoreRowsProbabilityOrdered(puts: seq<Quote>, spot: real, movesPct: Moves, cdf: real -> real,
                                    r1: PutRow, r2: PutRow)
    requires spot > 0.0 && PositiveStrikes(puts)
    requires movesPct.aggregateMove >= 0.0
    requires IsCdf(cdf)
    requires r1 in ScoreRows(puts, spot, movesPct, cdf) && r2 in ScoreRows(puts, spot, movesPct, cdf)
    requires r1.distPct <= r2.distPct && r1.probPct.Some?
    ensures r2.probPct.Some? && r1.probPct.value <= r2.probPct.value
  {
    var rows := ScoreRows(puts, spot, movesPct, cdf);
    var i :| 0 <= i < |rows| && rows[i] == r1;
    var j :| 0 <= j < |rows| && rows[j] == r2;
    ProbabilityMonotone(r1.distPct, r2.distPct, movesPct.aggregateMove, cdf);
  }

  /** With no strike above the ceiling, the screen is the unfiltered table. */
  lemma ScreenWithoutCutIsAllPuts(chain: Chain, spot: real, sqrtFactor: real, priceCeiling: real, cdf: real -> real)
    requires spot > 0.0 && PositiveStrikes(chain.puts)
    requires forall q :: q in chain.puts ==> q.strike <= Ceiling(priceCeiling, spot)
    ensures ScreenedPuts(chain, spot, sqrtFactor, priceCeiling, cdf) == AllPuts(chain, spot, sqrtFactor, cdf)
  {
    KeepAllAtOrBelow(chain.puts, Ceiling(priceCeiling, spot));
  }

  lemma {:induction false} KeepAllAtOrBelow(puts: seq<Quote>, ceiling: real)
    requires forall q :: q in puts ==> q.strike <= ceiling
    ensures KeepAtOrBelow(puts, ceiling) == puts
  {
    if puts != [] {
      KeepAllAtOrBelow(puts[1..], ceiling);
      assert puts == [puts[0]] + puts[1..];
    }
  }
}
