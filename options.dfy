/** The expected-move estimator over the nearest-expiry option chain
    (earningstrats/options.py, `get_earliest_deadline_options_chain` and
    `get_expected_move`). Market data arrive as values: the chain rows, the spot
    price, and the factor sqrt(days to expiration / 365). */
module Options {
  import opened Common

  /** One chain row as the provider returns it, before derived columns. */
  datatype Quote = Quote(
    contractSymbol: string,
    strike: real,
    bid: real,
    ask: real,
    lastPrice: real,
    impliedVolatility: real,
    volume: int,
    openInterest: int)

  /** The nearest-expiry chain: call rows and put rows. */
  datatype Chain = Chain(calls: seq<Quote>, puts: seq<Quote>)

  /** A chain row with its two derived columns. */
  datatype Contract = Contract(quote: Quote, isCall: bool, mark: real)

  /** The four fractions of spot returned by the estimator, in the source's tuple order. */
  datatype Moves = Moves(ivMove: real, straddleMove: real, straddleStrangleMove: real, aggregateMove: real)

  /** The at-the-money strike and the two strangle strikes. */
  datatype StrikeChoice = StrikeChoice(atm: real, higher: real, lower: real)

  // ---------------------------------------------------------------------------
  // Derived columns

  /** The mark is the bid/ask midpoint. */
  function Mark(q: Quote): (m: real)
    ensures m - q.bid == q.ask - m
    ensures q.bid <= q.ask ==> q.bid <= m <= q.ask
  {
    (q.bid + q.ask) / 2.0
  }

  /** A row is a call when a 'C' occurs in its contract symbol from the fifth
      character on (`"C" in symbol[4:]`; the slice is empty for short symbols). */
  function IsCallSymbol(sym: string): (r: bool)
    ensures r <==> exists i :: 4 <= i < |sym| && sym[i] == 'C'
  {
    |sym| > 4 && 'C' in sym[4..]
  }

  function ToContract(q: Quote): Contract
  {
    Contract(q, IsCallSymbol(q.contractSymbol), Mark(q))
  }

  /** The options table: call rows then put rows, each with isCall and mark. */
  function OptionsTable(chain: Chain): (r: seq<Contract>)
    ensures |r| == |chain.calls| + |chain.puts|
    ensures forall i :: 0 <= i < |r| ==> r[i].quote == (chain.calls + chain.puts)[i]
    ensures forall i :: 0 <= i < |r| ==> r[i].mark == Mark(r[i].quote)
    ensures forall i :: 0 <= i < |r| ==> r[i].isCall == IsCallSymbol(r[i].quote.contractSymbol)
  {
    var qs := chain.calls + chain.puts;
    seq(|qs|, i requires 0 <= i < |qs| => ToContract(qs[i]))
  }

  // ---------------------------------------------------------------------------
  // Strike ranking

  function Strikes(rows: seq<Contract>): (r: seq<real>)
    ensures |r| == |rows|
    ensures forall i :: 0 <= i < |rows| ==> r[i] == rows[i].quote.strike
  {
    seq(|rows|, i requires 0 <= i < |rows| => rows[i].quote.strike)
  }

  /** The distinct strikes of the table (`list(set(options.strike))`). */
  function DistinctStrikes(rows: seq<Contract>): seq<real>
  {
    Dedup(Strikes(rows))
  }

  /** |x - spot|, the ranking key. */
  function Dist(x: real, spot: real): real
  {
    if x < spot then spot - x else x - spot
  }

  ghost predicate AscendingDist(s: seq<real>, spot: real)
  {
    forall i, j :: 0 <= i < j < |s| ==> Dist(s[i], spot) <= Dist(s[j], spot)
  }

  /** Putting an element no farther than all of a ranked sequence in front keeps it ranked. */
  lemma PrependRanked(y: real, t: seq<real>, spot: real)
    requires AscendingDist(t, spot)
    requires forall j :: 0 <= j < |t| ==> Dist(y, spot) <= Dist(t[j], spot)
    ensures AscendingDist([y] + t, spot)
  {
    var r := [y] + t;
    forall i, j | 0 <= i < j < |r| ensures Dist(r[i], spot) <= Dist(r[j], spot) {
      assert r[j] == t[j - 1];
      if i > 0 {
        assert r[i] == t[i - 1];
      }
    }
  }

  function InsertByDist(x: real, s: seq<real>, spot: real): (r: seq<real>)
    requires AscendingDist(s, spot)
    ensures AscendingDist(r, spot)
    ensures multiset(r) == multiset(s) + multiset{x}
    ensures |r| == |s| + 1
  {
    if s == [] then [x]
    else if Dist(x, spot) <= Dist(s[0], spot) then
      PrependRanked(x, s, spot);
      [x] + s
    else
      assert s == [s[0]] + s[1..];
      var t := InsertByDist(x, s[1..], spot);
      assert forall j :: 0 <= j < |t| ==> Dist(s[0], spot) <= Dist(t[j], spot) by {
        forall j | 0 <= j < |t| ensures Dist(s[0], spot) <= Dist(t[j], spot) {
          assert t[j] in multiset(t);
          if t[j] != x {
            assert t[j] in multiset(s[1..]);
            var k :| 0 <= k < |s[1..]| && s[1..][k] == t[j];
            assert s[k + 1] == t[j];
          }
        }
      }
      PrependRanked(s[0], t, spot);
      [s[0]] + t
  }

  /** `sorted(strikes, key=lambda x: abs(x - curr))`: a stable insertion sort by
      distance to spot. */
  function RankByDistance(s: seq<real>, spot: real): (r: seq<real>)
    ensures AscendingDist(r, spot)
    ensures multiset(r) == multiset(s)
    ensures |r| == |s|
  {
    if s == [] then []
    else
      assert s == [s[0]] + s[1..];
      InsertByDist(s[0], RankByDistance(s[1..], spot), spot)
  }

  /** The ATM strike is the closest distinct strike; the strangle strikes are
      the second and third closest, ordered so that higher >= lower. Fewer than
      three distinct strikes is the source's "Error". */
  function SelectStrikes(rows: seq<Contract>, spot: real): (r: Option<StrikeChoice>)
    ensures r.None? <==> |DistinctStrikes(rows)| < 3
    ensures r.Some? ==> r.value.lower <= r.value.higher
    ensures r.Some? ==> r.value.atm in Strikes(rows)
  {
    var temp := RankByDistance(DistinctStrikes(rows), spot);
    if |temp| < 3 then None
    else
      assert temp[0] in multiset(temp);
      var higher := if temp[1] > temp[2] then temp[1] else temp[2];
      var lower := if temp[1] > temp[2] then temp[2] else temp[1];
      Some(StrikeChoice(temp[0], higher, lower))
  }

  /** What the ranking guarantees: the three chosen strikes are distinct strikes
      of the table; no strike is closer to spot than the ATM strike; and every
      other strike is at least as far as both strangle strikes. */
  lemma SelectStrikesClosest(rows: seq<Contract>, spot: real)
    requires SelectStrikes(rows, spot).Some?
    ensures var c := SelectStrikes(rows, spot).value;
      && c.atm in Strikes(rows) && c.higher in Strikes(rows) && c.lower in Strikes(rows)
      && c.atm != c.higher && c.atm != c.lower && c.lower < c.higher
      && Dist(c.atm, spot) <= Dist(c.lower, spot)
      && Dist(c.atm, spot) <= Dist(c.higher, spot)
      && (forall x :: x in Strikes(rows) ==> Dist(c.atm, spot) <= Dist(x, spot))
      && (forall x :: x in Strikes(rows) && x != c.atm && x != c.higher && x != c.lower ==>
            Dist(c.higher, spot) <= Dist(x, spot) && Dist(c.lower, spot) <= Dist(x, spot))
  {
    var d := DistinctStrikes(rows);
    var temp := RankByDistance(d, spot);
    var c := SelectStrikes(rows, spot).value;
    assert forall x :: x in temp <==> x in d by {
      forall x ensures x in temp <==> x in d {
        assert x in temp <==> x in multiset(temp);
        assert x in d <==> x in multiset(d);
      }
    }
    assert temp[0] in temp && temp[1] in temp && temp[2] in temp;
    PermutationDistinct(d, temp);
    forall x | x in Strikes(rows)
      ensures Dist(c.atm, spot) <= Dist(x, spot)
      ensures x != c.atm && x != c.higher && x != c.lower ==>
                Dist(c.higher, spot) <= Dist(x, spot) && Dist(c.lower, spot) <= Dist(x, spot)
    {
      assert x in temp;
      var k :| 0 <= k < |temp| && temp[k] == x;
      if k >= 3 {
        assert Dist(temp[1], spot) <= Dist(x, spot);
        assert Dist(temp[2], spot) <= Dist(x, spot);
      }
    }
  }

  /** A permutation of a duplicate-free sequence is duplicate-free. */
  lemma PermutationDistinct(d: seq<real>, t: seq<real>)
    requires forall i, j :: 0 <= i < j < |d| ==> d[i] != d[j]
    requires multiset(t) == multiset(d)
    ensures forall i, j :: 0 <= i < j < |t| ==> t[i] != t[j]
  {
    forall i, j | 0 <= i < j < |t| ensures t[i] != t[j] {
      if t[i] == t[j] {
        DuplicateCount(t, i, j);
        DistinctCount(d, t[i]);
      }
    }
  }

  /** Two equal elements at distinct positions make the multiplicity at least two. */
  lemma DuplicateCount(s: seq<real>, i: int, j: int)
    requires 0 <= i < j < |s| && s[i] == s[j]
    ensures multiset(s)[s[i]] >= 2
  {
    assert s == s[..i] + [s[i]] + s[i + 1..j] + [s[j]] + s[j + 1..];
  }

  /** In a duplicate-free sequence every element occurs once. */
  lemma {:induction false} DistinctCount(s: seq<real>, x: real)
    requires forall i, j :: 0 <= i < j < |s| ==> s[i] != s[j]
    ensures multiset(s)[x] <= 1
  {
    if s != [] {
      assert s == s[..|s| - 1] + [s[|s| - 1]];
      DistinctCount(s[..|s| - 1], x);
      if x == s[|s| - 1] {
        assert x !in s[..|s| - 1];
      }
    }
  }

  /** The strangle strikes need not straddle spot: with strikes 100, 101, 102
      and spot 100.2 the ATM strike is 100 and both strangle strikes lie above spot. */
  lemma StranglePairMaySitOnOneSide(q: Quote)
    ensures var rows := [Contract(q.(strike := 100.0), true, 1.0),
                         Contract(q.(strike := 101.0), true, 1.0),
                         Contract(q.(strike := 102.0), true, 1.0)];
      SelectStrikes(rows, 100.2) == Some(StrikeChoice(100.0, 102.0, 101.0))
  {
    var rows := [Contract(q.(strike := 100.0), true, 1.0),
                 Contract(q.(strike := 101.0), true, 1.0),
                 Contract(q.(strike := 102.0), true, 1.0)];
    var st := [100.0, 101.0, 102.0];
    assert Strikes(rows) == st;
    ThreeStrikesRanked();
  }

  lemma ThreeStrikesRanked()
    ensures RankByDistance(Dedup([100.0, 101.0, 102.0]), 100.2) == [100.0, 101.0, 102.0]
  {
    ThreeStrikesDistinct();
    ThreeStrikesInOrder();
  }

  lemma ThreeStrikesDistinct()
    ensures Dedup([100.0, 101.0, 102.0]) == [100.0, 101.0, 102.0]
  {
    var st := [100.0, 101.0, 102.0];
    assert Dedup(st[..1]) == [100.0];
    assert st[..2][..1] == st[..1];
    assert Dedup(st[..2]) == [100.0, 101.0];
    assert st[..2] == st[..|st| - 1];
  }

  lemma ThreeStrikesInOrder()
    ensures RankByDistance([100.0, 101.0, 102.0], 100.2) == [100.0, 101.0, 102.0]
  {
    assert RankByDistance([102.0], 100.2) == [102.0];
    assert [101.0, 102.0][1..] == [102.0];
    assert InsertByDist(101.0, [102.0], 100.2) == [101.0, 102.0];
    assert RankByDistance([101.0, 102.0], 100.2) == [101.0, 102.0];
    assert [100.0, 101.0, 102.0][1..] == [101.0, 102.0];
    assert InsertByDist(100.0, [101.0, 102.0], 100.2) == [100.0, 101.0, 102.0];
  }

  // ---------------------------------------------------------------------------
  // Straddle and strangle prices

  /** The rows at one strike, calls and puts, in table order. */
  function RowsAt(rows: seq<Contract>, strike: real): (r: seq<Contract>)
    ensures forall c :: c in r <==> c in rows && c.quote.strike == strike
    ensures strike in Strikes(rows) ==> |r| > 0
  {
    if rows == [] then []
    else
      assert Strikes(rows) == [rows[0].quote.strike] + Strikes(rows[1..]);
      (if rows[0].quote.strike == strike then [rows[0]] else []) + RowsAt(rows[1..], strike)
  }

  /** RowsAt is a filter: the rows at the strike of `a + b` are those of `a`
      followed by those of `b`, in order. */
  lemma {:induction false} RowsAtKeepsOrder(a: seq<Contract>, b: seq<Contract>, strike: real)
    ensures RowsAt(a + b, strike) == RowsAt(a, strike) + RowsAt(b, strike)
  {
    if a == [] {
      assert a + b == b;
    } else {
      assert (a + b)[1..] == a[1..] + b;
      RowsAtKeepsOrder(a[1..], b, strike);
      assert (a + b)[0] == a[0];
    }
  }

  /** A single row is kept exactly when it is at the strike. */
  lemma RowsAtOneRow(c: Contract, strike: real)
    ensures RowsAt([c], strike) == if c.quote.strike == strike then [c] else []
  {
    assert [c][1..] == [];
  }

  /** RowsAt keeps every row at the strike as often as the table holds it, and
      no other row. */
  lemma {:induction false} RowsAtCounts(rows: seq<Contract>, strike: real)
    ensures forall c :: multiset(RowsAt(rows, strike))[c] == if c.quote.strike == strike then multiset(rows)[c] else 0
  {
    if rows != [] {
      RowsAtCounts(rows[1..], strike);
      assert rows == [rows[0]] + rows[1..];
    }
  }

  /** Two legs are summed, one leg is doubled, any other count gives 0
      (`len(...) == 2` / `len(...) == 1`). */
  function LegSum(prices: seq<real>): real
  {
    if |prices| == 2 then prices[0] + prices[1]
    else if |prices| == 1 then prices[0] * 2.0
    else 0.0
  }

  function Marks(rows: seq<Contract>): (r: seq<real>)
    ensures |r| == |rows| && forall i :: 0 <= i < |rows| ==> r[i] == rows[i].mark
  {
    seq(|rows|, i requires 0 <= i < |rows| => rows[i].mark)
  }

  function LastPrices(rows: seq<Contract>): (r: seq<real>)
    ensures |r| == |rows| && forall i :: 0 <= i < |rows| ==> r[i] == rows[i].quote.lastPrice
  {
    seq(|rows|, i requires 0 <= i < |rows| => rows[i].quote.lastPrice)
  }

  /** ATM straddle price by mark, falling back to lastPrice when that is zero. */
  function StraddleSum(atm: seq<Contract>): real
  {
    var byMark := LegSum(Marks(atm));
    if byMark == 0.0 then LegSum(LastPrices(atm)) else byMark
  }

  /** The first row at `strike` of the given kind (`.loc[isCall == ...]` then `.iloc[0]`). */
  function FirstLeg(rows: seq<Contract>, strike: real, isCall: bool): (r: Option<Contract>)
    ensures r.Some? ==> r.value in rows && r.value.quote.strike == strike && r.value.isCall == isCall
    ensures r.None? ==> forall c :: c in rows ==> !(c.quote.strike == strike && c.isCall == isCall)
  {
    if rows == [] then None
    else if rows[0].quote.strike == strike && rows[0].isCall == isCall then Some(rows[0])
    else FirstLeg(rows[1..], strike, isCall)
  }

  /** FirstLeg returns the first matching row, as `.iloc[0]` does: the row at
      some index i, with no matching row before i. */
  lemma {:induction false} FirstLegIsFirst(rows: seq<Contract>, strike: real, isCall: bool)
    requires FirstLeg(rows, strike, isCall).Some?
    ensures exists i :: 0 <= i < |rows| && rows[i] == FirstLeg(rows, strike, isCall).value &&
                        forall j :: 0 <= j < i ==> !(rows[j].quote.strike == strike && rows[j].isCall == isCall)
  {
    if !(rows[0].quote.strike == strike && rows[0].isCall == isCall) {
      FirstLegIsFirst(rows[1..], strike, isCall);
      var i :| 0 <= i < |rows[1..]| && rows[1..][i] == FirstLeg(rows, strike, isCall).value &&
               forall j :: 0 <= j < i ==> !(rows[1..][j].quote.strike == strike && rows[1..][j].isCall == isCall);
      assert rows[i + 1] == rows[1..][i];
      assert forall j :: 1 <= j < i + 1 ==> rows[j] == rows[1..][j - 1];
    } else {
      assert rows[0] == FirstLeg(rows, strike, isCall).value;
    }
  }

  /** Strangle price: the call at the higher strike plus the put at the lower
      strike, 0 when a leg is missing, falling back to lastPrice when zero. */
  function StrangleSum(rows: seq<Contract>, c: StrikeChoice): real
  {
    var call := FirstLeg(rows, c.higher, true);
    var put := FirstLeg(rows, c.lower, false);
    var byMark := if call.Some? && put.Some? then call.value.mark + put.value.mark else 0.0;
    if byMark != 0.0 then byMark
    else if call.Some? && put.Some? then call.value.quote.lastPrice + put.value.quote.lastPrice
    else 0.0
  }

  function ImpliedVols(rows: seq<Contract>): (r: seq<real>)
    ensures |r| == |rows| && forall i :: 0 <= i < |rows| ==> r[i] == rows[i].quote.impliedVolatility
  {
    seq(|rows|, i requires 0 <= i < |rows| => rows[i].quote.impliedVolatility)
  }

  /** `per.mean()`: each ATM row's IV move (spot x IV x sqrtFactor) as a fraction
      of spot, averaged over all ATM rows. Spot cancels exactly and the factor is
      common to every row, so this is the mean IV of the ATM rows times the factor. */
  function IvFraction(atm: seq<Contract>, sqrtFactor: real): (r: real)
    requires |atm| > 0
    ensures sqrtFactor >= 0.0 && (forall c :: c in atm ==> c.quote.impliedVolatility >= 0.0) ==> r >= 0.0
  {
    var ivs := ImpliedVols(atm);
    assert (forall c :: c in atm ==> c.quote.impliedVolatility >= 0.0) ==>
           (forall i :: 0 <= i < |ivs| ==> 0.0 <= ivs[i]) by {
      assert forall i :: 0 <= i < |ivs| ==> atm[i] in atm;
    }
    MeanLowerBound(ivs, 0.0);
    Mean(ivs).value * sqrtFactor
  }

  /** The IV move is the mean IV of the ATM rows times the time factor: times
      the number of rows it gives their IVs' sum times the factor. */
  lemma IvMoveAveragesAtmRows(atm: seq<Contract>, sqrtFactor: real)
    requires |atm| > 0
    ensures IvFraction(atm, sqrtFactor) * (|atm| as real) == Sum(ImpliedVols(atm)) * sqrtFactor
  {
    var n := |atm| as real;
    var total := Sum(ImpliedVols(atm));
    assert Mean(ImpliedVols(atm)).value == total / n;
    assert total / n * n == total;
  }

  /** The aggregate move: straddle only when the IV move is at most 1%, the
      average of the two otherwise. */
  function AggregateMove(ivMove: real, straddleMove: real): real
  {
    if ivMove <= 0.01 then straddleMove else (ivMove + straddleMove) / 2.0
  }

  /** The four fractions from the rows at the ATM strike and the strangle price. */
  function MovesFrom(atm: seq<Contract>, strangle: real, spot: real, sqrtFactor: real): (m: Moves)
    requires spot > 0.0 && |atm| > 0
    ensures m.ivMove <= 0.01 ==> m.aggregateMove == m.straddleMove
    ensures m.ivMove > 0.01 ==> m.aggregateMove == (m.ivMove + m.straddleMove) / 2.0
  {
    var straddle := StraddleSum(atm);
    var total := 0.7 * straddle + 0.3 * strangle;
    var iv := IvFraction(atm, sqrtFactor);
    Moves(iv, straddle / spot, total / spot, AggregateMove(iv, straddle / spot))
  }

  /** The four fractions once the strikes are chosen: those of the rows at the
      ATM strike and of the strangle at the other two strikes. */
  function MovesAt(rows: seq<Contract>, c: StrikeChoice, spot: real, sqrtFactor: real): (m: Moves)
    requires spot > 0.0
    requires c.atm in Strikes(rows)
    ensures m.ivMove <= 0.01 ==> m.aggregateMove == m.straddleMove
    ensures m.ivMove > 0.01 ==> m.aggregateMove == (m.ivMove + m.straddleMove) / 2.0
  {
    MovesFrom(RowsAt(rows, c.atm), StrangleSum(rows, c), spot, sqrtFactor)
  }

  /** `get_expected_move` on a chain, spot price and sqrt(days / 365). */
  function ExpectedMove(chain: Chain, spot: real, sqrtFactor: real): (r: Result<Moves>)
    requires spot > 0.0
    ensures r.Err? <==> |DistinctStrikes(OptionsTable(chain))| < 3
    ensures r.Err? ==> r.error == InsufficientStrikes
    ensures r.Ok? && r.value.ivMove <= 0.01 ==> r.value.aggregateMove == r.value.straddleMove
    ensures r.Ok? && r.value.ivMove > 0.01 ==>
              r.value.aggregateMove == (r.value.ivMove + r.value.straddleMove) / 2.0
  {
    var rows := OptionsTable(chain);
    match SelectStrikes(rows, spot)
    case None => Err(InsufficientStrikes)
    case Some(c) => Ok(MovesAt(rows, c, spot, sqrtFactor))
  }

  // ---------------------------------------------------------------------------
  // Properties of the estimator

  /** The straddle by the number of rows at the ATM strike: two rows are
      summed, one row is doubled, any other count gives 0; by mark, unless that
      gives 0, by lastPrice then. */
  lemma StraddleByLegCount(atm: seq<Contract>)
    ensures |atm| == 2 ==>
              StraddleSum(atm) == if atm[0].mark + atm[1].mark != 0.0 then atm[0].mark + atm[1].mark
                                  else atm[0].quote.lastPrice + atm[1].quote.lastPrice
    ensures |atm| == 1 ==>
              StraddleSum(atm) == if atm[0].mark != 0.0 then 2.0 * atm[0].mark else 2.0 * atm[0].quote.lastPrice
    ensures |atm| != 1 && |atm| != 2 ==> StraddleSum(atm) == 0.0
  {
  }

  /** The strangle is 0 when the table has no call at the higher strike or no
      put at the lower strike; otherwise it is built from the first such rows,
      by mark unless the marks sum to 0, by lastPrice then. */
  lemma StrangleLegs(rows: seq<Contract>, c: StrikeChoice)
    ensures (forall r :: r in rows ==> !(r.quote.strike == c.higher && r.isCall)) ==> StrangleSum(rows, c) == 0.0
    ensures (forall r :: r in rows ==> !(r.quote.strike == c.lower && !r.isCall)) ==> StrangleSum(rows, c) == 0.0
    ensures forall call, put ::
      call in rows && call.quote.strike == c.higher && call.isCall &&
      put in rows && put.quote.strike == c.lower && !put.isCall ==>
        var first, firstPut := FirstLeg(rows, c.higher, true).value, FirstLeg(rows, c.lower, false).value;
        StrangleSum(rows, c) ==
          if first.mark + firstPut.mark != 0.0 then first.mark + firstPut.mark
          else first.quote.lastPrice + firstPut.quote.lastPrice
  {
  }

  /** An ATM strike quoted by exactly two rows (its call and its put): the IV
      move is the mean of their two IVs times the time factor. */
  lemma TwoRowsAtTheMoneyIvMove(call: Contract, put: Contract, strangle: real, spot: real, sqrtFactor: real)
    requires spot > 0.0
    ensures MovesFrom([call, put], strangle, spot, sqrtFactor).ivMove ==
              (call.quote.impliedVolatility + put.quote.impliedVolatility) / 2.0 * sqrtFactor
  {
    TwoRowsIvMove([call, put], sqrtFactor);
  }

  /** With two ATM rows whose marks do not sum to 0, the straddle move is the
      sum of their marks over spot, and the blended move weighs that sum 0.7
      against 0.3 of the strangle, over spot. */
  lemma TwoRowsAtTheMoneyByMark(call: Contract, put: Contract, strangle: real, spot: real, sqrtFactor: real)
    requires spot > 0.0
    requires call.mark + put.mark != 0.0
    ensures var m, s := MovesFrom([call, put], strangle, spot, sqrtFactor), call.mark + put.mark;
      m.straddleMove == s / spot && m.straddleStrangleMove == (0.7 * s + 0.3 * strangle) / spot
  {
    StraddleByLegCount([call, put]);
  }

  /** With two ATM rows whose marks sum to 0, the straddle move is the sum of
      their last prices over spot, and the blended move weighs that sum 0.7
      against 0.3 of the strangle, over spot. */
  lemma TwoRowsAtTheMoneyByLastPrice(call: Contract, put: Contract, strangle: real, spot: real, sqrtFactor: real)
    requires spot > 0.0
    requires call.mark + put.mark == 0.0
    ensures var m, s := MovesFrom([call, put], strangle, spot, sqrtFactor), call.quote.lastPrice + put.quote.lastPrice;
      m.straddleMove == s / spot && m.straddleStrangleMove == (0.7 * s + 0.3 * strangle) / spot
  {
    StraddleByLegCount([call, put]);
  }

  /** An ATM strike quoted by a single row: the straddle is that row's price
      doubled (its mark, or its last price when the mark is 0), the straddle
      move is that over spot, the blended move weighs it 0.7 against 0.3 of the
      strangle, over spot, and the IV move is the row's IV times the factor. */
  lemma OneRowAtTheMoney(row: Contract, strangle: real, spot: real, sqrtFactor: real)
    requires spot > 0.0
    ensures var m := MovesFrom([row], strangle, spot, sqrtFactor);
      var s := if row.mark != 0.0 then 2.0 * row.mark else 2.0 * row.quote.lastPrice;
      && m.straddleMove == s / spot
      && m.straddleStrangleMove == (0.7 * s + 0.3 * strangle) / spot
      && m.ivMove == row.quote.impliedVolatility * sqrtFactor
  {
    StraddleByLegCount([row]);
    var a := row.quote.impliedVolatility;
    assert ImpliedVols([row]) == [a];
    assert Sum([a]) == Sum([]) + a by {
      assert [a][..0] == [];
    }
  }

  lemma TwoRowsIvMove(atm: seq<Contract>, sqrtFactor: real)
    requires |atm| == 2
    ensures IvFraction(atm, sqrtFactor) == (atm[0].quote.impliedVolatility + atm[1].quote.impliedVolatility) / 2.0 * sqrtFactor
  {
    var a, b := atm[0].quote.impliedVolatility, atm[1].quote.impliedVolatility;
    var ivs := ImpliedVols(atm);
    assert ivs == [a, b];
    assert Sum(ivs) == a + b by {
      assert ivs[..1] == [a];
      assert [a][..0] == [];
      assert Sum([a]) == Sum([]) + a;
      assert Sum(ivs) == Sum(ivs[..1]) + b;
    }
    assert Mean(ivs) == Some((a + b) / 2.0);
  }

  ghost predicate NonNegativeRows(rows: seq<Contract>)
  {
    forall c :: c in rows ==> c.mark >= 0.0 && c.quote.lastPrice >= 0.0 && c.quote.impliedVolatility >= 0.0
  }

  /** With non-negative prices and IVs in the table, all four fractions are >= 0. */
  lemma MovesAtNonNegative(rows: seq<Contract>, c: StrikeChoice, spot: real, sqrtFactor: real)
    requires spot > 0.0 && sqrtFactor >= 0.0
    requires c.atm in Strikes(rows)
    requires NonNegativeRows(rows)
    ensures var m := MovesAt(rows, c, spot, sqrtFactor);
      m.ivMove >= 0.0 && m.straddleMove >= 0.0 && m.straddleStrangleMove >= 0.0 && m.aggregateMove >= 0.0
  {
    var atm := RowsAt(rows, c.atm);
    var straddle := StraddleSum(atm);
    assert straddle >= 0.0 by {
      assert forall i :: 0 <= i < |atm| ==> atm[i] in rows;
    }
    var strangle := StrangleSum(rows, c);
    assert strangle >= 0.0;
    assert straddle / spot >= 0.0;
    assert (0.7 * straddle + 0.3 * strangle) / spot >= 0.0;
  }

  /** Non-negative quotes give non-negative moves: all four fractions are >= 0. */
  lemma ExpectedMoveNonNegative(chain: Chain, spot: real, sqrtFactor: real)
    requires spot > 0.0 && sqrtFactor >= 0.0
    requires forall q :: q in chain.calls + chain.puts ==>
      q.bid >= 0.0 && q.ask >= 0.0 && q.lastPrice >= 0.0 && q.impliedVolatility >= 0.0
    requires ExpectedMove(chain, spot, sqrtFactor).Ok?
    ensures var m := ExpectedMove(chain, spot, sqrtFactor).value;
      m.ivMove >= 0.0 && m.straddleMove >= 0.0 && m.straddleStrangleMove >= 0.0 && m.aggregateMove >= 0.0
  {
    var rows := OptionsTable(chain);
    forall r | r in rows ensures r.mark >= 0.0 && r.quote.lastPrice >= 0.0 && r.quote.impliedVolatility >= 0.0 {
      var i :| 0 <= i < |rows| && rows[i] == r;
      assert r.quote in chain.calls + chain.puts;
    }
    var c := SelectStrikes(rows, spot).value;
    MovesAtNonNegative(rows, c, spot, sqrtFactor);
  }

  /** The IV-move guard: an IV move of at most 1% leaves the straddle move as the
      aggregate; above it the aggregate lies between the two. */
  lemma AggregateFollowsGuard(chain: Chain, spot: real, sqrtFactor: real)
    requires spot > 0.0
    requires ExpectedMove(chain, spot, sqrtFactor).Ok?
    ensures var m := ExpectedMove(chain, spot, sqrtFactor).value;
      && (m.ivMove <= 0.01 ==> m.aggregateMove == m.straddleMove)
      && (m.ivMove > 0.01 ==>
            (m.ivMove <= m.aggregateMove <= m.straddleMove) || (m.straddleMove <= m.aggregateMove <= m.ivMove))
  {
  }
}
