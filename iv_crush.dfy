/** The IV-crush arithmetic of `get_IV_crush_for_puts`
    (earningstrats/earnings.py): the relative change of implied volatility
    from the stored put table of the day before earnings to the put chain
    fetched the day after, and its mean. Rows are paired by position. */
module IvCrush {
  import opened Common

  /** A row of the stored put table; `probPct` is the "%probability_not_called"
      column, `None` where it was NaN. */
  datatype StoredPut = StoredPut(strike: real, impliedVolatility: real, probPct: Option<real>)

  /** A row of the freshly fetched put chain. */
  datatype FreshPut = FreshPut(strike: real, impliedVolatility: real)

  /** A stored row with its two new columns. */
  datatype CrushRow = CrushRow(put: StoredPut, ivCrush: Option<real>, nextDayIV: Option<real>)

  /** The rewritten table: the rows, then an "Average" row holding only the
      mean crush. */
  datatype CrushTable = CrushTable(rows: seq<CrushRow>, average: Option<real>)


  /** Relative change from `prior` to `next`: adding it, scaled by `prior`, to
      `prior` gives `next`; it is negative exactly when volatility fell and
      never below -1 for a non-negative `next`. */
  function Crush(prior: real, next: real): (c: real)
    requires prior > 0.0
    ensures prior + c * prior == next
    ensures c < 0.0 <==> next < prior
    ensures next >= 0.0 ==> c >= -1.0
  {
    (next - prior) / prior
  }

  /** Row `i` is compared when the fresh chain has a row at that position and
      the stored row's probability is not exactly 100. */
  predicate Compared(stored: seq<StoredPut>, next: seq<FreshPut>, i: nat)
    requires i < |stored|
  {
    i < |next| && stored[i].probPct != Some(100.0)
  }

  /** The stored IV of every compared row is positive: those are the rows the
      crush divides by. */
  ghost predicate ComparedIVsPositive(stored: seq<StoredPut>, next: seq<FreshPut>)
  {
    forall i :: 0 <= i < |stored| && Compared(stored, next, i) ==> stored[i].impliedVolatility > 0.0
  }

  function CrushColumn(stored: seq<StoredPut>, next: seq<FreshPut>): (r: seq<Option<real>>)
    requires ComparedIVsPositive(stored, next)
    ensures |r| == |stored|
    ensures forall i :: 0 <= i < |stored| ==> (r[i].Some? <==> Compared(stored, next, i))
  {
    seq(|stored|, i requires 0 <= i < |stored| =>
      if Compared(stored, next, i) then Some(Crush(stored[i].impliedVolatility, next[i].impliedVolatility)) else None)
  }

  /** The values that are present, in order (what `Series.mean()` averages). */
  function Present(xs: seq<Option<real>>): (r: seq<real>)
    ensures forall x :: x in r <==> Some(x) in xs
    ensures |r| <= |xs|
  {
    if xs == [] then []
    else
      var rest := Present(xs[..|xs| - 1]);
      assert xs == xs[..|xs| - 1] + [xs[|xs| - 1]];
      match xs[|xs| - 1]
      case None => rest
      case Some(x) => rest + [x]
  }

  /** Present keeps every present value as often as it occurs, so that
      repeated crush values weigh in the mean as often as they occur. */
  lemma {:induction false} PresentCounts(xs: seq<Option<real>>)
    ensures forall x :: multiset(Present(xs))[x] == multiset(xs)[Some(x)]
  {
    if xs != [] {
      var init := xs[..|xs| - 1];
      PresentCounts(init);
      assert xs == init + [xs[|xs| - 1]];
    }
  }

  /** The table written back for one ticker: every stored row unchanged, with
      the fresh IV at its index wherever the fresh chain reaches, crushed or
      not. */
  function IvCrushTable(stored: seq<StoredPut>, next: seq<FreshPut>): (t: CrushTable)
    requires ComparedIVsPositive(stored, next)
    ensures |t.rows| == |stored|
    ensures forall i :: 0 <= i < |stored| ==> t.rows[i].put == stored[i]
    ensures forall i :: 0 <= i < |stored| ==> (t.rows[i].nextDayIV.Some? <==> i < |next|)
    ensures forall i :: 0 <= i < |stored| && i < |next| ==> t.rows[i].nextDayIV == Some(next[i].impliedVolatility)
  {
    var column := CrushColumn(stored, next);
    CrushTable(
      seq(|stored|, i requires 0 <= i < |stored| =>
        CrushRow(stored[i], column[i], if i < |next| then Some(next[i].impliedVolatility) else None)),
      Mean(Present(column)))
  }

  /** Rows pair by position: a compared row's crush uses the fresh row at the
      same index, whatever its strike. */
  lemma PairedByPosition(stored: seq<StoredPut>, next: seq<FreshPut>, i: nat)
    requires ComparedIVsPositive(stored, next) && i < |stored|
    ensures var row := IvCrushTable(stored, next).rows[i];
      && (Compared(stored, next, i) ==>
            row.ivCrush == Some(Crush(stored[i].impliedVolatility, next[i].impliedVolatility)) &&
            row.nextDayIV == Some(next[i].impliedVolatility))
      && (!Compared(stored, next, i) ==> row.ivCrush == None)
  {
  }

  /** A row that was certain not to be called gets no crush value. */
  lemma CertainRowsExcluded(stored: seq<StoredPut>, next: seq<FreshPut>, i: nat)
    requires ComparedIVsPositive(stored, next) && i < |stored|
    requires stored[i].probPct == Some(100.0)
    ensures IvCrushTable(stored, next).rows[i].ivCrush == None
  {
  }

  /** A fall from 0.50 to 0.30 is a crush of -0.4. */
  lemma CrushExample()
    ensures Crush(0.5, 0.3) == -0.4
  {
  }

  /** The strikes are not compared: a fresh row with a different strike is
      still paired with the stored row at its index. */
  lemma StrikesNotCompared()
    ensures IvCrushTable([StoredPut(50.0, 0.5, Some(90.0))], [FreshPut(45.0, 0.3)]).rows[0].ivCrush == Some(-0.4)
  {
    var t := IvCrushTable([StoredPut(50.0, 0.5, Some(90.0))], [FreshPut(45.0, 0.3)]);
    assert t.rows[0].ivCrush == Some(Crush(0.5, 0.3));
  }

  /** The average is absent exactly when no row was compared. */
  lemma AverageAbsentWhenNothingCompared(stored: seq<StoredPut>, next: seq<FreshPut>)
    requires ComparedIVsPositive(stored, next)
    ensures IvCrushTable(stored, next).average.None? <==> forall i :: 0 <= i < |stored| ==> !Compared(stored, next, i)
  {
    var column := CrushColumn(stored, next);
    var present := Present(column);
    assert IvCrushTable(stored, next).average == Mean(present);
    if |present| > 0 {
      assert Some(present[0]) in column;
    }
    if exists i :: 0 <= i < |stored| && Compared(stored, next, i) {
      var i :| 0 <= i < |stored| && Compared(stored, next, i);
      assert column[i] in column;
      assert column[i].value in present;
    }
  }

  /** The average is the mean of the present crush values only, and so never
      below -1 when every fresh IV is non-negative. */
  lemma AverageAtLeastMinusOne(stored: seq<StoredPut>, next: seq<FreshPut>)
    requires ComparedIVsPositive(stored, next)
    requires forall j :: 0 <= j < |next| ==> next[j].impliedVolatility >= 0.0
    ensures var t := IvCrushTable(stored, next);
      t.average.Some? ==> t.average.value >= -1.0
  {
    var column := CrushColumn(stored, next);
    var present := Present(column);
    assert IvCrushTable(stored, next).average == Mean(present);
    if |present| > 0 {
      forall k | 0 <= k < |present|
        ensures -1.0 <= present[k]
      {
        assert present[k] in present;
        var i :| 0 <= i < |column| && column[i] == Some(present[k]);
      }
      MeanLowerBound(present, -1.0);
    }
  }

  /** How many of the first `k` rows are compared. */
  function ComparedCount(stored: seq<StoredPut>, next: seq<FreshPut>, k: nat): nat
    requires k <= |stored|
  {
    if k == 0 then 0
    else ComparedCount(stored, next, k - 1) + if Compared(stored, next, k - 1) then 1 else 0
  }

  /** The sum of the crushes of the compared rows among the first `k`. */
  function CrushSum(stored: seq<StoredPut>, next: seq<FreshPut>, k: nat): real
    requires k <= |stored| && ComparedIVsPositive(stored, next)
  {
    if k == 0 then 0.0
    else
      var x := if Compared(stored, next, k - 1)
               then Crush(stored[k - 1].impliedVolatility, next[k - 1].impliedVolatility) else 0.0;
      CrushSum(stored, next, k - 1) + x
  }

  /** One more entry adds its value, if present, at the end. */
  lemma PresentSnoc(xs: seq<Option<real>>, o: Option<real>)
    ensures Present(xs + [o]) == if o.Some? then Present(xs) + [o.value] else Present(xs)
  {
    assert (xs + [o])[..|xs|] == xs;
  }

  /** The present values of a prefix one entry longer. */
  lemma PresentOfPrefix(xs: seq<Option<real>>, k: nat)
    requires 0 < k <= |xs|
    ensures Present(xs[..k]) == if xs[k - 1].Some? then Present(xs[..k - 1]) + [xs[k - 1].value] else Present(xs[..k - 1])
  {
    assert xs[..k] == xs[..k - 1] + [xs[k - 1]];
    PresentSnoc(xs[..k - 1], xs[k - 1]);
  }

  /** The present values of the first `k` entries of the crush column are the
      crushes of the compared rows among the first `k`: as many, with the same sum. */
  lemma {:induction false} PresentPrefix(stored: seq<StoredPut>, next: seq<FreshPut>, column: seq<Option<real>>, k: nat)
    requires ComparedIVsPositive(stored, next) && k <= |stored| == |column|
    requires forall i :: 0 <= i < |stored| ==>
      column[i] == if Compared(stored, next, i) then Some(Crush(stored[i].impliedVolatility, next[i].impliedVolatility)) else None
    ensures |Present(column[..k])| == ComparedCount(stored, next, k)
    ensures Sum(Present(column[..k])) == CrushSum(stored, next, k)
  {
    if k > 0 {
      PresentPrefix(stored, next, column, k - 1);
      var p := Present(column[..k - 1]);
      PresentOfPrefix(column, k);
      if Compared(stored, next, k - 1) {
        var x := column[k - 1].value;
        assert (p + [x])[..|p|] == p;
        assert Sum(p + [x]) == Sum(p) + x;
      }
    }
  }

  /** The "Average" row is the mean crush of the compared rows: present exactly
      when some row is compared, and then the sum of their crushes divided by
      their number. */
  lemma AverageIsMeanCrush(stored: seq<StoredPut>, next: seq<FreshPut>)
    requires ComparedIVsPositive(stored, next)
    ensures var t, n := IvCrushTable(stored, next), ComparedCount(stored, next, |stored|);
      && (t.average.Some? <==> n > 0)
      && (t.average.Some? ==> t.average.value == CrushSum(stored, next, |stored|) / (n as real))
  {
    var column := CrushColumn(stored, next);
    var present := Present(column);
    var n := ComparedCount(stored, next, |stored|);
    PresentPrefix(stored, next, column, |stored|);
    assert column[..|stored|] == column;
    assert |present| == n && Sum(present) == CrushSum(stored, next, |stored|);
    var t := IvCrushTable(stored, next);
    assert t.average == Mean(present);
  }
}
