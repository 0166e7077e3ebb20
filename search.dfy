/** The salary search: the stored records matching a job title are summed per currency and
    averaged, unless fewer than three were found. */
module Search {

  /** The two fields of a stored submission that the search reads. */
  datatype SalaryRecord = SalaryRecord(currency: string, salary: int)

  /** The result of a search: too few records, or the two rounded averages, with the number of
      records found either way. */
  datatype Outcome = NotEnoughData(found: nat) | Averages(avgUSD: int, avgIQD: int, found: nat)

  /** The sum of the salaries of the records in currency `cur`, added in the order the records come. */
  function Total(rs: seq<SalaryRecord>, cur: string): int {
    if rs == [] then 0
    else Total(rs[..|rs| - 1], cur) + (if rs[|rs| - 1].currency == cur then rs[|rs| - 1].salary else 0)
  }

  /** The number of records in currency `cur`. */
  function Count(rs: seq<SalaryRecord>, cur: string): (n: nat)
    ensures n <= |rs|
  {
    if rs == [] then 0
    else Count(rs[..|rs| - 1], cur) + (if rs[|rs| - 1].currency == cur then 1 else 0)
  }

  /** The average `total / count` rounded to the nearest integer, halves upwards as `Math.round`
      rounds them, and 0 when there is nothing to average. */
  function RoundedMean(total: int, count: nat): (r: int)
    ensures count == 0 ==> r == 0
    ensures count > 0 ==> r * (2 * count) - count <= 2 * total < r * (2 * count) + count
  {
    if count == 0 then 0
    else
      var q := (2 * total + count) / (2 * count);
      DivBounds(2 * total + count, 2 * count, q);
      q
  }

  lemma DivBounds(a: int, d: int, q: int)
    requires d > 0 && q == a / d
    ensures q * d <= a < q * d + d
  {
  }

  /** A multiple `d * m` of a positive `m` below `m` itself has `d <= 0`. */
  lemma BelowOneMultiple(d: int, m: int)
    requires m > 0 && d * m < m
    ensures d <= 0
  {
  }

  lemma SubMul(a: int, b: int, m: int)
    ensures a * m - b * m == (a - b) * m
  {
  }

  lemma DoubleMul(x: int, c: int)
    ensures 2 * (x * c) == x * (2 * c)
  {
  }

  /** The search over the records the query returned. */
  method Search(records: seq<SalaryRecord>) returns (outcome: Outcome)
    ensures |records| < 3 ==> outcome == NotEnoughData(|records|)
    ensures |records| >= 3 ==>
              outcome == Averages(RoundedMean(Total(records, "USD"), Count(records, "USD")),
                                  RoundedMean(Total(records, "IQD"), Count(records, "IQD")),
                                  |records|)
  {
    if |records| < 3 {
      return NotEnoughData(|records|);
    }
    var totalUSD, totalIQD := 0, 0;
    var usdCount, iqdCount := 0, 0;
    var i := 0;
    while i < |records|
      invariant 0 <= i <= |records|
      invariant totalUSD == Total(records[..i], "USD") && usdCount == Count(records[..i], "USD")
      invariant totalIQD == Total(records[..i], "IQD") && iqdCount == Count(records[..i], "IQD")
    {
      var data := records[i];
      assert records[..i + 1][..i] == records[..i];
      if data.currency == "USD" {
        totalUSD := totalUSD + data.salary;
        usdCount := usdCount + 1;
      } else if data.currency == "IQD" {
        totalIQD := totalIQD + data.salary;
        iqdCount := iqdCount + 1;
      }
      i := i + 1;
    }
    assert records[..i] == records;
    var avgUSD := if usdCount > 0 then RoundedMean(totalUSD, usdCount) else 0;
    var avgIQD := if iqdCount > 0 then RoundedMean(totalIQD, iqdCount) else 0;
    outcome := Averages(avgUSD, avgIQD, |records|);
  }

  /** Which averages the result panel shows. */
  datatype Shown = BothCurrencies | UsdOnly | IqdOnly | NoSalaryData

  function ShownAverages(avgUSD: int, avgIQD: int): (r: Shown)
    ensures r == BothCurrencies <==> avgUSD > 0 && avgIQD > 0
    ensures r == UsdOnly <==> avgUSD > 0 && avgIQD <= 0
    ensures r == IqdOnly <==> avgUSD <= 0 && avgIQD > 0
    ensures r == NoSalaryData <==> avgUSD <= 0 && avgIQD <= 0
  {
    if avgUSD > 0 && avgIQD > 0 then BothCurrencies
    else if avgUSD > 0 then UsdOnly
    else if avgIQD > 0 then IqdOnly
    else NoSalaryData
  }

  // ---------------------------------------------------------------------------
  // Properties of the totals

  lemma {:induction false} TotalAppend(a: seq<SalaryRecord>, b: seq<SalaryRecord>, cur: string)
    ensures Total(a + b, cur) == Total(a, cur) + Total(b, cur)
    ensures Count(a + b, cur) == Count(a, cur) + Count(b, cur)
    decreases |b|
  {
    if b == [] {
      assert a + b == a;
    } else {
      var b' := b[..|b| - 1];
      assert (a + b)[..|a + b| - 1] == a + b';
      assert (a + b)[|a + b| - 1] == b[|b| - 1];
      TotalAppend(a, b', cur);
    }
  }

  /** The totals do not depend on the order the records come in: swapping two runs of records
      changes nothing. */
  lemma TotalOrderFree(a: seq<SalaryRecord>, b: seq<SalaryRecord>, cur: string)
    ensures Total(a + b, cur) == Total(b + a, cur) && Count(a + b, cur) == Count(b + a, cur)
  {
    TotalAppend(a, b, cur);
    TotalAppend(b, a, cur);
  }

  /** Taking one copy of `x` out of two equal multisets leaves equal multisets. */
  lemma MultisetRemove<T>(a: seq<T>, x: T, b1: seq<T>, b2: seq<T>)
    requires multiset(a + [x]) == multiset(b1 + [x] + b2)
    ensures multiset(a) == multiset(b1 + b2)
  {
    assert multiset(a + [x]) == multiset(a) + multiset{x};
    assert multiset(b1 + [x] + b2) == multiset(b1 + b2) + multiset{x} by {
      assert multiset(b1 + [x] + b2) == multiset(b1) + multiset([x]) + multiset(b2);
      assert multiset(b1 + b2) == multiset(b1) + multiset(b2);
    }
    assert multiset(a) == multiset(a + [x]) - multiset{x};
    assert multiset(b1 + b2) == multiset(b1 + [x] + b2) - multiset{x};
  }

  /** A record in the middle of a list adds to the totals what it would add at the end. */
  lemma TotalSplice(b1: seq<SalaryRecord>, x: SalaryRecord, b2: seq<SalaryRecord>, cur: string)
    ensures Total(b1 + [x] + b2, cur) == Total(b1 + b2 + [x], cur)
    ensures Count(b1 + [x] + b2, cur) == Count(b1 + b2 + [x], cur)
  {
    TotalAppend(b1, b2, cur);
    TotalAppend(b1, [x], cur);
    TotalAppend(b1 + [x], b2, cur);
    TotalAppend(b1 + b2, [x], cur);
  }

  /** The totals and counts depend only on which records were found, not on their order. */
  lemma {:induction false} TotalPermutation(a: seq<SalaryRecord>, b: seq<SalaryRecord>, cur: string)
    requires multiset(a) == multiset(b)
    ensures Total(a, cur) == Total(b, cur) && Count(a, cur) == Count(b, cur)
    decreases |a|
  {
    if a == [] {
      assert |b| == |multiset(b)| == 0;
    } else {
      var x := a[|a| - 1];
      var a' := a[..|a| - 1];
      assert a == a' + [x];
      assert x in multiset(b);
      var j :| 0 <= j < |b| && b[j] == x;
      var b1, b2 := b[..j], b[j + 1..];
      assert b == b1 + [x] + b2;
      MultisetRemove(a', x, b1, b2);
      TotalPermutation(a', b1 + b2, cur);
      TotalSplice(b1, x, b2, cur);
      assert (b1 + b2 + [x])[..|b1 + b2 + [x]| - 1] == b1 + b2;
    }
  }

  /** A record in another currency adds nothing to a currency's total or count. */
  lemma OtherCurrency(rs: seq<SalaryRecord>, r: SalaryRecord, cur: string)
    requires r.currency != cur
    ensures Total(rs + [r], cur) == Total(rs, cur) && Count(rs + [r], cur) == Count(rs, cur)
  {
  }

  /** Each record is counted in at most one of the two currencies. */
  lemma {:induction false} CountsWithinFound(rs: seq<SalaryRecord>)
    ensures Count(rs, "USD") + Count(rs, "IQD") <= |rs|
    decreases |rs|
  {
    if rs != [] {
      CountsWithinFound(rs[..|rs| - 1]);
    }
  }

  /** Salaries in `cur` of at least `lo` give a total of at least `lo` times their count. */
  lemma {:induction false} TotalAtLeast(rs: seq<SalaryRecord>, cur: string, lo: int)
    requires forall i :: 0 <= i < |rs| && rs[i].currency == cur ==> lo <= rs[i].salary
    ensures lo * Count(rs, cur) <= Total(rs, cur)
    decreases |rs|
  {
    if rs != [] {
      var front := rs[..|rs| - 1];
      assert forall i :: 0 <= i < |front| ==> front[i] == rs[i];
      TotalAtLeast(front, cur, lo);
      var k := Count(front, cur);
      if rs[|rs| - 1].currency == cur {
        assert lo * (k + 1) == lo * k + lo;
      }
    }
  }

  /** Salaries in `cur` of at most `hi` give a total of at most `hi` times their count. */
  lemma {:induction false} TotalAtMost(rs: seq<SalaryRecord>, cur: string, hi: int)
    requires forall i :: 0 <= i < |rs| && rs[i].currency == cur ==> rs[i].salary <= hi
    ensures Total(rs, cur) <= hi * Count(rs, cur)
    decreases |rs|
  {
    if rs != [] {
      var front := rs[..|rs| - 1];
      assert forall i :: 0 <= i < |front| ==> front[i] == rs[i];
      TotalAtMost(front, cur, hi);
      var k := Count(front, cur);
      if rs[|rs| - 1].currency == cur {
        assert hi * (k + 1) == hi * k + hi;
      }
    }
  }

  // ---------------------------------------------------------------------------
  // Properties of the rounded average

  /** The rounding condition determines the rounded value. */
  lemma RoundUnique(total: int, count: nat, r: int, s: int)
    requires count > 0
    requires r * (2 * count) - count <= 2 * total < r * (2 * count) + count
    requires s * (2 * count) - count <= 2 * total < s * (2 * count) + count
    ensures r == s
  {
    SubMul(r, s, 2 * count);
    BelowOneMultiple(r - s, 2 * count);
    SubMul(s, r, 2 * count);
    BelowOneMultiple(s - r, 2 * count);
  }

  /** Averaging `count` copies of one salary gives that salary. */
  lemma MeanOfEqual(v: int, count: nat)
    requires count > 0
    ensures RoundedMean(v * count, count) == v
  {
    DoubleMul(v, count);
    RoundUnique(v * count, count, RoundedMean(v * count, count), v);
  }

  /** A total of at least `lo * count` has a rounded average of at least `lo`. */
  lemma MeanAtLeast(total: int, count: nat, lo: int)
    requires count > 0 && lo * count <= total
    ensures lo <= RoundedMean(total, count)
  {
    var r := RoundedMean(total, count);
    DoubleMul(lo, count);
    SubMul(lo, r, 2 * count);
    BelowOneMultiple(lo - r, 2 * count);
  }

  /** A total of at most `hi * count` has a rounded average of at most `hi`. */
  lemma MeanAtMost(total: int, count: nat, hi: int)
    requires count > 0 && total <= hi * count
    ensures RoundedMean(total, count) <= hi
  {
    var r := RoundedMean(total, count);
    DoubleMul(hi, count);
    SubMul(r, hi, 2 * count);
    BelowOneMultiple(r - hi, 2 * count);
  }

  /** When every salary of a currency lies in a range, so does that currency's average. */
  lemma AverageWithinRange(rs: seq<SalaryRecord>, cur: string, lo: int, hi: int)
    requires forall i :: 0 <= i < |rs| && rs[i].currency == cur ==> lo <= rs[i].salary <= hi
    requires Count(rs, cur) > 0
    ensures lo <= RoundedMean(Total(rs, cur), Count(rs, cur)) <= hi
  {
    TotalAtLeast(rs, cur, lo);
    TotalAtMost(rs, cur, hi);
    MeanAtLeast(Total(rs, cur), Count(rs, cur), lo);
    MeanAtMost(Total(rs, cur), Count(rs, cur), hi);
  }

  /** When a currency's salaries are positive, its average is positive exactly when it has a record. */
  lemma PositiveWhenPresent(rs: seq<SalaryRecord>, cur: string)
    requires forall i :: 0 <= i < |rs| && rs[i].currency == cur ==> rs[i].salary > 0
    ensures RoundedMean(Total(rs, cur), Count(rs, cur)) > 0 <==> Count(rs, cur) > 0
  {
    if Count(rs, cur) > 0 {
      TotalAtLeast(rs, cur, 1);
      MeanAtLeast(Total(rs, cur), Count(rs, cur), 1);
    }
  }

  /** When the USD and IQD salaries are positive, the panel says there is no salary data exactly when
      no record is in either currency. */
  lemma ShownWhenPresent(rs: seq<SalaryRecord>)
    requires forall i :: 0 <= i < |rs| && (rs[i].currency == "USD" || rs[i].currency == "IQD") ==> rs[i].salary > 0
    ensures var usd, iqd := RoundedMean(Total(rs, "USD"), Count(rs, "USD")), RoundedMean(Total(rs, "IQD"), Count(rs, "IQD"));
            ShownAverages(usd, iqd) == NoSalaryData <==> Count(rs, "USD") == 0 && Count(rs, "IQD") == 0
  {
    PositiveWhenPresent(rs, "USD");
    PositiveWhenPresent(rs, "IQD");
  }

  lemma ExampleRounding()
    ensures RoundedMean(5, 2) == 3 && RoundedMean(-5, 2) == -2 && RoundedMean(7, 3) == 2
  {
  }
}
