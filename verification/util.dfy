/** Util: the small helpers of the feature module — a piecewise-linear indicator, scale to
    ground resolution, capitalisation, indexing of attribute rows, and the test deciding
    when progress is printed. */
module Util {
  import opened Wrappers
  import opened Numeric

  // ---------------------------------------------------------------------------
  // getIndicatorValue

  /** 1 before `x1`, 0 after `x2`, and the line through (x1, 1) and (x2, 0) in between.
      With x1 == x2 == x the division is 0/0. */
  function IndicatorValue(x: real, x1: real, x2: real): (r: Double)
    ensures x < x1 ==> r == Finite(1.0)
    ensures x1 <= x && x > x2 ==> r == Finite(0.0)
    ensures r.NonFinite? <==> x == x1 == x2
    ensures x1 <= x <= x2 && x1 != x2 ==> r.Finite? && r.value * (x1 - x2) == x - x2
  {
    if x < x1 then Finite(1.0)
    else if x > x2 then Finite(0.0)
    else Divide(x - x2, x1 - x2)
  }

  /** With x1 < x2 the indicator is a finite value between 0 and 1, 1 at x1 and 0 at x2. */
  lemma IndicatorBounds(x: real, x1: real, x2: real)
    requires x1 < x2
    ensures IndicatorValue(x, x1, x2).Finite?
    ensures 0.0 <= IndicatorValue(x, x1, x2).value <= 1.0
    ensures IndicatorValue(x1, x1, x2) == Finite(1.0)
    ensures IndicatorValue(x2, x1, x2) == Finite(0.0)
  {
    if x1 <= x <= x2 {
      var r := IndicatorValue(x, x1, x2).value;
      assert r == (x2 - x) / (x2 - x1);
    }
    DivSelf(x1 - x2);
  }

  /** With x1 < x2 the indicator never increases. */
  lemma IndicatorNonIncreasing(x: real, y: real, x1: real, x2: real)
    requires x1 < x2 && x <= y
    ensures IndicatorValue(y, x1, x2).value <= IndicatorValue(x, x1, x2).value
  {
    IndicatorBounds(x, x1, x2);
    IndicatorBounds(y, x1, x2);
    if x1 <= x && y <= x2 {
      assert IndicatorValue(x, x1, x2).value == (x2 - x) / (x2 - x1);
      assert IndicatorValue(y, x1, x2).value == (x2 - y) / (x2 - x1);
      QuotientMonotone(x2 - y, x2 - x, x2 - x1);
    }
  }

  lemma DivSelf(d: real)
    requires d != 0.0
    ensures d / d == 1.0
  {
    assert (d / d) * d == d;
    assert (d / d - 1.0) * d == 0.0;
  }

  lemma QuotientMonotone(a: real, b: real, d: real)
    requires a <= b && d > 0.0
    ensures a / d <= b / d
  {
    assert b / d - a / d == (b - a) / d;
  }

  // ---------------------------------------------------------------------------
  // getGroundResolution

  /** The map resolution, in millimetres, used when none is given. */
  const DefaultMapResolutionMM: real := 0.2

  /** The ground size of a map resolution at scale 1:`scaleK` thousand: the product. */
  function GroundResolution(scaleK: int, mapResolutionMM: real): (r: real)
    ensures scaleK == 0 || mapResolutionMM == 0.0 ==> r == 0.0
    ensures scaleK != 0 ==> r / scaleK as real == mapResolutionMM
  {
    scaleK as real * mapResolutionMM
  }

  /** The one-argument form is the two-argument one at 0.2 mm. */
  function DefaultGroundResolution(scaleK: int): (r: real)
    ensures r == GroundResolution(scaleK, DefaultMapResolutionMM)
    ensures r * 5.0 == scaleK as real
  {
    GroundResolution(scaleK, DefaultMapResolutionMM)
  }

  // ---------------------------------------------------------------------------
  // capitalizeOnlyFirstLetter

  predicate IsUpperAscii(c: char) { 'A' <= c <= 'Z' }
  predicate IsLowerAscii(c: char) { 'a' <= c <= 'z' }

  function LowerChar(c: char): (r: char)
    ensures !IsUpperAscii(r)
    ensures IsUpperAscii(c) ==> IsLowerAscii(r)
    ensures !IsUpperAscii(c) ==> r == c
  {
    if IsUpperAscii(c) then (c as int + 32) as char else c
  }

  function UpperChar(c: char): (r: char)
    ensures !IsLowerAscii(r)
    ensures IsLowerAscii(c) ==> IsUpperAscii(r)
    ensures !IsLowerAscii(c) ==> r == c
  {
    if IsLowerAscii(c) then (c as int - 32) as char else c
  }

  /** String.toLowerCase, on the ASCII letters. */
  function Lower(s: string): (r: string)
    ensures |r| == |s|
    ensures forall i :: 0 <= i < |s| ==> r[i] == LowerChar(s[i])
  {
    seq(|s|, i requires 0 <= i < |s| => LowerChar(s[i]))
  }

  /** "PARIS" into "Paris": the string lower-cased, then its first character upper-cased.
      An empty string fails on `substring(0, 1)`. */
  function Capitalize(s: string): (r: Result<string>)
    ensures r.Failure? <==> |s| == 0
    ensures r.Failure? ==> r.error == StringIndexOutOfBounds
    ensures r.Success? ==> |r.value| == |s|
    ensures r.Success? ==> r.value[0] == UpperChar(LowerChar(s[0]))
    ensures r.Success? ==> forall i :: 1 <= i < |s| ==> r.value[i] == LowerChar(s[i])
  {
    if |s| == 0 then Failure(StringIndexOutOfBounds)
    else
      var out := Lower(s);
      Success([UpperChar(out[0])] + out[1..])
  }

  /** The two case maps undo each other on letters. */
  lemma CaseMapsInverse(c: char)
    ensures IsLowerAscii(c) ==> LowerChar(UpperChar(c)) == c
    ensures IsUpperAscii(c) ==> UpperChar(LowerChar(c)) == c
  {
  }

  /** The result has no upper-case letter after the first character, and it is the input up
      to case. */
  lemma CapitalizeSameUpToCase(s: string)
    requires |s| > 0
    ensures Lower(Capitalize(s).value) == Lower(s)
    ensures forall i :: 1 <= i < |s| ==> !IsUpperAscii(Capitalize(s).value[i])
  {
    var r := Capitalize(s).value;
    assert LowerChar(r[0]) == LowerChar(s[0]) by {
      var c := LowerChar(s[0]);
      if IsLowerAscii(c) {
        CaseMapsInverse(c);
      }
    }
  }

  /** Capitalising a capitalised string changes nothing. */
  lemma CapitalizeIdempotent(s: string)
    requires |s| > 0
    ensures Capitalize(Capitalize(s).value) == Capitalize(s)
  {
    var r := Capitalize(s).value;
    CapitalizeSameUpToCase(s);
    var rr := Capitalize(r).value;
    assert Lower(r)[0] == Lower(s)[0];
    assert rr == r;
  }

  // ---------------------------------------------------------------------------
  // index

  /** An attribute row, as a map from column names to values. */
  type Row = map<string, string>

  /** Map.get: null (None) for an absent column. */
  function Get(row: Row, col: string): (r: Option<string>)
    ensures r.Some? <==> col in row
  {
    if col in row then Some(row[col]) else None
  }

  /** Puts, for each row in order, its key value mapped to `value(row)`. A HashMap takes
      the null key too. */
  function IndexBy<V>(rows: seq<Row>, key: string, value: Row -> V): map<Option<string>, V>
  {
    if |rows| == 0 then map[]
    else IndexBy(rows[..|rows| - 1], key, value)[Get(rows[|rows| - 1], key) := value(rows[|rows| - 1])]
  }

  /** Row `i` is the last one with its key value. */
  ghost predicate LastWithKey(rows: seq<Row>, key: string, i: int)
    requires 0 <= i < |rows|
  {
    forall j :: i < j < |rows| ==> Get(rows[j], key) != Get(rows[i], key)
  }

  /** The keys of the index are exactly the key values of the rows. */
  lemma {:induction false} IndexByKeys<V>(rows: seq<Row>, key: string, value: Row -> V)
    ensures forall k :: k in IndexBy(rows, key, value) <==> exists i :: 0 <= i < |rows| && Get(rows[i], key) == k
  {
    if |rows| > 0 {
      var init := rows[..|rows| - 1];
      IndexByKeys(init, key, value);
      forall k | k in IndexBy(rows, key, value)
        ensures exists i :: 0 <= i < |rows| && Get(rows[i], key) == k
      {
        if k != Get(rows[|rows| - 1], key) {
          assert k in IndexBy(init, key, value);
          var i :| 0 <= i < |init| && Get(init[i], key) == k;
          assert rows[i] == init[i];
        }
      }
      forall k | exists i :: 0 <= i < |rows| && Get(rows[i], key) == k
        ensures k in IndexBy(rows, key, value)
      {
        var i :| 0 <= i < |rows| && Get(rows[i], key) == k;
        if i < |init| {
          assert init[i] == rows[i];
        }
      }
    }
  }

  /** For duplicate key values the last row wins. */
  lemma {:induction false} IndexByLastWins<V>(rows: seq<Row>, key: string, value: Row -> V, i: int)
    requires 0 <= i < |rows| && LastWithKey(rows, key, i)
    ensures Get(rows[i], key) in IndexBy(rows, key, value)
    ensures IndexBy(rows, key, value)[Get(rows[i], key)] == value(rows[i])
  {
    if i < |rows| - 1 {
      var init := rows[..|rows| - 1];
      assert init[i] == rows[i];
      forall j | i < j < |init|
        ensures Get(init[j], key) != Get(init[i], key)
      {
        assert init[j] == rows[j];
      }
      IndexByLastWins(init, key, value, i);
      assert Get(rows[|rows| - 1], key) != Get(rows[i], key);
    }
  }

  /** `index(data, indexKey, valueCol)`: each key value mapped to the `valueCol` value of the
      last row holding it. */
  function Index(rows: seq<Row>, key: string, valueCol: string): (r: map<Option<string>, Option<string>>)
    ensures forall k :: k in r <==> exists i :: 0 <= i < |rows| && Get(rows[i], key) == k
    ensures forall i :: 0 <= i < |rows| && LastWithKey(rows, key, i) ==> r[Get(rows[i], key)] == Get(rows[i], valueCol)
  {
    var value := (row: Row) => Get(row, valueCol);
    IndexByKeys(rows, key, value);
    forall i | 0 <= i < |rows| && LastWithKey(rows, key, i) {
      IndexByLastWins(rows, key, value, i);
    }
    IndexBy(rows, key, value)
  }

  /** `index(data, indexKey)`: each key value mapped to the last row holding it. */
  function IndexRows(rows: seq<Row>, key: string): (r: map<Option<string>, Row>)
    ensures forall k :: k in r <==> exists i :: 0 <= i < |rows| && Get(rows[i], key) == k
    ensures forall i :: 0 <= i < |rows| && LastWithKey(rows, key, i) ==> r[Get(rows[i], key)] == rows[i]
  {
    var value := (row: Row) => row;
    IndexByKeys(rows, key, value);
    forall i | 0 <= i < |rows| && LastWithKey(rows, key, i) {
      IndexByLastWins(rows, key, value, i);
    }
    IndexBy(rows, key, value)
  }

  // ---------------------------------------------------------------------------
  // printProgress

  /** The percentage printProgress computes, in Java `int` arithmetic. */
  function Percent(nbDone: int, nbTot: int): int
    requires IsInt32(nbDone) && IsInt32(nbTot) && nbTot != 0
  {
    JavaDiv(Wrap(100 * nbDone), nbTot)
  }

  /** Whether printProgress prints: the percentage of `nbDone` differs from that of
      `nbDone - 1`. A zero total divides by zero. */
  function PrintsProgress(nbDone: int, nbTot: int): (r: Result<bool>)
    requires IsInt32(nbDone) && IsInt32(nbTot)
    ensures r.Failure? <==> nbTot == 0
    ensures r.Failure? ==> r.error == Arithmetic
  {
    if nbTot == 0 then Failure(Arithmetic)
    else Success(Percent(nbDone, nbTot) != Percent(Wrap(nbDone - 1), nbTot))
  }

  /** Without overflow, progress is printed exactly when step `nbDone` crosses a whole
      percentage: some k has 100*(nbDone-1) < k*nbTot <= 100*nbDone. */
  lemma {:induction false} PrintsWhenCrossingPercent(nbDone: int, nbTot: int)
    requires 1 <= nbDone && 0 < nbTot <= Int32Max && 100 * nbDone <= Int32Max
    ensures PrintsProgress(nbDone, nbTot).value <==>
              exists k :: 100 * (nbDone - 1) < k * nbTot <= 100 * nbDone
  {
    PercentExact(nbDone, nbTot);
    PercentExact(nbDone - 1, nbTot);
    assert Wrap(nbDone - 1) == nbDone - 1;
    QuotientsDiffer(100 * (nbDone - 1), 100 * nbDone, nbTot);
  }

  /** Without overflow the Java percentage is the exact one. */
  lemma PercentExact(n: int, nbTot: int)
    requires 0 <= n && 100 * n <= Int32Max && 0 < nbTot <= Int32Max
    ensures Percent(n, nbTot) == (100 * n) / nbTot
  {
    assert Wrap(100 * n) == 100 * n;
    assert TruncDiv(100 * n, nbTot) == (100 * n) / nbTot;
  }

  lemma MulMonotone(a: int, b: int, d: int)
    requires a <= b && d > 0
    ensures a * d <= b * d
  {
    assert b * d - a * d == (b - a) * d;
  }
  lemma DivMonotone(a: int, b: int, d: int)
    requires a <= b && d > 0
    ensures a / d <= b / d
  {
    var qa, qb := a / d, b / d;
    assert a == qa * d + a % d && 0 <= a % d < d;
    assert b == qb * d + b % d && 0 <= b % d < d;
    if qa > qb {
      MulMonotone(qb + 1, qa, d);
    }
  }
  /** A multiple k*d of d in (lo, hi] puts k at most hi/d and above lo/d. */
  lemma DivBounds(k: int, d: int, hi: int, lo: int)
    requires d > 0 && lo < k * d <= hi
    ensures lo / d < k <= hi / d
  {
    var qh, ql := hi / d, lo / d;
    assert hi == qh * d + hi % d && 0 <= hi % d < d;
    assert lo == ql * d + lo % d && 0 <= lo % d < d;
    if k > qh {
      MulMonotone(qh + 1, k, d);
    }
    if ql >= k {
      MulMonotone(k, ql, d);
    }
  }

  /** lo/d and hi/d differ exactly when (lo, hi] holds a multiple of d. */
  lemma {:induction false} QuotientsDiffer(lo: int, hi: int, d: int)
    requires lo <= hi && d > 0
    ensures lo / d != hi / d <==> exists k :: lo < k * d <= hi
  {
    var q, p := hi / d, lo / d;
    DivMonotone(lo, hi, d);
    if q != p {
      assert hi == q * d + hi % d && 0 <= hi % d;
      assert lo == p * d + lo % d && lo % d < d;
      MulMonotone(p + 1, q, d);
      assert lo < q * d <= hi;
    }
    if exists k :: lo < k * d <= hi {
      var k :| lo < k * d <= hi;
      DivBounds(k, d, hi, lo);
    }
  }

  /** With at most 100 steps, every step from the first to the last prints. */
  lemma FewStepsAlwaysPrint(nbDone: int, nbTot: int)
    requires 1 <= nbDone <= nbTot <= 100
    ensures PrintsProgress(nbDone, nbTot) == Success(true)
  {
    var hi := 100 * nbDone;
    PercentExact(nbDone, nbTot);
    PercentExact(nbDone - 1, nbTot);
    assert Wrap(nbDone - 1) == nbDone - 1;
    assert 100 * (nbDone - 1) == hi - 100;
    DivMonotone(hi - 100, hi - nbTot, nbTot);
    DivShift(hi - nbTot, nbTot);
  }

  lemma DivShift(a: int, d: int)
    requires d > 0
    ensures (a + d) / d == a / d + 1
  {
    var q := a / d;
    assert a == q * d + a % d && 0 <= a % d < d;
    assert a + d == (q + 1) * d + a % d;
    DivUnique(a + d, d, q + 1, a % d);
  }

  /** The quotient is the only q with n == q*d + r and 0 <= r < d. */
  lemma DivUnique(n: int, d: int, q: int, r: int)
    requires d > 0 && n == q * d + r && 0 <= r < d
    ensures n / d == q
  {
    var q0 := n / d;
    assert n == q0 * d + n % d && 0 <= n % d < d;
    if q0 > q {
      MulMonotone(q + 1, q0, d);
    } else if q0 < q {
      MulMonotone(q0 + 1, q, d);
    }
  }

  /** Step 0 compares 0 with 100*(-1)/nbTot, which truncates toward zero: it prints only
      when nbTot is at most 100. */
  lemma StepZeroPrints(nbTot: int)
    requires 0 < nbTot <= Int32Max
    ensures PrintsProgress(0, nbTot) == Success(nbTot <= 100)
  {
    assert Wrap(100 * 0) == 0;
    assert Wrap(0 - 1) == -1;
    assert Wrap(100 * -1) == -100;
    assert TruncDiv(0, nbTot) == 0;
    assert TruncDiv(-100, nbTot) == -(100 / nbTot);
    assert Percent(0, nbTot) == 0;
    assert Percent(-1, nbTot) == -(100 / nbTot);
  }
}
