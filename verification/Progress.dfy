/** Which percentages an upload reports. */
module Progress {
  import opened Binary

  const FULL_PERCENT: nat := 100
  const PROGRESS_STEP_PERCENT: nat := 10

  /** The full tenths that `k` of `t` packets make up. */
  function Tenths(k: nat, t: nat): nat
    requires t > 0
  {
    10 * k / t
  }

  /**
   * The reports after `k` of `t` packets: with ten packets or more, every full tenth passed so far;
   * with fewer, one per packet, rounded down to a multiple of ten.
   */
  function ReportsAfter(k: nat, t: nat): (r: seq<nat>)
    requires k <= t && t > 0
  {
    if t >= 10 then seq(Tenths(k, t), i => 10 * (i + 1))
    else seq(k, i requires 0 <= i < k => 10 * Tenths(i + 1, t))
  }

  /** The value remembered after `k` packets: the full tenths passed, as a percentage. */
  function Remembered(k: nat, t: nat): nat
    requires t > 0
  {
    10 * Tenths(k, t)
  }

  /** All reports of an upload of `t` packets. */
  function Reports(t: nat): seq<nat>
    requires t > 0
  {
    ReportsAfter(t, t)
  }

  lemma DivIs(n: nat, t: nat, q: nat)
    requires t > 0 && q * t <= n < (q + 1) * t
    ensures n / t == q
  {
    var d := n / t;
    assert d * t <= n < (d + 1) * t;
    if d < q {
      Scale(d + 1, q, t);
    }
    if d > q {
      Scale(q + 1, d, t);
    }
  }

  lemma DivBounds(n: nat, t: nat)
    requires t > 0
    ensures (n / t) * t <= n < (n / t + 1) * t
  {
  }

  /** Dropping the last digit of a percentage is the same as counting tenths. */
  lemma PercentTenths(k: nat, t: nat)
    requires t > 0
    ensures 100 * k / t / 10 == 10 * k / t
  {
    var p := 100 * k / t;
    var q := p / 10;
    DivBounds(100 * k, t);
    assert 10 * q <= p < 10 * q + 10;
    Scale(10 * q, p, t);
    Scale(p + 1, 10 * q + 10, t);
    assert (10 * q) * t == 10 * (q * t) && (10 * q + 10) * t == 10 * ((q + 1) * t);
    DivIs(10 * k, t, q);
  }

  lemma Scale(a: nat, b: nat, t: nat)
    requires a <= b
    ensures a * t <= b * t
  {
  }

  /** From one packet to the next at most one tenth is passed if there are ten packets, at least one if fewer. */
  lemma TenthsStep(k: nat, t: nat)
    requires 1 <= k <= t
    ensures var q, q' := 10 * (k - 1) / t, 10 * k / t;
            && q <= q' <= 10 && (t >= 10 ==> q' <= q + 1) && (t < 10 ==> q' >= q + 1)
            && (k < t ==> q' <= 9) && (k == t ==> q' == 10 && (t >= 10 ==> q == 9))
  {
    var before, now := 10 * (k - 1), 10 * k;
    DivShift(before, t);
    DivMonotone(before, now, t);
    DivMonotone(now, 10 * t, t);
    DivIs(10 * t, t, 10);
    if t >= 10 {
      DivMonotone(now, before + t, t);
    } else {
      DivMonotone(before + t, now, t);
    }
    if k < t {
      DivLess(now, t, 10);
    } else if t >= 10 {
      DivIs(before, t, 9);
    }
  }

  lemma DivMonotone(a: nat, b: nat, t: nat)
    requires a <= b && t > 0
    ensures a / t <= b / t
  {
    DivBounds(a, t);
    DivBounds(b, t);
    if b / t < a / t {
      Scale(b / t + 1, a / t, t);
    }
  }

  lemma DivShift(a: nat, t: nat)
    requires t > 0
    ensures (a + t) / t == a / t + 1
  {
    DivBounds(a, t);
    DivIs(a + t, t, a / t + 1);
  }

  lemma DivLess(n: nat, t: nat, m: nat)
    requires t > 0 && n < m * t
    ensures n / t < m
  {
    DivBounds(n, t);
    if m <= n / t {
      Scale(m, n / t, t);
    }
  }

  lemma ReportsStart(t: nat)
    requires t > 0
    ensures ReportsAfter(0, t) == [] && Remembered(0, t) == 0
  {
    DivIs(0, t, 0);
  }

  /** One packet of the loop: whether it reports, what it reports, and the value it remembers. */
  lemma ReportStep(k: nat, t: nat)
    requires 1 <= k <= t
    ensures var printed := Remembered(k - 1, t);
            var percent := FULL_PERCENT * k / t;
            var report := if k == t then FULL_PERCENT else percent / PROGRESS_STEP_PERCENT * PROGRESS_STEP_PERCENT;
            && (percent >= printed + PROGRESS_STEP_PERCENT || k == t
                ==> report == Remembered(k, t) && ReportsAfter(k, t) == ReportsAfter(k - 1, t) + [report])
            && (!(percent >= printed + PROGRESS_STEP_PERCENT || k == t)
                ==> Remembered(k, t) == printed && ReportsAfter(k, t) == ReportsAfter(k - 1, t))
  {
    var q, q' := 10 * (k - 1) / t, 10 * k / t;
    PercentTenths(k, t);
    TenthsStep(k, t);
    assert 100 * k / t >= 10 * q + 10 <==> q' >= q + 1;
    if t >= 10 {
      if q' == q + 1 {
        assert ReportsAfter(k, t) == ReportsAfter(k - 1, t) + [10 * q'];
      } else {
        assert ReportsAfter(k, t) == ReportsAfter(k - 1, t);
      }
    } else {
      assert ReportsAfter(k, t) == ReportsAfter(k - 1, t) + [10 * q'];
    }
  }

  /**
   * The reports are at most ten, strictly increasing multiples of ten that end in a single 100; with ten
   * packets or more they are exactly 10, 20, ..., 100.
   */
  lemma ReportsShape(t: nat)
    requires t > 0
    ensures |Reports(t)| == Min(t, 10)
    ensures forall i :: 0 <= i < |Reports(t)| ==>
              Reports(t)[i] % 10 == 0 && (Reports(t)[i] == 100 <==> i == |Reports(t)| - 1)
    ensures forall i, j :: 0 <= i < j < |Reports(t)| ==> Reports(t)[i] < Reports(t)[j]
    ensures t >= 10 ==> Reports(t) == [10, 20, 30, 40, 50, 60, 70, 80, 90, 100]
  {
    if t < 10 {
      FewReports(t);
    } else {
      DivIs(10 * t, t, 10);
      assert Reports(t) == [10, 20, 30, 40, 50, 60, 70, 80, 90, 100];
    }
  }

  /**
   * The reports after `k` of `t` packets, without division: with ten packets or more all multiples of ten that are
   * not above the percentage reached; with fewer one per packet, the greatest multiple of ten not above it.
   */
  lemma ReportsReach(k: nat, t: nat)
    requires k <= t && t > 0
    ensures var r := ReportsAfter(k, t);
            && (t >= 10 ==>
                  && (10 * |r|) * t <= 100 * k < (10 * |r| + 10) * t
                  && forall i :: 0 <= i < |r| ==> r[i] == 10 * (i + 1))
            && (t < 10 ==>
                  && |r| == k
                  && forall i :: 0 <= i < k ==> r[i] % 10 == 0 && r[i] * t <= 100 * (i + 1) < (r[i] + 10) * t)
  {
    if t >= 10 {
      TenthsReach(k, t);
    } else {
      forall i | 0 <= i < k
        ensures var p := ReportsAfter(k, t)[i]; p % 10 == 0 && p * t <= 100 * (i + 1) < (p + 10) * t
      {
        TenthsReach(i + 1, t);
      }
    }
  }

  lemma TenthsReach(k: nat, t: nat)
    requires t > 0
    ensures (10 * Tenths(k, t)) * t <= 100 * k < (10 * Tenths(k, t) + 10) * t
  {
    var q := Tenths(k, t);
    DivBounds(10 * k, t);
    assert (10 * q) * t == 10 * (q * t) && (10 * q + 10) * t == 10 * ((q + 1) * t);
  }

  /** Fewer than ten packets: one report each. */
  lemma FewReports(t: nat)
    requires 0 < t < 10
    ensures |Reports(t)| == t
    ensures forall i :: 0 <= i < t ==> Reports(t)[i] % 10 == 0 && (Reports(t)[i] == 100 <==> i == t - 1)
    ensures forall i, j :: 0 <= i < j < t ==> Reports(t)[i] < Reports(t)[j]
  {
    hide Tenths;
    var r := Reports(t);
    forall i, j | 0 <= i < j < t ensures r[i] < r[j] {
      TenthsGrow(i + 1, j + 1, t);
    }
    forall i | 0 <= i < t ensures r[i] == 100 <==> i == t - 1 {
      LastTenth(i + 1, t);
    }
  }

  lemma LastTenth(k: nat, t: nat)
    requires 1 <= k <= t
    ensures Tenths(k, t) == 10 <==> k == t
  {
    TenthsStep(k, t);
  }

  lemma {:induction false} TenthsGrow(i: nat, j: nat, t: nat)
    requires 0 < t < 10 && i < j <= t
    ensures Tenths(i, t) < Tenths(j, t)
    decreases j - i
  {
    TenthsStep(j, t);
    if i < j - 1 {
      TenthsGrow(i, j - 1, t);
    }
  }
}
