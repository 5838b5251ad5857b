/** Steal time from two snapshots of wrapping 64-bit counters. */
module StealPct {
  import opened Bytes

  datatype CpuStat = CpuStat(user: u64, nice: u64, system: u64, idle: u64,
                             iowait: u64, irq: u64, softirq: u64, steal: u64)

  function Wrap(x: int): u64 { x % TWO_TO_THE_64 }
  function Add(a: u64, b: u64): u64 { Wrap(a + b) }
  function Sub(a: u64, b: u64): u64 { Wrap(a - b) }

  /** The eight counters in the order in which they are summed. */
  function Counters(s: CpuStat): seq<u64> {
    [s.user, s.nice, s.system, s.idle, s.iowait, s.irq, s.softirq, s.steal]
  }

  function TotalOf(xs: seq<u64>): u64 {
    if xs == [] then 0 else Add(TotalOf(xs[..|xs| - 1]), xs[|xs| - 1])
  }

  function Total(s: CpuStat): u64 { TotalOf(Counters(s)) }

  /** A share of a whole in percent, in exact arithmetic; the code divides in float64. */
  function Share(part: nat, whole: nat): real {
    if whole == 0 then 0.0 else part as real / whole as real * 100.0
  }

  function CalcStealPct(s1: CpuStat, s2: CpuStat): real {
    Share(Sub(s2.steal, s1.steal), Sub(Total(s2), Total(s1)))
  }

  /** The true cumulative ticks behind a snapshot, which never wrap; steal comes last. */
  type Ticks = t: seq<nat> | |t| == 8 witness [0, 0, 0, 0, 0, 0, 0, 0]

  function Snapshot(t: Ticks): CpuStat {
    CpuStat(Wrap(t[0]), Wrap(t[1]), Wrap(t[2]), Wrap(t[3]), Wrap(t[4]), Wrap(t[5]), Wrap(t[6]), Wrap(t[7]))
  }

  function Sum(t: seq<nat>): nat {
    if t == [] then 0 else Sum(t[..|t| - 1]) + t[|t| - 1]
  }

  predicate NeverDecreases(t1: seq<nat>, t2: seq<nat>) {
    |t1| == |t2| && forall i :: 0 <= i < |t1| ==> t1[i] <= t2[i]
  }

  lemma WrapShift(x: int, k: int)
    ensures Wrap(x + k * TWO_TO_THE_64) == Wrap(x)
  {
    var m := TWO_TO_THE_64;
    var q, r := x / m, x % m;
    assert x + k * m == (q + k) * m + r;
    assert (x + k * m) / m == q + k;
  }

  /** Wrapping early or late makes no difference to sums and differences. */
  lemma WrapAbsorbs(x: int, y: int)
    ensures Add(Wrap(x), Wrap(y)) == Wrap(x + y)
    ensures Sub(Wrap(x), Wrap(y)) == Wrap(x - y)
  {
    var m := TWO_TO_THE_64;
    var a, b := x / m, y / m;
    assert x == a * m + Wrap(x) && y == b * m + Wrap(y);
    WrapShift(Wrap(x) + Wrap(y), a + b);
    WrapShift(Wrap(x) - Wrap(y), a - b);
  }

  lemma {:induction false} TotalOfWrapped(ws: seq<u64>, t: seq<nat>)
    requires |ws| == |t| && forall i :: 0 <= i < |t| ==> ws[i] == Wrap(t[i])
    ensures TotalOf(ws) == Wrap(Sum(t))
  {
    if t != [] {
      TotalOfWrapped(ws[..|ws| - 1], t[..|t| - 1]);
      WrapAbsorbs(Sum(t[..|t| - 1]), t[|t| - 1]);
    }
  }

  lemma {:induction false} SumMonotone(t1: seq<nat>, t2: seq<nat>)
    requires NeverDecreases(t1, t2)
    ensures Sum(t1) <= Sum(t2)
    ensures t1 != [] ==> t2[|t2| - 1] - t1[|t1| - 1] <= Sum(t2) - Sum(t1)
  {
    if t1 != [] { SumMonotone(t1[..|t1| - 1], t2[..|t2| - 1]); }
  }

  lemma WrapSmall(x: int)
    ensures Wrap(x) == x <==> 0 <= x < TWO_TO_THE_64
  {
  }

  /** The wrapped deltas are the true ones taken modulo 2^64. */
  lemma {:induction false} WrappedDeltas(t1: Ticks, t2: Ticks)
    ensures Sub(Total(Snapshot(t2)), Total(Snapshot(t1))) == Wrap(Sum(t2) - Sum(t1))
    ensures Sub(Snapshot(t2).steal, Snapshot(t1).steal) == Wrap(t2[7] as int - t1[7] as int)
  {
    TotalOfWrapped(Counters(Snapshot(t1)), t1);
    TotalOfWrapped(Counters(Snapshot(t2)), t2);
    WrapAbsorbs(Sum(t2), Sum(t1));
    WrapAbsorbs(t2[7], t1[7]);
  }

  lemma {:induction false} SumOfEight(t: Ticks)
    ensures Sum(t) == t[0] + t[1] + t[2] + t[3] + t[4] + t[5] + t[6] + t[7]
  {
    assert t[..0] == [];
    SumTake(t, 0); SumTake(t, 1); SumTake(t, 2); SumTake(t, 3);
    SumTake(t, 4); SumTake(t, 5); SumTake(t, 6); SumTake(t, 7);
    assert t[..8] == t;
  }

  lemma SumTake(t: seq<nat>, k: nat)
    requires k < |t|
    ensures Sum(t[..k + 1]) == Sum(t[..k]) + t[k]
  {
    assert t[..k + 1][..k] == t[..k];
  }

  /** `pct` times the whole is a hundred times the part; of nothing it is zero; it is a percentage. */
  predicate IsShare(pct: real, part: int, whole: int) {
    && pct * whole as real == 100.0 * part as real
    && (whole == 0 ==> pct == 0.0)
    && 0.0 <= pct <= 100.0
  }

  lemma ShareIsShare(a: nat, b: nat)
    requires a <= b
    ensures IsShare(Share(a, b), a, b)
  {
    if 0 < b {
      QuotientTimes(a as real, b as real);
      RatioWithinOne(a, b);
    }
  }

  lemma QuotientTimes(x: real, y: real)
    requires y > 0.0
    ensures x / y * 100.0 * y == 100.0 * x
  {
    var q := x / y;
    assert q * y == x;
    assert q * 100.0 * y == 100.0 * (q * y);
  }

  lemma PctIsShare(s1: CpuStat, s2: CpuStat, steal: nat, total: nat)
    requires Sub(Total(s2), Total(s1)) == total && Sub(s2.steal, s1.steal) == steal <= total
    ensures IsShare(CalcStealPct(s1, s2), steal, total)
  {
    ShareIsShare(steal, total);
    assert CalcStealPct(s1, s2) == Share(steal, total);
  }

  lemma {:induction false} DeltasMatch(t1: Ticks, t2: Ticks)
    requires NeverDecreases(t1, t2)
    ensures var total: int, steal: int := Sum(t2) - Sum(t1), t2[7] - t1[7];
            && 0 <= steal <= total
            && (Sub(Total(Snapshot(t2)), Total(Snapshot(t1))) == total <==> total < TWO_TO_THE_64)
            && (total < TWO_TO_THE_64 ==> Sub(Snapshot(t2).steal, Snapshot(t1).steal) == steal)
  {
    SumMonotone(t1, t2);
    WrappedDeltas(t1, t2);
    WrapSmall(Sum(t2) - Sum(t1));
    WrapSmall(t2[7] - t1[7]);
  }

  /** Even when counters or their sum wrap between the snapshots, the computed total is the true one exactly
      when fewer than 2^64 ticks passed; then the steal delta is true as well, and the percentage is the true
      share. */
  lemma {:induction false} DeltasAreTrue(t1: Ticks, t2: Ticks)
    requires NeverDecreases(t1, t2)
    ensures var s1, s2 := Snapshot(t1), Snapshot(t2);
            var before := t1[0] + t1[1] + t1[2] + t1[3] + t1[4] + t1[5] + t1[6] + t1[7];
            var after := t2[0] + t2[1] + t2[2] + t2[3] + t2[4] + t2[5] + t2[6] + t2[7];
            var total: int, steal: int := after - before, t2[7] - t1[7];
            && (Sub(Total(s2), Total(s1)) == total <==> total < 0x1_0000_0000_0000_0000)
            && (total < 0x1_0000_0000_0000_0000 ==>
                  Sub(s2.steal, s1.steal) == steal && IsShare(CalcStealPct(s1, s2), steal, total))
  {
    SumOfEight(t1);
    SumOfEight(t2);
    DeltasMatch(t1, t2);
    if Sum(t2) - Sum(t1) < TWO_TO_THE_64 {
      PctIsShare(Snapshot(t1), Snapshot(t2), t2[7] - t1[7], Sum(t2) - Sum(t1));
    }
  }

  lemma RatioWithinOne(a: nat, b: nat)
    requires a <= b && 0 < b
    ensures 0.0 <= a as real / b as real <= 1.0
  {
    QuotientAboveOne(a as real, b as real);
  }

  const UNREADABLE: CpuStat := CpuStat(0, 0, 0, 0, 0, 0, 0, 0)

  lemma {:induction false} TotalOfZeros(ws: seq<u64>)
    requires forall i :: 0 <= i < |ws| ==> ws[i] == 0
    ensures TotalOf(ws) == 0
  {
    if ws != [] {
      TotalOfZeros(ws[..|ws| - 1]);
      WrapSmall(0);
    }
  }

  /** A second snapshot that could not be read is all zeros; the percentage then leaves the range whenever
      some but not all of the time so far was stolen. */
  lemma {:induction false} FailedSecondRead(t: Ticks)
    requires Sum(t) < TWO_TO_THE_64
    ensures CalcStealPct(Snapshot(t), UNREADABLE) > 100.0 <==> 0 < t[7] < Sum(t)
  {
    var zeros := seq(8, _ => 0);
    SumMonotone(zeros, t);
    assert Sum(zeros) >= 0 && t[7] <= Sum(t);
    FailedDeltas(t);
    if 0 < Sum(t) {
      RatioAboveOne(if t[7] == 0 then 0 else TWO_TO_THE_64 - t[7], TWO_TO_THE_64 - Sum(t));
    }
  }

  /** Deltas down to zero are complements. */
  lemma {:induction false} FailedDeltas(t: Ticks)
    requires Sum(t) < TWO_TO_THE_64 && t[7] <= Sum(t)
    ensures Sub(Total(UNREADABLE), Total(Snapshot(t))) == if Sum(t) == 0 then 0 else TWO_TO_THE_64 - Sum(t)
    ensures Sub(UNREADABLE.steal, Snapshot(t).steal) == if t[7] == 0 then 0 else TWO_TO_THE_64 - t[7]
  {
    TotalOfWrapped(Counters(Snapshot(t)), t);
    TotalOfZeros(Counters(UNREADABLE));
    WrapSmall(Sum(t));
    WrapSmall(t[7]);
    WrapNegative(Sum(t));
    WrapNegative(t[7]);
  }

  lemma WrapNegative(x: int)
    requires 0 <= x < TWO_TO_THE_64
    ensures Wrap(-x) == if x == 0 then 0 else TWO_TO_THE_64 - x
  {
    WrapShift(-x, 1);
    if x > 0 { WrapSmall(TWO_TO_THE_64 - x); }
  }

  lemma QuotientAboveOne(x: real, y: real)
    requires y > 0.0
    ensures x / y > 1.0 <==> x > y
  {
    var q := x / y;
    assert q * y == x;
    if q > 1.0 {
      assert (q - 1.0) * y > 0.0;
    } else {
      assert (1.0 - q) * y >= 0.0;
    }
  }

  lemma RatioAboveOne(a: nat, b: nat)
    requires 0 < b
    ensures Share(a, b) > 100.0 <==> a > b
  {
    QuotientAboveOne(a as real, b as real);
  }
}
