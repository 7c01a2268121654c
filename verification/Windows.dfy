/**
 The aggregation windows of pkg/repository/influx.go.  Times are nanoseconds since the epoch, in
 UTC.  InfluxDB lays its windows from the epoch, shifted by an offset, and clips them to the range.
*/
module Windows {
  const DAY: int := 86_400_000_000_000

  /** Midnight of the day of `t`. */
  function StartOfDay(t: int): int { t / DAY * DAY }

  function AggregationWindowOffset(t: int): int { t - StartOfDay(t) }

  /** A window starts at `x`. */
  predicate IsBoundary(every: int, offset: int, x: int)
    requires every > 0
  {
    (x - offset) % every == 0
  }

  lemma MultipleOfMultiple(q: int, m: int, w: int)
    requires w > 0
    ensures (q * (m * w)) % w == 0
  {
    assert q * (m * w) == (q * m) * w;
    MultipleHasNoRest(q * m, w);
  }

  lemma NoMultipleBetween(k: int, w: int)
    requires w > 0
    ensures (k >= 1 ==> k * w >= w) && (k <= -1 ==> k * w <= -w)
  {
    if k >= 1 { assert k * w == (k - 1) * w + w; }
    if k <= -1 { assert k * w == (k + 1) * w - w; }
  }

  lemma MultipleHasNoRest(n: int, w: int)
    requires w > 0
    ensures (n * w) % w == 0
  {
    var x := n * w;
    var d, r := x / w, x % w;
    RestOf(n, w, x, d, r);
  }

  lemma RestOf(n: int, w: int, x: int, d: int, r: int)
    requires w > 0 && x == n * w && x == d * w + r && 0 <= r < w
    ensures r == 0
  {
    assert (n - d) * w == r;
    NoMultipleBetween(n - d, w);
  }

  /** The offset lies within a day; a window starts at the range's start, for every start, if and
      only if the window divides the day. */
  lemma OffsetAlignsIff(every: int)
    requires every > 0
    ensures forall t :: 0 <= AggregationWindowOffset(t) < DAY
    ensures (forall t :: IsBoundary(every, AggregationWindowOffset(t), t)) <==> DAY % every == 0
  {
    if DAY % every == 0 {
      var m := DAY / every;
      forall t ensures IsBoundary(every, AggregationWindowOffset(t), t) {
        MultipleOfMultiple(t / DAY, m, every);
      }
    } else {
      assert !IsBoundary(every, AggregationWindowOffset(DAY), DAY);
    }
  }

  /** The end of the window that holds `x`. */
  function WindowEnd(every: int, offset: int, x: int): (y: int)
    requires every > 0
    ensures x < y <= x + every
    ensures y == x + every <==> IsBoundary(every, offset, x)
  {
    x + every - (x - offset) % every
  }

  datatype Bucket = Bucket(start: int, stop: int)

  /** The windows clipped to [start, stop). */
  function Buckets(every: int, offset: int, start: int, stop: int): seq<Bucket>
    requires every > 0
    decreases stop - start
  {
    if start >= stop then [] else
    var end := WindowEnd(every, offset, start);
    if end >= stop then [Bucket(start, stop)] else [Bucket(start, end)] + Buckets(every, offset, end, stop)
  }

  /** The number of triggers in [lo, hi). */
  function Count(triggers: seq<int>, lo: int, hi: int): nat {
    if triggers == [] then 0 else (if lo <= triggers[0] < hi then 1 else 0) + Count(triggers[1..], lo, hi)
  }

  function Sum(counts: seq<int>): int {
    if counts == [] then 0 else counts[0] + Sum(counts[1..])
  }

  function CountAll(triggers: seq<int>, bs: seq<Bucket>): (r: seq<int>)
    ensures |r| == |bs|
  {
    seq(|bs|, i requires 0 <= i < |bs| => Count(triggers, bs[i].start, bs[i].stop))
  }

  lemma {:induction false} CountSplits(triggers: seq<int>, lo: int, mid: int, hi: int)
    requires lo <= mid <= hi
    ensures Count(triggers, lo, hi) == Count(triggers, lo, mid) + Count(triggers, mid, hi)
  {
    if triggers != [] { CountSplits(triggers[1..], lo, mid, hi); }
  }

  /** The triggers in [lo, hi). */
  function Within(triggers: seq<int>, lo: int, hi: int): set<nat> {
    set i | 0 <= i < |triggers| && lo <= triggers[i] < hi
  }

  lemma {:induction false} CountIsSize(triggers: seq<int>, lo: int, hi: int)
    ensures Count(triggers, lo, hi) == |Within(triggers, lo, hi)|
  {
    if triggers != [] {
      var rest := Within(triggers[1..], lo, hi);
      CountIsSize(triggers[1..], lo, hi);
      var shifted := set i | i in rest :: i + 1;
      ShiftKeepsSize(rest, shifted);
      var first := if lo <= triggers[0] < hi then {0} else {};
      assert Within(triggers, lo, hi) == first + shifted by {
        forall i: nat | i in Within(triggers, lo, hi) ensures i in first + shifted {
          if i > 0 { assert triggers[1..][i - 1] == triggers[i] && i - 1 in rest; }
        }
        forall i | i in shifted ensures i in Within(triggers, lo, hi) {
          assert i - 1 in rest && triggers[1..][i - 1] == triggers[i];
        }
      }
      assert first !! shifted;
    }
  }

  lemma {:induction false} ShiftKeepsSize(s: set<nat>, shifted: set<nat>)
    requires shifted == set i | i in s :: i + 1
    ensures |shifted| == |s|
    decreases s
  {
    if s != {} {
      var x :| x in s;
      var rest := set i | i in s - {x} :: i + 1;
      ShiftKeepsSize(s - {x}, rest);
      assert s == (s - {x}) + {x};
      assert shifted == rest + {x + 1} && x + 1 !in rest;
    }
  }

  /** The bucket counts add up to the number of triggers in the range, however windows are laid. */
  lemma {:induction false} CountsAddUp(triggers: seq<int>, every: int, offset: int, start: int, stop: int)
    requires every > 0 && start <= stop
    ensures Sum(CountAll(triggers, Buckets(every, offset, start, stop))) == |Within(triggers, start, stop)|
    decreases stop - start
  {
    CountIsSize(triggers, start, stop);
    var bs := Buckets(every, offset, start, stop);
    if start == stop {
      NothingIn(triggers, start);
    } else {
      assert CountAll(triggers, bs)[1..] == CountAll(triggers, bs[1..]);
      var end := WindowEnd(every, offset, start);
      if end < stop {
        CountSplits(triggers, start, end, stop);
        CountsAddUp(triggers, every, offset, end, stop);
        CountIsSize(triggers, end, stop);
      }
    }
  }

  lemma {:induction false} NothingIn(triggers: seq<int>, x: int)
    ensures Count(triggers, x, x) == 0
  {
    if triggers != [] { NothingIn(triggers[1..], x); }
  }

  /** The buckets follow each other from start to stop, and each but the last is a whole window. */
  predicate Tile(bs: seq<Bucket>, every: int, start: int, stop: int) {
    && bs != [] && bs[0].start == start && bs[|bs| - 1].stop == stop
    && (forall i | 0 <= i < |bs| - 1 :: bs[i].stop == bs[i].start + every == bs[i + 1].start)
    && bs[|bs| - 1].stop <= bs[|bs| - 1].start + every
  }

  lemma {:induction false} BucketsTile(every: int, offset: int, start: int, stop: int)
    requires every > 0 && IsBoundary(every, offset, start) && start < stop
    ensures Tile(Buckets(every, offset, start, stop), every, start, stop)
    decreases stop - start
  {
    var end := WindowEnd(every, offset, start);
    if end < stop {
      NextBoundary(every, start - offset);
      BucketsTile(every, offset, end, stop);
    }
  }

  /** With the offset of the start and a window that divides the day, the clipped windows of the range
      are whole but for the last; an empty range has none. */
  lemma BucketsAreWhole(every: int, start: int, stop: int)
    requires every > 0 && DAY % every == 0
    ensures var bs := Buckets(every, AggregationWindowOffset(start), start, stop);
            if start < stop then Tile(bs, every, start, stop) else bs == []
  {
    OffsetAlignsIff(every);
    if start < stop { BucketsTile(every, AggregationWindowOffset(start), start, stop); }
  }

  lemma NextBoundary(every: int, d: int)
    requires every > 0 && d % every == 0
    ensures (d + every) % every == 0
  {
    var n := d / every;
    assert d + every == (n + 1) * every;
    MultipleHasNoRest(n + 1, every);
  }

  /* ---- The response ---- */

  /** Go's int32 conversion. */
  function Int32(x: int): (r: int)
    ensures -0x8000_0000 <= r < 0x8000_0000
    ensures -0x8000_0000 <= x < 0x8000_0000 ==> r == x
  {
    (x + 0x8000_0000) % 0x1_0000_0000 - 0x8000_0000
  }

  function Narrow(counts: seq<int>): (r: seq<int>)
    ensures |r| == |counts| && forall i | 0 <= i < |counts| :: r[i] == Int32(counts[i])
  {
    seq(|counts|, i requires 0 <= i < |counts| => Int32(counts[i]))
  }

  /** The result loop over the windows' times and counts.  A record without an integer value counts as zero. */
  method CollectChart(stamps: seq<int>, values: seq<int>) returns (times: seq<int>, counts: seq<int>)
    requires |stamps| == |values|
    ensures times == stamps && counts == Narrow(values)
  {
    times, counts := [], [];
    var i := 0;
    while i < |stamps|
      invariant 0 <= i <= |stamps| && times == stamps[..i] && counts == Narrow(values)[..i]
    {
      times := times + [stamps[i]];
      counts := counts + [Int32(values[i])];
      i := i + 1;
    }
  }

  lemma {:induction false} CountAtMost(triggers: seq<int>, lo: int, hi: int)
    ensures Count(triggers, lo, hi) <= |triggers|
  {
    if triggers != [] { CountAtMost(triggers[1..], lo, hi); }
  }

  /** The counts of a chart add up to the number of triggers in the range, if there are fewer than
      2^31 of them, wherever its windows lie. */
  lemma ChartAddsUp(triggers: seq<int>, every: int, offset: int, start: int, stop: int)
    requires every > 0 && start <= stop && |triggers| < 0x8000_0000
    ensures var full := CountAll(triggers, Buckets(every, offset, start, stop));
            && Sum(Narrow(full)) == |Within(triggers, start, stop)|
            && forall i | 0 <= i < |full| ::
                 var b := Buckets(every, offset, start, stop)[i]; Narrow(full)[i] == |Within(triggers, b.start, b.stop)|
  {
    var bs := Buckets(every, offset, start, stop);
    var full := CountAll(triggers, bs);
    forall i | 0 <= i < |full|
      ensures Narrow(full)[i] == full[i] == |Within(triggers, bs[i].start, bs[i].stop)|
    {
      CountAtMost(triggers, bs[i].start, bs[i].stop);
      CountIsSize(triggers, bs[i].start, bs[i].stop);
    }
    assert Narrow(full) == full;
    CountsAddUp(triggers, every, offset, start, stop);
  }
}
