/** Round-robin metrics (backend/monitoring.go): ring buffers of time buckets, one per resolution, and latency
    histograms. Times are Unix seconds, values are reals, counters do not wrap around. */
module Monitoring {
  datatype Sample<T> = Sample(timestamp: nat, value: T)

  /** How a further sample changes its bucket: the value so far, the sample, and its offset in the bucket. */
  type Combine<!T> = (T, T, nat) -> T

  function Aligned(timestamp: nat, resolution: nat): nat
    requires 0 < resolution
  {
    timestamp / resolution * resolution
  }

  /** The slots of a ring after one more sample, oldest first. */
  function Ingested<T>(slots: seq<Sample<T>>, resolution: nat, combine: Combine<T>, s: Sample<T>): (next: seq<Sample<T>>)
    requires slots != [] && 0 < resolution
    ensures |next| == |slots|
  {
    var last, start := slots[|slots| - 1], Aligned(s.timestamp, resolution);
    if last.timestamp == start then slots[|slots| - 1 := Sample(start, combine(last.value, s.value, s.timestamp - start))]
    else slots[1..] + [Sample(start, s.value)]
  }

  function Rolled<T>(slots: seq<Sample<T>>, resolution: nat, combine: Combine<T>, samples: seq<Sample<T>>): (next: seq<Sample<T>>)
    requires slots != [] && 0 < resolution
    ensures |next| == |slots|
    decreases |samples|
  {
    if samples == [] then slots
    else Ingested(Rolled(slots, resolution, combine, samples[..|samples| - 1]), resolution, combine, samples[|samples| - 1])
  }

  function WithSample<T>(buckets: seq<Sample<T>>, resolution: nat, combine: Combine<T>, s: Sample<T>): seq<Sample<T>>
    requires 0 < resolution
  {
    var start := Aligned(s.timestamp, resolution);
    if buckets != [] && buckets[|buckets| - 1].timestamp == start
    then buckets[|buckets| - 1 := Sample(start, combine(buckets[|buckets| - 1].value, s.value, s.timestamp - start))]
    else buckets + [Sample(start, s.value)]
  }

  /** The buckets of all samples, with no bound on their number. */
  function Buckets<T>(resolution: nat, combine: Combine<T>, samples: seq<Sample<T>>): seq<Sample<T>>
    requires 0 < resolution
    decreases |samples|
  {
    if samples == [] then []
    else WithSample(Buckets(resolution, combine, samples[..|samples| - 1]), resolution, combine, samples[|samples| - 1])
  }

  function Suffix<T>(all: seq<T>, n: nat): (end: seq<T>)
    requires n <= |all|
    ensures |end| == n
  {
    all[|all| - n..]
  }

  /** A used slot has a positive time. */
  function Used<T>(slots: seq<Sample<T>>): seq<Sample<T>> {
    if slots == [] then []
    else (if slots[0].timestamp > 0 then [slots[0]] else []) + Used(slots[1..])
  }

  ghost predicate Blank<T>(slots: seq<Sample<T>>) {
    forall i :: 0 <= i < |slots| ==> slots[i].timestamp == 0
  }

  /** Bucket times are the multiples of the resolution, and a sample belongs to the last one at or before it. */
  lemma AlignedIsAMultiple(timestamp: nat, resolution: nat, start: nat)
    requires 0 < resolution
    ensures Aligned(timestamp, resolution) == start
       <==> exists q: nat :: start == q * resolution <= timestamp < (q + 1) * resolution
  {
    var p := timestamp / resolution;
    assert p * resolution <= timestamp < (p + 1) * resolution;
    if q: nat :| start == q * resolution <= timestamp < (q + 1) * resolution {
      LargerFactor(p, q, resolution);
      LargerFactor(q, p, resolution);
    }
  }

  lemma AlignedIsPositive(timestamp: nat, resolution: nat)
    requires 0 < resolution <= timestamp
    ensures 0 < Aligned(timestamp, resolution) <= timestamp < Aligned(timestamp, resolution) + resolution
  {
    assert timestamp / resolution >= 1;
    assert Aligned(timestamp, resolution) >= resolution;
    assert timestamp == timestamp / resolution * resolution + timestamp % resolution;
  }

  lemma SuffixOfMore<T>(all: seq<T>, n: nat, x: T)
    requires 0 < n <= |all|
    ensures Suffix(all + [x], n) == Suffix(all, n)[1..] + [x]
    ensures Suffix(all[|all| - 1 := x], n) == Suffix(all, n)[n - 1 := x]
    ensures Suffix(all, n)[n - 1] == all[|all| - 1]
  {
  }

  lemma EndOfJoined<T>(blank: seq<T>, rest: seq<T>, x: T)
    ensures blank + (rest + [x]) == blank + rest + [x]
    ensures rest != [] ==> blank + rest[|rest| - 1 := x] == (blank + rest)[|blank + rest| - 1 := x]
  {
  }

  /** The ring is the end of the unbounded list of buckets. */
  lemma {:induction false} RingIsTheEnd<T>(blank: seq<Sample<T>>, resolution: nat, combine: Combine<T>, samples: seq<Sample<T>>)
    requires blank != [] && Blank(blank) && 0 < resolution
    requires forall i :: 0 <= i < |samples| ==> resolution <= samples[i].timestamp
    ensures Rolled(blank, resolution, combine, samples) == Suffix(blank + Buckets(resolution, combine, samples), |blank|)
    decreases |samples|
  {
    if samples != [] {
      var init, s := samples[..|samples| - 1], samples[|samples| - 1];
      RingIsTheEnd(blank, resolution, combine, init);
      OneMoreSample(blank, Buckets(resolution, combine, init), resolution, combine, s);
      assert Buckets(resolution, combine, samples) == WithSample(Buckets(resolution, combine, init), resolution, combine, s);
    } else {
      assert blank + [] == blank;
    }
  }

  lemma OneMoreSample<T>(blank: seq<Sample<T>>, rest: seq<Sample<T>>, resolution: nat, combine: Combine<T>, s: Sample<T>)
    requires blank != [] && Blank(blank) && 0 < resolution <= s.timestamp
    ensures Ingested(Suffix(blank + rest, |blank|), resolution, combine, s)
         == Suffix(blank + WithSample(rest, resolution, combine, s), |blank|)
  {
    AlignedIsPositive(s.timestamp, resolution);
    hide Aligned, Suffix;
    var start, all := Aligned(s.timestamp, resolution), blank + rest;
    var last := all[|all| - 1];
    assert last == if rest == [] then blank[|blank| - 1] else rest[|rest| - 1];
    var x := if last.timestamp == start then Sample(start, combine(last.value, s.value, s.timestamp - start)) else Sample(start, s.value);
    SuffixOfMore(all, |blank|, x);
    EndOfJoined(blank, rest, x);
  }

  lemma {:induction false} UsedOfBuckets<T>(resolution: nat, combine: Combine<T>, samples: seq<Sample<T>>)
    requires 0 < resolution && forall i :: 0 <= i < |samples| ==> resolution <= samples[i].timestamp
    ensures forall i :: 0 <= i < |Buckets(resolution, combine, samples)| ==> Buckets(resolution, combine, samples)[i].timestamp > 0
    decreases |samples|
  {
    if samples != [] {
      UsedOfBuckets(resolution, combine, samples[..|samples| - 1]);
      AlignedIsPositive(samples[|samples| - 1].timestamp, resolution);
    }
  }

  lemma {:induction false} UsedSkipsBlanks<T>(blank: seq<Sample<T>>, rest: seq<Sample<T>>)
    requires Blank(blank) && forall i :: 0 <= i < |rest| ==> rest[i].timestamp > 0
    ensures Used(blank + rest) == rest
    decreases |blank| + |rest|
  {
    hide Used;
    if blank != [] {
      UsedCons(blank[0], blank[1..] + rest);
      assert blank + rest == [blank[0]] + (blank[1..] + rest);
      UsedSkipsBlanks(blank[1..], rest);
    } else if rest != [] {
      UsedCons(rest[0], rest[1..]);
      assert blank + rest == rest == [rest[0]] + rest[1..] && [] + rest[1..] == rest[1..];
      UsedSkipsBlanks([], rest[1..]);
    } else {
      NoneUsed<T>();
    }
  }

  lemma UsedCons<T>(s: Sample<T>, rest: seq<Sample<T>>)
    ensures Used([s] + rest) == (if s.timestamp > 0 then [s] else []) + Used(rest)
  {
    assert ([s] + rest)[1..] == rest;
  }

  lemma NoneUsed<T>()
    ensures Used<T>([] + []) == []
  {
  }

  /** Whatever was ingested, the points read are the latest buckets, as many as the ring has room for, in order. */
  lemma PointsAreTheLatestBuckets<T>(blank: seq<Sample<T>>, resolution: nat, combine: Combine<T>, samples: seq<Sample<T>>)
    requires blank != [] && Blank(blank) && 0 < resolution
    requires forall i :: 0 <= i < |samples| ==> resolution <= samples[i].timestamp
    ensures var all := Buckets(resolution, combine, samples);
      Used(Rolled(blank, resolution, combine, samples)) == if |all| <= |blank| then all else Suffix(all, |blank|)
  {
    hide Used, Rolled, Buckets;
    var all := Buckets(resolution, combine, samples);
    RingIsTheEnd(blank, resolution, combine, samples);
    UsedOfBuckets(resolution, combine, samples);
    if |all| <= |blank| {
      assert Suffix(blank + all, |blank|) == blank[|all|..] + all;
      UsedSkipsBlanks(blank[|all|..], all);
    } else {
      assert Suffix(blank + all, |blank|) == [] + Suffix(all, |blank|);
      UsedSkipsBlanks([], Suffix(all, |blank|));
    }
  }

  // ---- What a bucket holds ----

  function InBucket<T>(samples: seq<Sample<T>>, resolution: nat, start: nat): seq<Sample<T>>
    requires 0 < resolution
    decreases |samples|
  {
    if samples == [] then []
    else InBucket(samples[..|samples| - 1], resolution, start) +
         if Aligned(samples[|samples| - 1].timestamp, resolution) == start then [samples[|samples| - 1]] else []
  }

  /** The samples of one bucket, combined in the order they came. */
  function Fold<T>(combine: Combine<T>, samples: seq<Sample<T>>, start: nat): T
    requires samples != [] && forall i :: 0 <= i < |samples| ==> start <= samples[i].timestamp
    decreases |samples|
  {
    var s := samples[|samples| - 1];
    if |samples| == 1 then s.value
    else combine(Fold(combine, samples[..|samples| - 1], start), s.value, s.timestamp - start)
  }

  ghost predicate InOrder<T>(samples: seq<Sample<T>>) {
    forall i, j :: 0 <= i < j < |samples| ==> samples[i].timestamp <= samples[j].timestamp
  }

  lemma LargerFactor(x: nat, y: nat, m: nat)
    ensures x <= y ==> x * m <= y * m
    ensures x * m < (y + 1) * m ==> x <= y
  {
    if y + 1 <= x {
      assert x * m == (y + 1) * m + (x - y - 1) * m;
    }
  }

  lemma AlignedIsMonotone(a: nat, b: nat, resolution: nat)
    requires 0 < resolution && a <= b
    ensures Aligned(a, resolution) <= Aligned(b, resolution) && Aligned(a, resolution) <= a
  {
    var q, r := a / resolution, b / resolution;
    assert q * resolution <= a && b < (r + 1) * resolution;
    LargerFactor(q, r, resolution);
  }

  lemma {:induction false} BucketMembers<T>(samples: seq<Sample<T>>, resolution: nat, start: nat)
    requires 0 < resolution
    ensures forall i :: 0 <= i < |InBucket(samples, resolution, start)| ==>
              start == Aligned(InBucket(samples, resolution, start)[i].timestamp, resolution) <= InBucket(samples, resolution, start)[i].timestamp
    decreases |samples|
  {
    if samples != [] {
      BucketMembers(samples[..|samples| - 1], resolution, start);
      var t := samples[|samples| - 1].timestamp;
      AlignedIsMonotone(t, t, resolution);
    }
  }

  ghost predicate HoldsItsSamples<T>(b: Sample<T>, resolution: nat, combine: Combine<T>, samples: seq<Sample<T>>)
    requires 0 < resolution
  {
    var mine := InBucket(samples, resolution, b.timestamp);
    && mine != []
    && (forall i :: 0 <= i < |mine| ==> b.timestamp <= mine[i].timestamp)
    && b.value == Fold(combine, mine, b.timestamp)
  }

  lemma OtherBucketStays<T>(b: Sample<T>, init: seq<Sample<T>>, s: Sample<T>, resolution: nat, combine: Combine<T>)
    requires 0 < resolution && HoldsItsSamples(b, resolution, combine, init) && b.timestamp != Aligned(s.timestamp, resolution)
    ensures HoldsItsSamples(b, resolution, combine, init + [s])
  {
    assert (init + [s])[..|init|] == init;
    assert InBucket(init + [s], resolution, b.timestamp) == InBucket(init, resolution, b.timestamp);
  }

  lemma BucketGrows<T>(b: Sample<T>, init: seq<Sample<T>>, s: Sample<T>, resolution: nat, combine: Combine<T>)
    requires 0 < resolution && HoldsItsSamples(b, resolution, combine, init) && b.timestamp == Aligned(s.timestamp, resolution)
    ensures b.timestamp <= s.timestamp
    ensures HoldsItsSamples(Sample(b.timestamp, combine(b.value, s.value, s.timestamp - b.timestamp)), resolution, combine, init + [s])
  {
    assert (init + [s])[..|init|] == init;
    AlignedIsMonotone(s.timestamp, s.timestamp, resolution);
    var mine := InBucket(init, resolution, b.timestamp);
    assert InBucket(init + [s], resolution, b.timestamp) == mine + [s] && (mine + [s])[..|mine|] == mine;
  }

  lemma BucketOpens<T>(init: seq<Sample<T>>, s: Sample<T>, resolution: nat, combine: Combine<T>)
    requires 0 < resolution
    requires forall i :: 0 <= i < |init| ==> Aligned(init[i].timestamp, resolution) < Aligned(s.timestamp, resolution)
    ensures HoldsItsSamples(Sample(Aligned(s.timestamp, resolution), s.value), resolution, combine, init + [s])
  {
    assert (init + [s])[..|init|] == init;
    AlignedIsMonotone(s.timestamp, s.timestamp, resolution);
    NoneYet(init, resolution, Aligned(s.timestamp, resolution));
    assert InBucket(init + [s], resolution, Aligned(s.timestamp, resolution)) == [s];
  }

  lemma {:induction false} NoneYet<T>(samples: seq<Sample<T>>, resolution: nat, start: nat)
    requires 0 < resolution
    requires forall i :: 0 <= i < |samples| ==> Aligned(samples[i].timestamp, resolution) < start
    ensures InBucket(samples, resolution, start) == []
    decreases |samples|
  {
    if samples != [] {
      NoneYet(samples[..|samples| - 1], resolution, start);
    }
  }

  /** The buckets come in the order of their times, up to the last sample's, and each holds its samples. */
  ghost predicate Sound<T>(all: seq<Sample<T>>, resolution: nat, combine: Combine<T>, samples: seq<Sample<T>>)
    requires 0 < resolution
  {
    && (all == [] <==> samples == [])
    && (samples != [] ==> all[|all| - 1].timestamp == Aligned(samples[|samples| - 1].timestamp, resolution))
    && (forall i, j :: 0 <= i < j < |all| ==> all[i].timestamp < all[j].timestamp)
    && (forall i :: 0 <= i < |all| ==> HoldsItsSamples(all[i], resolution, combine, samples))
  }

  lemma SoundWithSample<T>(before: seq<Sample<T>>, init: seq<Sample<T>>, s: Sample<T>, resolution: nat, combine: Combine<T>)
    requires 0 < resolution && Sound(before, resolution, combine, init) && InOrder(init + [s])
    ensures Sound(WithSample(before, resolution, combine, s), resolution, combine, init + [s])
  {
    hide HoldsItsSamples, Aligned;
    var samples, all, start := init + [s], WithSample(before, resolution, combine, s), Aligned(s.timestamp, resolution);
    var n := |before| - 1;
    forall i | 0 <= i < |init|
      ensures Aligned(init[i].timestamp, resolution) <= (if init == [] then start else before[n].timestamp) <= start
    {
      assert samples[i] == init[i] && samples[|init| - 1] == init[|init| - 1] && samples[|init|] == s;
      AlignedIsMonotone(init[i].timestamp, init[|init| - 1].timestamp, resolution);
      AlignedIsMonotone(init[|init| - 1].timestamp, s.timestamp, resolution);
    }
    if init != [] {
      assert Aligned(init[0].timestamp, resolution) <= before[n].timestamp <= start;
    }
    forall i | 0 <= i < |all|
      ensures HoldsItsSamples(all[i], resolution, combine, samples)
    {
      if i < |all| - 1 {
        assert all[i] == before[i];
        OtherBucketStays(before[i], init, s, resolution, combine);
      } else if before != [] && before[n].timestamp == start {
        BucketGrows(before[n], init, s, resolution, combine);
      } else {
        BucketOpens(init, s, resolution, combine);
      }
    }
  }

  /** Samples that come in order fill one bucket per time, later buckets for later times, and each bucket is exactly
      its samples combined. */
  lemma {:induction false} BucketsAreFolds<T>(samples: seq<Sample<T>>, resolution: nat, combine: Combine<T>)
    requires 0 < resolution && InOrder(samples)
    ensures Sound(Buckets(resolution, combine, samples), resolution, combine, samples)
    decreases |samples|
  {
    if samples != [] {
      var init, s := samples[..|samples| - 1], samples[|samples| - 1];
      assert samples == init + [s];
      BucketsAreFolds(init, resolution, combine);
      SoundWithSample(Buckets(resolution, combine, init), init, s, resolution, combine);
    }
  }
  // ---- How samples combine ----

  function Latest<T>(before: T, value: T, offset: nat): T {
    value
  }

  function Plus(before: real, value: real, offset: nat): real {
    before + value
  }

  /** The running average takes the minute of the bucket for the number of the sample. */
  function RunningAverage(before: real, value: real, offset: nat): real {
    var n := (offset / 60 + 1) as real;
    (before * (n - 1.0) + value) / n
  }

  function Total(samples: seq<Sample<real>>): real
    decreases |samples|
  {
    if samples == [] then 0.0 else Total(samples[..|samples| - 1]) + samples[|samples| - 1].value
  }

  lemma {:induction false} SummedBucketIsTheTotal(samples: seq<Sample<real>>, start: nat)
    requires samples != [] && forall i :: 0 <= i < |samples| ==> start <= samples[i].timestamp
    ensures Fold(Plus, samples, start) == Total(samples)
    decreases |samples|
  {
    if |samples| > 1 {
      SummedBucketIsTheTotal(samples[..|samples| - 1], start);
    } else {
      assert Total(samples[..0]) == 0.0;
    }
  }

  /** No amount is lost or counted twice between buckets, in whatever order samples come. */
  lemma {:induction false} SumsAreConserved(samples: seq<Sample<real>>, resolution: nat)
    requires 0 < resolution
    ensures Total(Buckets(resolution, Plus, samples)) == Total(samples)
    decreases |samples|
  {
    if samples != [] {
      var before, all := Buckets(resolution, Plus, samples[..|samples| - 1]), Buckets(resolution, Plus, samples);
      SumsAreConserved(samples[..|samples| - 1], resolution);
      if |all| == |before| {
        assert all[..|all| - 1] == before[..|before| - 1];
      } else {
        assert all[..|all| - 1] == before;
      }
    }
  }

  lemma Average(x: real, n: real)
    requires n > 0.0
    ensures x / n * n == x
  {
  }

  /** One more sample after m of them: the running average is the mean exactly if it is taken for sample number m + 1,
      or does not differ from the mean so far. */
  lemma RunningAverageIsMeanIff(mean: real, m: nat, value: real, offset: nat)
    requires 0 < m
    ensures RunningAverage(mean, value, offset) == (mean * (m as real) + value) / (m as real + 1.0)
       <==> offset / 60 == m || value == mean
  {
    var n, k := (offset / 60 + 1) as real, m as real + 1.0;
    var x, y := RunningAverage(mean, value, offset), (mean * (m as real) + value) / k;
    Average(mean * (n - 1.0) + value, n);
    Average(mean * (m as real) + value, k);
    assert (x - mean) * n == value - mean;
    assert (y - mean) * k == value - mean;
    if value == mean {
      NoFactor(x - mean, n);
      NoFactor(y - mean, k);
    } else if n == k {
      NoFactor(x - y, n);
    } else if x == y {
      assert (x - mean) * n - (x - mean) * k == (x - mean) * (n - k);
      NoProduct(x - mean, n - k);
    }
  }

  lemma NoFactor(d: real, n: real)
    requires d * n == 0.0 && n > 0.0
    ensures d == 0.0
  {
  }

  lemma NoProduct(d: real, e: real)
    ensures d * e == 0.0 ==> d == 0.0 || e == 0.0
  {
  }

  lemma NextMean(before: real, value: real, offset: nat, k: real)
    requires (offset / 60 + 1) as real == k
    ensures RunningAverage(before, value, offset) * k == before * (k - 1.0) + value
  {
    Average(before * (k - 1.0) + value, k);
  }

  /** A bucket that got one sample in each of its minutes so far holds their mean. */
  lemma {:induction false} AveragedBucketIsTheMean(samples: seq<Sample<real>>, start: nat)
    requires samples != [] && forall i :: 0 <= i < |samples| ==> start <= samples[i].timestamp
    requires forall i :: 0 <= i < |samples| ==> (samples[i].timestamp - start) / 60 == i
    ensures Fold(RunningAverage, samples, start) * (|samples| as real) == Total(samples)
    decreases |samples|
  {
    hide RunningAverage;
    var init, s := samples[..|samples| - 1], samples[|samples| - 1];
    if |samples| > 1 {
      AveragedBucketIsTheMean(init, start);
      NextMean(Fold(RunningAverage, init, start), s.value, s.timestamp - start, |samples| as real);
      assert |samples| as real - 1.0 == |init| as real;
    } else {
      assert Total(init) == 0.0;
    }
  }

  // ---- Latency histograms ----

  const LATENCY_BUCKETS := 101
  const BUCKET_MS := 50

  datatype Tally = Tally(buckets: seq<nat>, count: nat, sum: nat)

  type Latencies = t: Tally | |t.buckets| == LATENCY_BUCKETS witness Tally(Zeros(LATENCY_BUCKETS), 0, 0)

  function Zeros(n: nat): (zeros: seq<nat>)
    ensures |zeros| == n && forall i :: 0 <= i < n ==> zeros[i] == 0
  {
    if n == 0 then [] else Zeros(n - 1) + [0]
  }

  /** Two rows of counters, added one by one. */
  function Added(xs: seq<nat>, ys: seq<nat>): (sums: seq<nat>)
    requires |xs| == |ys|
    ensures |sums| == |xs| && forall i :: 0 <= i < |xs| ==> sums[i] == xs[i] + ys[i]
  {
    if xs == [] then [] else Added(xs[..|xs| - 1], ys[..|ys| - 1]) + [xs[|xs| - 1] + ys[|ys| - 1]]
  }

  function Slot(ms: nat): (i: nat)
    ensures i < LATENCY_BUCKETS
    ensures InRange(ms, i)
  {
    if ms / BUCKET_MS >= LATENCY_BUCKETS then LATENCY_BUCKETS - 1 else ms / BUCKET_MS
  }

  /** A bucket spans 50 milliseconds; the last takes all from five seconds on. */
  predicate InRange(ms: nat, i: nat) {
    50 * i <= ms && (ms < 50 * i + 50 || i == 100) && i <= 100
  }

  function HowMany(durations: seq<nat>, i: nat): nat
    decreases |durations|
  {
    if durations == [] then 0
    else HowMany(durations[..|durations| - 1], i) + if InRange(durations[|durations| - 1], i) then 1 else 0
  }

  /** Every bucket counts the observations of its range, and the sum is their total. */
  lemma {:induction false} BucketsCountTheirRanges(durations: seq<nat>, i: nat)
    requires i < LATENCY_BUCKETS
    ensures TallyOf(durations).buckets[i] == HowMany(durations, i)
    ensures TallyOf(durations).sum == Sum(durations)
    decreases |durations|
  {
    if durations != [] {
      var init, ms := durations[..|durations| - 1], durations[|durations| - 1];
      BucketsCountTheirRanges(init, i);
      assert InRange(ms, i) <==> i == Slot(ms);
    }
  }

  function Observed(t: Latencies, ms: nat): Latencies {
    Tally(t.buckets[Slot(ms) := t.buckets[Slot(ms)] + 1], t.count + 1, t.sum + ms)
  }

  function TallyOf(durations: seq<nat>): Latencies
    decreases |durations|
  {
    if durations == [] then Tally(Zeros(LATENCY_BUCKETS), 0, 0) else Observed(TallyOf(durations[..|durations| - 1]), durations[|durations| - 1])
  }

  function Merged(a: Latencies, b: Latencies, offset: nat): Latencies {
    Tally(Added(a.buckets, b.buckets), a.count + b.count, a.sum + b.sum)
  }

  lemma AddedWithOneMore(xs: seq<nat>, ys: seq<nat>, i: nat)
    requires |xs| == |ys| && i < |ys|
    ensures Added(xs, ys[i := ys[i] + 1]) == Added(xs, ys)[i := Added(xs, ys)[i] + 1]
  {
    hide Added;
    var more, sums := Added(xs, ys[i := ys[i] + 1]), Added(xs, ys);
    forall j | 0 <= j < |xs|
      ensures more[j] == sums[i := sums[i] + 1][j]
    {
    }
  }

  lemma ObservedAfterMerge(a: Latencies, b: Latencies, ms: nat, offset: nat)
    ensures Merged(a, Observed(b, ms), offset) == Observed(Merged(a, b, offset), ms)
  {
    AddedWithOneMore(a.buckets, b.buckets, Slot(ms));
  }

  /** Merging two histograms is the histogram of all their observations. */
  lemma {:induction false} MergingIsObservingAll(xs: seq<nat>, ys: seq<nat>, offset: nat)
    ensures Merged(TallyOf(xs), TallyOf(ys), offset) == TallyOf(xs + ys)
    decreases |ys|
  {
    hide Merged, Observed, Zeros;
    if ys == [] {
      assert xs + ys == xs;
      MergedWithNothing(TallyOf(xs), offset);
    } else {
      var init, ms := ys[..|ys| - 1], ys[|ys| - 1];
      assert (xs + ys)[..|xs + ys| - 1] == xs + init;
      MergingIsObservingAll(xs, init, offset);
      ObservedAfterMerge(TallyOf(xs), TallyOf(init), ms, offset);
    }
  }

  lemma MergedWithNothing(t: Latencies, offset: nat)
    ensures Merged(t, Tally(Zeros(LATENCY_BUCKETS), 0, 0), offset) == t
  {
    hide Added, Zeros;
    var sums := Added(t.buckets, Zeros(LATENCY_BUCKETS));
    forall j | 0 <= j < LATENCY_BUCKETS
      ensures sums[j] == t.buckets[j]
    {
    }
    assert sums == t.buckets;
  }

  function Sum(counts: seq<nat>): nat {
    if counts == [] then 0 else Sum(counts[..|counts| - 1]) + counts[|counts| - 1]
  }

  lemma {:induction false} SumWithOneMore(counts: seq<nat>, i: nat)
    requires i < |counts|
    ensures Sum(counts[i := counts[i] + 1]) == Sum(counts) + 1
    decreases |counts|
  {
    var next := counts[i := counts[i] + 1];
    if i < |counts| - 1 {
      SumWithOneMore(counts[..|counts| - 1], i);
      assert next[..|counts| - 1] == counts[..|counts| - 1][i := counts[i] + 1];
    } else {
      assert next[..|counts| - 1] == counts[..|counts| - 1];
    }
  }

  lemma {:induction false} SumOfNothing(n: nat)
    ensures Sum(Zeros(n)) == 0
  {
    if n > 0 {
      SumOfNothing(n - 1);
      assert Zeros(n)[..n - 1] == Zeros(n - 1);
    }
  }

  /** Every observation is in exactly one bucket. */
  lemma {:induction false} CountIsTheSumOfBuckets(durations: seq<nat>)
    ensures TallyOf(durations).count == |durations| == Sum(TallyOf(durations).buckets)
    decreases |durations|
  {
    if durations == [] {
      SumOfNothing(LATENCY_BUCKETS);
    } else {
      var init := durations[..|durations| - 1];
      CountIsTheSumOfBuckets(init);
      SumWithOneMore(TallyOf(init).buckets, Slot(durations[|durations| - 1]));
    }
  }

  function Concat(parts: seq<seq<nat>>): seq<nat>
    decreases |parts|
  {
    if parts == [] then [] else Concat(parts[..|parts| - 1]) + parts[|parts| - 1]
  }

  /** A latency bucket is the histogram of everything observed in its time. */
  lemma {:induction false} MergedBucketIsTheHistogram(samples: seq<Sample<Latencies>>, parts: seq<seq<nat>>, start: nat)
    requires samples != [] && |parts| == |samples| && forall i :: 0 <= i < |samples| ==> start <= samples[i].timestamp
    requires forall i :: 0 <= i < |samples| ==> samples[i].value == TallyOf(parts[i])
    ensures Fold(Merged, samples, start) == TallyOf(Concat(parts))
    decreases |samples|
  {
    hide Merged, Observed;
    var n := |samples| - 1;
    if n > 0 {
      MergedBucketIsTheHistogram(samples[..n], parts[..n], start);
      MergingIsObservingAll(Concat(parts[..n]), parts[n], samples[n].timestamp - start);
    } else {
      assert Concat(parts[..0]) == [] && [] + parts[0] == parts[0];
    }
  }

  // ---- The buffers ----

  class Histogram {
    const buckets: array<nat>
    var count: nat
    var sum: nat

    ghost predicate Valid() {
      buckets.Length == LATENCY_BUCKETS
    }

    ghost function Value(): Latencies
      requires Valid()
      reads this, buckets
    {
      Tally(buckets[..], count, sum)
    }

    constructor ()
      ensures Valid() && fresh(buckets) && Value() == TallyOf([])
    {
      buckets := new nat[LATENCY_BUCKETS](_ => 0);
      count, sum := 0, 0;
      new;
      assert buckets[..] == Zeros(LATENCY_BUCKETS);
    }

    method Add(ms: nat)
      requires Valid()
      modifies this, buckets
      ensures Value() == Observed(old(Value()), ms)
    {
      var i := Slot(ms);
      buckets[i] := buckets[i] + 1;
      count, sum := count + 1, sum + ms;
    }

    method Merge(other: Histogram?)
      requires Valid() && (other != null ==> other.Valid())
      modifies this, buckets
      ensures Value() == if other == null then old(Value()) else Merged(old(Value()), old(other.Value()), 0)
    {
      if other == null {
        return;
      }
      ghost var theirs := other.buckets[..];
      for i := 0 to LATENCY_BUCKETS
        invariant forall j :: 0 <= j < i ==> buckets[j] == old(buckets[j]) + theirs[j]
        invariant forall j :: i <= j < LATENCY_BUCKETS ==> buckets[j] == old(buckets[j]) && other.buckets[j] == theirs[j]
        invariant count == old(count) && sum == old(sum)
      {
        buckets[i] := buckets[i] + other.buckets[i];
      }
      assert buckets[..] == Added(old(buckets[..]), theirs);
      count, sum := count + other.count, sum + other.sum;
    }
  }

  function Rotated<T>(data: seq<T>, head: nat): (r: seq<T>)
    requires head < |data|
    ensures |r| == |data|
    ensures forall k :: 0 <= k < |data| ==> r[k] == data[if head + k < |data| then head + k else head + k - |data|]
  {
    data[head..] + data[..head]
  }

  /** Positions in a ring. */
  function Wrap(x: nat, n: nat): (i: nat)
    requires x < 2 * n
    ensures i == if x < n then x else x - n
  {
    WrapsOnce(x, n);
    x % n
  }

  lemma QuotientBelowTwo(x: nat, q: nat, n: nat)
    requires q * n <= x < (q + 1) * n && x < 2 * n
    ensures q == if x < n then 0 else 1
  {
    LargerFactor(q, 0, n);
    LargerFactor(q, 1, n);
    LargerFactor(1, q, n);
  }

  lemma DivisionBounds(x: nat, n: nat)
    requires 0 < n
    ensures x == x / n * n + x % n && x / n * n <= x < (x / n + 1) * n
  {
  }

  lemma WrapsOnce(x: nat, n: nat)
    requires x < 2 * n
    ensures x % n == if x < n then x else x - n
  {
    DivisionBounds(x, n);
    QuotientBelowTwo(x, x / n, n);
  }

  lemma RotatedPush<T>(data: seq<T>, head: nat, x: T)
    requires head < |data|
    ensures Rotated(data[head := x], if head + 1 == |data| then 0 else head + 1) == Rotated(data, head)[1..] + [x]
  {
    hide Rotated;
    var next, was := Rotated(data[head := x], if head + 1 == |data| then 0 else head + 1), Rotated(data, head);
    forall k | 0 <= k < |data|
      ensures next[k] == (was[1..] + [x])[k]
    {
    }
  }

  class RingBuffer<T> {
    const resolution: nat
    const data: array<Sample<T>>
    /** The next slot to write. */
    var head: nat

    ghost predicate Valid()
      reads this
    {
      0 < resolution && head < data.Length
    }

    /** Oldest first. */
    ghost function Slots(): seq<Sample<T>>
      requires Valid()
      reads this, data
    {
      Rotated(data[..], head)
    }

    constructor (resolution: nat, buckets: nat, zero: T)
      requires 0 < resolution && 0 < buckets
      ensures Valid() && fresh(data) && this.resolution == resolution && |Slots()| == buckets && Blank(Slots())
    {
      this.resolution, head := resolution, 0;
      data := new Sample<T>[buckets](_ => Sample(0, zero));
    }

    method Previous() returns (i: nat)
      requires Valid()
      ensures i < data.Length && data[i] == Slots()[data.Length - 1] && i == if head == 0 then data.Length - 1 else head - 1
    {
      i := Wrap(head - 1 + data.Length, data.Length);
    }

    method Push(s: Sample<T>)
      requires Valid()
      modifies this, data
      ensures Valid() && Slots() == old(Slots())[1..] + [s]
    {
      hide Rotated, Wrap;
      RotatedPush(data[..], head, s);
      data[head] := s;
      assert data[..] == old(data[..])[head := s];
      head := Wrap(head + 1, data.Length);
    }

    method Replace(i: nat, value: T)
      requires Valid() && i == if head == 0 then data.Length - 1 else head - 1
      modifies data
      ensures Slots() == old(Slots())[data.Length - 1 := Sample(old(data[i]).timestamp, value)]
    {
      data[i] := Sample(data[i].timestamp, value);
    }

    method Add(timestamp: nat, value: T)
      requires Valid()
      modifies this, data
      ensures Valid() && Slots() == Ingested(old(Slots()), resolution, Latest, Sample(timestamp, value))
    {
      var start := Aligned(timestamp, resolution);
      var i := Previous();
      if data[i].timestamp == start {
        Replace(i, value);
      } else {
        Push(Sample(start, value));
      }
    }

    method Ingest(timestamp: nat, value: T, combine: Combine<T>)
      requires Valid()
      modifies this, data
      ensures Valid() && Slots() == Ingested(old(Slots()), resolution, combine, Sample(timestamp, value))
    {
      var start := Aligned(timestamp, resolution);
      var i := Previous();
      if data[i].timestamp == start {
        AlignedIsMonotone(timestamp, timestamp, resolution);
        Replace(i, combine(data[i].value, value, timestamp - start));
      } else {
        Add(timestamp, value);
      }
    }

    method GetPoints() returns (points: seq<Sample<T>>)
      requires Valid()
      ensures points == Used(Slots())
    {
      hide Rotated, Wrap;
      points := [];
      assert Slots()[0..] == Slots();
      for i := 0 to data.Length
        invariant points + Used(Slots()[i..]) == Used(Slots())
      {
        var slot := data[Wrap(head + i, data.Length)];
        assert slot == Slots()[i] && Slots()[i..][0] == Slots()[i] && Slots()[i..][1..] == Slots()[i + 1..];
        if slot.timestamp > 0 {
          points := points + [slot];
        }
      }
    }
  }

  /** Metrics that sum add up; the others keep the latest value of a minute and average in the coarser buffers. */
  function MetricCombine(sum: bool, oneMinute: bool): Combine<real> {
    if sum then Plus else if oneMinute then Latest else RunningAverage
  }

  lemma {:induction false} LatestBucketIsTheLastSample<T>(samples: seq<Sample<T>>, start: nat)
    requires samples != [] && forall i :: 0 <= i < |samples| ==> start <= samples[i].timestamp
    ensures Fold(Latest, samples, start) == samples[|samples| - 1].value
  {
  }

  /** Every point read holds exactly the samples of its time, combined in order. */
  lemma PointHoldsItsSamples<T>(blank: seq<Sample<T>>, resolution: nat, combine: Combine<T>, samples: seq<Sample<T>>, i: nat)
    requires blank != [] && Blank(blank) && 0 < resolution && InOrder(samples)
    requires forall k :: 0 <= k < |samples| ==> resolution <= samples[k].timestamp
    requires i < |Used(Rolled(blank, resolution, combine, samples))|
    ensures HoldsItsSamples(Used(Rolled(blank, resolution, combine, samples))[i], resolution, combine, samples)
  {
    hide HoldsItsSamples;
    PointsAreTheLatestBuckets(blank, resolution, combine, samples);
    BucketsAreFolds(samples, resolution, combine);
  }

  /** What the points of a metric mean: the total of their samples for a metric that sums; otherwise the last sample at
      one minute, and the mean in a coarser buffer that got one sample in each of its minutes so far. */
  lemma MetricPointMeans(blank: seq<Sample<real>>, resolution: nat, sum: bool, oneMinute: bool, samples: seq<Sample<real>>, i: nat)
    requires blank != [] && Blank(blank) && 0 < resolution && InOrder(samples)
    requires forall k :: 0 <= k < |samples| ==> resolution <= samples[k].timestamp
    requires i < |Used(Rolled(blank, resolution, MetricCombine(sum, oneMinute), samples))|
    ensures var point := Used(Rolled(blank, resolution, MetricCombine(sum, oneMinute), samples))[i];
      var mine := InBucket(samples, resolution, point.timestamp);
      && mine != []
      && (sum ==> point.value == Total(mine))
      && (!sum && oneMinute ==> point.value == mine[|mine| - 1].value)
      && (!sum && !oneMinute && EveryMinute(mine, point.timestamp) ==> point.value * (|mine| as real) == Total(mine))
  {
    hide Rolled, Used, InBucket, Fold, Total, EveryMinute, MetricCombine;
    var combine := MetricCombine(sum, oneMinute);
    PointHoldsItsSamples(blank, resolution, combine, samples, i);
    var point := Used(Rolled(blank, resolution, combine, samples))[i];
    MetricFoldMeans(sum, oneMinute, InBucket(samples, resolution, point.timestamp), point.timestamp);
  }

  lemma MetricFoldMeans(sum: bool, oneMinute: bool, samples: seq<Sample<real>>, start: nat)
    requires samples != [] && forall i :: 0 <= i < |samples| ==> start <= samples[i].timestamp
    ensures var value := Fold(MetricCombine(sum, oneMinute), samples, start);
      && (sum ==> value == Total(samples))
      && (!sum && oneMinute ==> value == samples[|samples| - 1].value)
      && (!sum && !oneMinute && EveryMinute(samples, start) ==> value * (|samples| as real) == Total(samples))
  {
    hide Fold, Total, Plus, Latest, RunningAverage;
    if sum {
      SummedBucketIsTheTotal(samples, start);
    } else if oneMinute {
      LatestBucketIsTheLastSample(samples, start);
    } else if EveryMinute(samples, start) {
      AveragedBucketIsTheMean(samples, start);
    }
  }

  predicate EveryMinute(samples: seq<Sample<real>>, start: nat) {
    forall i :: 0 <= i < |samples| ==> start <= samples[i].timestamp && (samples[i].timestamp - start) / 60 == i
  }

  datatype Resolution = Resolution(seconds: nat, buckets: nat)

  const DEFAULT_RESOLUTIONS := [
    Resolution(60, 120), Resolution(300, 72), Resolution(900, 96), Resolution(3600, 744), Resolution(86400, 183)]

  /** One metric in all its resolutions; `combines[i]` is how the i-th one combines samples. */
  class Series<T> {
    const rings: seq<RingBuffer<T>>
    const combines: seq<Combine<T>>

    ghost predicate Valid()
      reads rings
    {
      && |combines| == |rings|
      && (forall i :: 0 <= i < |rings| ==> rings[i].Valid())
      && (forall i, j :: 0 <= i < j < |rings| ==> rings[i] != rings[j] && rings[i].data != rings[j].data)
    }

    constructor (rings: seq<RingBuffer<T>>, combines: seq<Combine<T>>)
      requires |combines| == |rings| && forall i :: 0 <= i < |rings| ==> rings[i].Valid()
      requires forall i, j :: 0 <= i < j < |rings| ==> rings[i] != rings[j] && rings[i].data != rings[j].data
      ensures Valid() && this.rings == rings && this.combines == combines
    {
      this.rings, this.combines := rings, combines;
    }

    /** Every resolution takes the sample, each in its own way. */
    method Ingest(timestamp: nat, value: T)
      requires Valid()
      modifies rings, set i | 0 <= i < |rings| :: rings[i].data
      ensures Valid()
      ensures forall i :: 0 <= i < |rings| ==>
                rings[i].Slots() == Ingested(old(rings[i].Slots()), rings[i].resolution, combines[i], Sample(timestamp, value))
    {
      hide Rotated, Ingested;
      for k := 0 to |rings|
        invariant Valid()
        invariant forall i :: 0 <= i < k ==>
                    rings[i].Slots() == Ingested(old(rings[i].Slots()), rings[i].resolution, combines[i], Sample(timestamp, value))
        invariant forall i :: k <= i < |rings| ==> rings[i].Slots() == old(rings[i].Slots())
      {
        rings[k].Ingest(timestamp, value, combines[k]);
      }
    }

    /** A run of samples rolls through every resolution. */
    method IngestAll(samples: seq<Sample<T>>)
      requires Valid()
      modifies rings, set i | 0 <= i < |rings| :: rings[i].data
      ensures Valid()
      ensures forall i :: 0 <= i < |rings| ==>
                rings[i].Slots() == Rolled(old(rings[i].Slots()), rings[i].resolution, combines[i], samples)
    {
      hide Rotated, Ingested;
      for k := 0 to |samples|
        invariant Valid()
        invariant forall i :: 0 <= i < |rings| ==>
                    rings[i].Slots() == Rolled(old(rings[i].Slots()), rings[i].resolution, combines[i], samples[..k])
      {
        assert samples[..k + 1][..k] == samples[..k];
        Ingest(samples[k].timestamp, samples[k].value);
      }
      assert samples[..|samples|] == samples;
    }
  }

  /** Blank rings of the default resolutions. */
  method NewRings<T>(zero: T) returns (rings: seq<RingBuffer<T>>)
    ensures |rings| == |DEFAULT_RESOLUTIONS|
    ensures forall i :: 0 <= i < |rings| ==> fresh(rings[i]) && fresh(rings[i].data) && rings[i].Valid() && Blank(rings[i].Slots())
    ensures forall i :: 0 <= i < |rings| ==>
              rings[i].resolution == DEFAULT_RESOLUTIONS[i].seconds && rings[i].data.Length == DEFAULT_RESOLUTIONS[i].buckets
    ensures forall i, j :: 0 <= i < j < |rings| ==> rings[i] != rings[j] && rings[i].data != rings[j].data
  {
    hide Rotated, Blank;
    rings := [];
    for k := 0 to |DEFAULT_RESOLUTIONS|
      invariant |rings| == k
      invariant forall i :: 0 <= i < k ==> fresh(rings[i]) && fresh(rings[i].data) && rings[i].Valid() && Blank(rings[i].Slots())
      invariant forall i :: 0 <= i < k ==>
                  rings[i].resolution == DEFAULT_RESOLUTIONS[i].seconds && rings[i].data.Length == DEFAULT_RESOLUTIONS[i].buckets
      invariant forall i, j :: 0 <= i < j < k ==> rings[i] != rings[j] && rings[i].data != rings[j].data
    {
      var ring := new RingBuffer(DEFAULT_RESOLUTIONS[k].seconds, DEFAULT_RESOLUTIONS[k].buckets, zero);
      rings := rings + [ring];
    }
  }

  method NewMetricSeries(sum: bool) returns (series: Series<real>)
    ensures series.Valid() && |series.rings| == |DEFAULT_RESOLUTIONS|
    ensures forall i :: 0 <= i < |series.rings| ==>
              && fresh(series.rings[i]) && fresh(series.rings[i].data) && Blank(series.rings[i].Slots())
              && series.rings[i].resolution == DEFAULT_RESOLUTIONS[i].seconds
              && series.combines[i] == MetricCombine(sum, i == 0)
  {
    hide Rotated, Blank, MetricCombine;
    var rings := NewRings(0.0);
    var coarse := MetricCombine(sum, false);
    series := new Series(rings, [MetricCombine(sum, true), coarse, coarse, coarse, coarse]);
  }

  method NewHistogramSeries() returns (series: Series<Latencies>)
    ensures series.Valid() && |series.rings| == |DEFAULT_RESOLUTIONS|
    ensures forall i :: 0 <= i < |series.rings| ==>
              && fresh(series.rings[i]) && fresh(series.rings[i].data) && Blank(series.rings[i].Slots())
              && series.rings[i].resolution == DEFAULT_RESOLUTIONS[i].seconds
              && series.combines[i] == Merged
  {
    hide Rotated, Blank;
    var rings := NewRings(TallyOf([]));
    series := new Series(rings, [Merged, Merged, Merged, Merged, Merged]);
  }
}
