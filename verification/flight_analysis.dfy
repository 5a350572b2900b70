/** The route statistics of the flight report: per-carrier minimum duration,
    mean price and median price over the tickets of the one route.

    Every statistic first keeps the on-route tickets (`Tickets.Filter`); a
    ticket off the route contributes to nothing. Mean and median are exact
    rationals (`real`) rather than IEEE doubles.
 */
module FlightAnalysis {

  import opened Tickets
  import opened IntSeqs

  // ---------------------------------------------------------------------------
  // Minimum duration per carrier
  // ---------------------------------------------------------------------------

  function Carriers(ts: seq<Ticket>): set<string> {
    set t | t in ts :: t.carrier
  }

  /** `m` is the per-carrier minimum of `ts`: its keys are exactly the carriers
      of `ts`, and each value is the duration of one ticket of that carrier and
      no greater than the duration of any ticket of that carrier. */
  ghost predicate IsMinMap(ts: seq<Ticket>, m: map<string, int>) {
    && m.Keys == Carriers(ts)
    && (forall t :: t in ts ==> t.carrier in m && m[t.carrier] <= t.duration)
    && (forall c :: c in m ==> exists t :: t in ts && t.carrier == c && t.duration == m[c])
  }

  /** One step of the grouping: `t` replaces the stored minimum of its carrier
      only when it is strictly shorter, so on a tie the earlier ticket stays. */
  function Keep(m: map<string, Int32>, t: Ticket): (r: map<string, Int32>)
    ensures r.Keys == m.Keys + {t.carrier}
    ensures r[t.carrier] <= t.duration && (t.carrier in m ==> r[t.carrier] <= m[t.carrier])
    ensures r[t.carrier] == t.duration || (t.carrier in m && r[t.carrier] == m[t.carrier])
    ensures forall c :: c in m && c != t.carrier ==> r[c] == m[c]
  {
    if t.carrier in m && m[t.carrier] <= t.duration then m
    else m[t.carrier := t.duration]
  }

  /** Left fold of `Keep` over the tickets, from the empty map. */
  function MinByCarrier(ts: seq<Ticket>): (m: map<string, Int32>)
    ensures m.Keys == Carriers(ts)
  {
    if ts == [] then map[]
    else
      var init, last := ts[..|ts| - 1], ts[|ts| - 1];
      assert ts == init + [last];
      assert Carriers(ts) == Carriers(init) + {last.carrier} by {
        assert forall u :: u in ts <==> u in init || u == last;
      }
      Keep(MinByCarrier(init), last)
  }

  /** A step keeps the per-carrier minimum up to date with one more ticket. */
  lemma KeepStep(ts: seq<Ticket>, m: map<string, Int32>, t: Ticket)
    requires IsMinMap(ts, m)
    ensures IsMinMap(ts + [t], Keep(m, t))
  {
    var ts', r := ts + [t], Keep(m, t);
    assert forall u :: u in ts' <==> u in ts || u == t;
    assert Carriers(ts') == Carriers(ts) + {t.carrier};
    forall c | c in r ensures exists u :: u in ts' && u.carrier == c && u.duration == r[c] {
      if c == t.carrier && r[c] == t.duration {
        assert t in ts';
      } else {
        var u :| u in ts && u.carrier == c && u.duration == m[c];
        assert u in ts';
      }
    }
  }

  /** The fold computes the per-carrier minimum. */
  lemma {:induction false} MinByCarrierIsMinMap(ts: seq<Ticket>)
    ensures IsMinMap(ts, MinByCarrier(ts))
  {
    if ts != [] {
      var init := ts[..|ts| - 1];
      assert ts == init + [ts[|ts| - 1]];
      MinByCarrierIsMinMap(init);
      KeepStep(init, MinByCarrier(init), ts[|ts| - 1]);
    }
  }

  /** The per-carrier minimum is determined by the tickets: which of several
      tickets with the same minimal duration is kept makes no difference. */
  lemma MinMapUnique(ts: seq<Ticket>, m1: map<string, int>, m2: map<string, int>)
    requires IsMinMap(ts, m1) && IsMinMap(ts, m2)
    ensures m1 == m2
  {
    forall c | c in m1 ensures m1[c] == m2[c] {
      var t1 :| t1 in ts && t1.carrier == c && t1.duration == m1[c];
      var t2 :| t2 in ts && t2.carrier == c && t2.duration == m2[c];
      assert m2[c] <= t1.duration && m1[c] <= t2.duration;
    }
  }

  /** The per-carrier minimum durations of the on-route tickets. */
  function MinDurations(ts: seq<Ticket>): (m: map<string, Int32>)
    ensures IsMinMap(Filter(ts), m)
  {
    MinByCarrierIsMinMap(Filter(ts));
    MinByCarrier(Filter(ts))
  }

  /** The keys are the carriers with an on-route ticket and no others: a
      carrier without one is absent rather than mapped to 0. */
  lemma MinDurationsKeys(ts: seq<Ticket>)
    ensures MinDurations(ts).Keys == set t | t in ts && OnRoute(t) :: t.carrier
  {
    FilterMembers(ts);
  }

  /** The order of the tickets does not matter to the minimum map. */
  lemma MinDurationsPermutation(a: seq<Ticket>, b: seq<Ticket>)
    requires multiset(a) == multiset(b)
    ensures MinDurations(a) == MinDurations(b)
  {
    FilterPermutation(a, b);
    var fa, fb := Filter(a), Filter(b);
    assert forall t :: t in fa <==> t in fb by {
      forall t ensures t in fa <==> t in fb {
        assert t in fa <==> t in multiset(fa);
      }
    }
    assert Carriers(fa) == Carriers(fb);
    MinMapUnique(fb, MinDurations(a), MinDurations(b));
  }

  // ---------------------------------------------------------------------------
  // Mean price
  // ---------------------------------------------------------------------------

  /** Arithmetic mean of the on-route prices; 0 when no ticket is on the route. */
  function AveragePrice(ts: seq<Ticket>): (r: real)
    ensures Filter(ts) == [] ==> r == 0.0
    ensures Filter(ts) != [] ==> r * |Filter(ts)| as real == Sum(Prices(Filter(ts))) as real
  {
    Mean(Prices(Filter(ts)))
  }

  /** The total divided by the count, 0 for no values. */
  function Mean(ps: seq<int>): (r: real)
    ensures ps != [] ==> r * |ps| as real == Sum(ps) as real
  {
    if ps == [] then 0.0
    else
      MeanTimesCount(Sum(ps), |ps|);
      Sum(ps) as real / |ps| as real
  }

  lemma MeanTimesCount(sum: int, n: int)
    requires n > 0
    ensures (sum as real / n as real) * n as real == sum as real
  {
  }

  /** The mean of values between `lo` and `hi` is between `lo` and `hi`. */
  lemma MeanWithin(ps: seq<int>, lo: int, hi: int)
    requires ps != []
    requires forall x :: x in ps ==> lo <= x <= hi
    ensures lo as real <= Mean(ps) <= hi as real
  {
    SumBounds(ps, lo, hi);
    MeanOfBoundedTotal(Sum(ps), |ps|, lo, hi);
  }

  lemma MeanOfBoundedTotal(total: int, n: int, lo: int, hi: int)
    requires n > 0 && n * lo <= total <= n * hi
    ensures lo as real <= total as real / n as real <= hi as real
  {
    var q := total as real / n as real;
    MeanTimesCount(total, n);
    assert (n * lo) as real == lo as real * n as real;
    assert (n * hi) as real == hi as real * n as real;
    ScaleDown(lo as real, q, n as real);
    ScaleDown(q, hi as real, n as real);
  }

  lemma ScaleDown(x: real, y: real, n: real)
    requires n > 0.0 && x * n <= y * n
    ensures x <= y
  {
  }

  /** The mean lies between the cheapest and the dearest on-route price. */
  lemma AveragePriceBounds(ts: seq<Ticket>)
    requires Filter(ts) != []
    ensures MinOf(Prices(Filter(ts))) as real <= AveragePrice(ts) <= MaxOf(Prices(Filter(ts))) as real
  {
    var ps := Prices(Filter(ts));
    MeanWithin(ps, MinOf(ps), MaxOf(ps));
  }

  /** The order of the tickets does not matter to the mean. */
  lemma AveragePricePermutation(a: seq<Ticket>, b: seq<Ticket>)
    requires multiset(a) == multiset(b)
    ensures AveragePrice(a) == AveragePrice(b)
  {
    FilterPermutation(a, b);
    PricesPermutation(Filter(a), Filter(b));
    SumPermutation(Prices(Filter(a)), Prices(Filter(b)));
    assert |Filter(a)| == |multiset(Filter(a))| == |Filter(b)|;
  }

  // ---------------------------------------------------------------------------
  // Median price
  // ---------------------------------------------------------------------------

  /** The on-route prices in ascending order: the list the median indexes. */
  function SortedPrices(ts: seq<Ticket>): (r: seq<int>)
    ensures Sorted(r)
    ensures multiset(r) == multiset(Prices(Filter(ts)))
  {
    Sort(Prices(Filter(ts)))
  }

  /** Middle element for an odd length, mean of the two central elements for an
      even length (exact, not integer division), 0 for the empty list. */
  function MedianOfSorted(s: seq<int>): (r: real)
    ensures s == [] ==> r == 0.0
    ensures Sorted(s) && s != [] ==> s[(|s| - 1) / 2] as real <= r <= s[|s| / 2] as real
    ensures s != [] && |s| % 2 == 0 ==> r - s[|s| / 2 - 1] as real == s[|s| / 2] as real - r
  {
    var n := |s|;
    if n == 0 then 0.0
    else if n % 2 == 1 then s[n / 2] as real
    else (s[n / 2 - 1] + s[n / 2]) as real / 2.0
  }

  /** Median of the on-route prices; 0 when no ticket is on the route. */
  function MedianPrice(ts: seq<Ticket>): (r: real)
    ensures Filter(ts) == [] ==> r == 0.0
  {
    MedianOfSorted(SortedPrices(ts))
  }

  /** The median lies between the cheapest and the dearest on-route price. */
  lemma MedianPriceBounds(ts: seq<Ticket>)
    requires Filter(ts) != []
    ensures MinOf(Prices(Filter(ts))) as real <= MedianPrice(ts) <= MaxOf(Prices(Filter(ts))) as real
  {
    var s := SortedPrices(ts);
    assert |s| == |multiset(s)| == |Filter(ts)|;
    SortedExtremes(s, Prices(Filter(ts)));
  }

  /** `x` is at most `m`. */
  function AtMost(m: real): int -> bool {
    x => x as real <= m
  }

  /** `x` is at least `m`. */
  function AtLeast(m: real): int -> bool {
    x => m <= x as real
  }

  /** In an ascending list at least half the elements (rounded up) are at most
      the median, and at least half are at least the median. */
  lemma MedianOfSortedSplits(s: seq<int>)
    requires Sorted(s)
    ensures Count(s, AtMost(MedianOfSorted(s))) >= (|s| + 1) / 2
    ensures Count(s, AtLeast(MedianOfSorted(s))) >= (|s| + 1) / 2
  {
    var n, r := |s|, MedianOfSorted(s);
    if n > 0 {
      var lo, hi := (n - 1) / 2, n / 2;
      assert forall i :: 0 <= i <= lo ==> s[i] <= s[lo];
      assert forall i :: hi <= i < n ==> s[hi] <= s[i];
      CountRange(s, AtMost(r), 0, lo + 1);
      CountRange(s, AtLeast(r), hi, n);
    }
  }

  /** The median splits the on-route prices in halves: at least half of them
      (rounded up) are at most the median, and at least half are at least it. */
  lemma MedianPriceSplits(ts: seq<Ticket>)
    ensures Count(Prices(Filter(ts)), AtMost(MedianPrice(ts))) >= (|Filter(ts)| + 1) / 2
    ensures Count(Prices(Filter(ts)), AtLeast(MedianPrice(ts))) >= (|Filter(ts)| + 1) / 2
  {
    var ps, s, r := Prices(Filter(ts)), SortedPrices(ts), MedianPrice(ts);
    assert |s| == |multiset(s)| == |ps|;
    MedianOfSortedSplits(s);
    CountPermutation(s, ps, AtMost(r));
    CountPermutation(s, ps, AtLeast(r));
  }

  /** The order of the tickets does not matter to the median. */
  lemma MedianPricePermutation(a: seq<Ticket>, b: seq<Ticket>)
    requires multiset(a) == multiset(b)
    ensures MedianPrice(a) == MedianPrice(b)
  {
    FilterPermutation(a, b);
    PricesPermutation(Filter(a), Filter(b));
    SortPermutation(Prices(Filter(a)), Prices(Filter(b)));
  }

  /** Two on-route tickets priced 100 and 101 have median 100.5. */
  lemma MedianOfTwoIsExact(t1: Ticket, t2: Ticket)
    requires OnRoute(t1) && OnRoute(t2)
    requires t1.price == 100 && t2.price == 101
    ensures MedianPrice([t1, t2]) == 100.5
  {
    assert [t1, t2][1..] == [t2];
    assert Filter([t1, t2]) == [t1, t2];
    assert Prices([t1, t2]) == [100, 101];
    assert SortedPrices([t1, t2]) == [100, 101] by {
      assert Sort([101]) == [101];
    }
  }

  // ---------------------------------------------------------------------------
  // Median as the source computes it: the two central prices are added as
  // 32-bit integers before the division.
  // ---------------------------------------------------------------------------

  /** `MedianOfSorted` with the even-length sum wrapped to 32 bits. */
  function MedianOfSortedAsWritten(s: seq<int>): (r: real)
    ensures s == [] ==> r == 0.0
    ensures |s| % 2 == 1 ==> r == MedianOfSorted(s)
  {
    var n := |s|;
    if n == 0 then 0.0
    else if n % 2 == 1 then s[n / 2] as real
    else Wrap32(s[n / 2 - 1] + s[n / 2]) as real / 2.0
  }

  /** The median of the on-route prices as the report computes it. */
  function MedianPriceAsWritten(ts: seq<Ticket>): (r: real)
    ensures Filter(ts) == [] ==> r == 0.0
    ensures |Filter(ts)| % 2 == 1 ==> r == MedianPrice(ts)
  {
    var s := SortedPrices(ts);
    assert |s| == |multiset(s)| == |Filter(ts)|;
    MedianOfSortedAsWritten(s)
  }

  /** Two on-route tickets at the largest `int` price: the 32-bit sum wraps to
      -2, so the computed median is -1 instead of that price. */
  lemma MedianPriceAsWrittenOverflows(t: Ticket)
    requires OnRoute(t) && t.price == MaxInt32
    ensures MedianPriceAsWritten([t, t]) == -1.0
    ensures MedianPrice([t, t]) == MaxInt32 as real
  {
    assert [t, t][1..] == [t];
    assert Filter([t, t]) == [t, t];
    assert Prices([t, t]) == [MaxInt32, MaxInt32];
    assert SortedPrices([t, t]) == [MaxInt32, MaxInt32] by {
      assert Sort([MaxInt32]) == [MaxInt32];
      assert Insert(MaxInt32, [MaxInt32]) == [MaxInt32, MaxInt32];
    }
    assert Wrap32(MaxInt32 + MaxInt32) == -2;
  }

  /** Whenever every on-route price lies within half the `int` range the sum
      cannot wrap, and the computed median is the exact one. */
  lemma MedianPriceAsWrittenAgrees(ts: seq<Ticket>)
    requires forall t :: t in ts && OnRoute(t) ==> -0x4000_0000 <= t.price < 0x4000_0000
    ensures MedianPriceAsWritten(ts) == MedianPrice(ts)
  {
    var s, ps := SortedPrices(ts), Prices(Filter(ts));
    var n := |s|;
    assert n == |multiset(s)| == |Filter(ts)|;
    if n > 0 && n % 2 == 0 {
      OnRoutePricesWithin(ts, -0x4000_0000, 0x3fff_ffff);
      assert s[n / 2 - 1] in multiset(ps) && s[n / 2] in multiset(ps);
      assert s[n / 2 - 1] in ps && s[n / 2] in ps;
    }
  }

  /** The median read off any ascending rearrangement `s` of the on-route
      prices: its middle element for an odd count and the exact mean of its
      two central elements for an even count. */
  lemma MedianPriceValue(ts: seq<Ticket>, s: seq<int>)
    requires Sorted(s) && multiset(s) == multiset(Prices(Filter(ts)))
    ensures |s| == |Filter(ts)|
    ensures |s| % 2 == 1 ==> MedianPrice(ts) == s[|s| / 2] as real
    ensures |s| > 0 && |s| % 2 == 0 ==> MedianPrice(ts) == (s[|s| / 2 - 1] + s[|s| / 2]) as real / 2.0
  {
    SortedUnique(s, SortedPrices(ts));
    assert |s| == |multiset(s)| == |Filter(ts)|;
  }

  /** The median as computed differs from `MedianPriceValue` only in wrapping
      the sum of the two central elements to 32 bits. */
  lemma MedianPriceAsWrittenValue(ts: seq<Ticket>, s: seq<int>)
    requires Sorted(s) && multiset(s) == multiset(Prices(Filter(ts)))
    ensures |s| > 0 && |s| % 2 == 0 ==>
      MedianPriceAsWritten(ts) == Wrap32(s[|s| / 2 - 1] + s[|s| / 2]) as real / 2.0
  {
    SortedUnique(s, SortedPrices(ts));
    if |s| > 0 && |s| % 2 == 0 {
      EvenAsWritten(s);
    }
  }

  /** The even-count branch of `MedianOfSortedAsWritten`. */
  lemma EvenAsWritten(s: seq<int>)
    requires |s| > 0 && |s| % 2 == 0
    ensures MedianOfSortedAsWritten(s) == Wrap32(s[|s| / 2 - 1] + s[|s| / 2]) as real / 2.0
  {
  }

  /** The order of the tickets does not matter to the median as computed. */
  lemma MedianPriceAsWrittenPermutation(a: seq<Ticket>, b: seq<Ticket>)
    requires multiset(a) == multiset(b)
    ensures MedianPriceAsWritten(a) == MedianPriceAsWritten(b)
  {
    FilterPermutation(a, b);
    PricesPermutation(Filter(a), Filter(b));
    SortPermutation(Prices(Filter(a)), Prices(Filter(b)));
  }

  // ---------------------------------------------------------------------------
  // The spread between mean and median
  // ---------------------------------------------------------------------------

  /** The difference between mean and median price, computed with the
      corrected median. */
  function PriceSpread(ts: seq<Ticket>): (r: real)
    ensures Filter(ts) == [] ==> r == 0.0
  {
    AveragePrice(ts) - MedianPrice(ts)
  }

  /** The difference the report prints: mean minus the median as computed. */
  function PriceSpreadAsWritten(ts: seq<Ticket>): (r: real)
    ensures Filter(ts) == [] ==> r == 0.0
    ensures |Filter(ts)| % 2 == 1 ==> r == PriceSpread(ts)
  {
    AveragePrice(ts) - MedianPriceAsWritten(ts)
  }

  /** Within half the `int` range the printed difference is the corrected one. */
  lemma PriceSpreadAsWrittenAgrees(ts: seq<Ticket>)
    requires forall t :: t in ts && OnRoute(t) ==> -0x4000_0000 <= t.price < 0x4000_0000
    ensures PriceSpreadAsWritten(ts) == PriceSpread(ts)
  {
    MedianPriceAsWrittenAgrees(ts);
  }

  /** Two on-route tickets at the largest `int` price: the prices are equal, so
      the corrected spread is 0, but the printed one is 2^31. */
  lemma PriceSpreadAsWrittenOverflows(t: Ticket)
    requires OnRoute(t) && t.price == MaxInt32
    ensures PriceSpread([t, t]) == 0.0
    ensures PriceSpreadAsWritten([t, t]) == 0x8000_0000 as real
  {
    MedianPriceAsWrittenOverflows(t);
    PriceSpreadOfUniformPrices([t, t], MaxInt32);
  }

  /** Mean and median both lie between the extreme prices, so their difference
      is at most the price range; with no on-route ticket it is 0. */
  lemma PriceSpreadBounds(ts: seq<Ticket>)
    ensures Filter(ts) == [] ==> PriceSpread(ts) == 0.0
    ensures Filter(ts) != [] ==>
      var range := (MaxOf(Prices(Filter(ts))) - MinOf(Prices(Filter(ts)))) as real;
      -range <= PriceSpread(ts) <= range
  {
    if Filter(ts) != [] {
      AveragePriceBounds(ts);
      MedianPriceBounds(ts);
    }
  }

  /** When every on-route ticket costs the same, mean and median coincide. */
  lemma PriceSpreadOfUniformPrices(ts: seq<Ticket>, p: int)
    requires forall t :: t in ts && OnRoute(t) ==> t.price == p
    ensures PriceSpread(ts) == 0.0
  {
    if Filter(ts) != [] {
      OnRoutePricesWithin(ts, p, p);
      var ps := Prices(Filter(ts));
      assert MinOf(ps) == p && MaxOf(ps) == p;
      AveragePriceBounds(ts);
      MedianPriceBounds(ts);
    }
  }

  lemma FilterDropsMiddle(a1: Ticket, b: Ticket, a2: Ticket)
    requires OnRoute(a1) && !OnRoute(b) && OnRoute(a2)
    ensures Filter([a1, b, a2]) == [a1, a2]
  {
    assert [a1, b, a2][1..] == [b, a2] && [b, a2][1..] == [a2] && [a2][1..] == [];
    assert Filter([a2]) == [a2];
    assert Filter([b, a2]) == [a2];
  }

  /** Two tickets of carrier "A" on the route, taking 150 and 60 minutes at
      prices 100 and 200, and one quicker, cheaper ticket of carrier "B" flying
      the route the other way: "B" is absent from the map, "A" maps to 60, mean
      and median are both 150 and the spread is 0. */
  lemma ReportExample()
    ensures var ts := [Ticket("A", Departure, Arrival, 150, 100),
                       Ticket("B", Arrival, Departure, 10, 5),
                       Ticket("A", Departure, Arrival, 60, 200)];
      && MinDurations(ts) == map["A" := 60]
      && AveragePrice(ts) == 150.0
      && MedianPrice(ts) == 150.0
      && PriceSpread(ts) == 0.0
  {
    var a1, b, a2 := Ticket("A", Departure, Arrival, 150, 100), Ticket("B", Arrival, Departure, 10, 5),
      Ticket("A", Departure, Arrival, 60, 200);
    assert !OnRoute(b) by {
      assert Arrival[0] != Departure[0];
    }
    FilterDropsMiddle(a1, b, a2);
    ExampleMinimum(a1, a2);
    ExamplePrices(a1, a2);
  }

  lemma ExampleMinimum(a1: Ticket, a2: Ticket)
    requires a1.carrier == a2.carrier && a1.duration == 150 && a2.duration == 60
    ensures MinByCarrier([a1, a2]) == map[a1.carrier := 60]
  {
    assert [a1, a2][..1] == [a1] && [a1][..0] == [];
    assert MinByCarrier([a1]) == map[a1.carrier := 150];
  }

  lemma ExamplePrices(a1: Ticket, a2: Ticket)
    requires a1.price == 100 && a2.price == 200
    ensures Mean(Prices([a1, a2])) == 150.0
    ensures MedianOfSorted(Sort(Prices([a1, a2]))) == 150.0
  {
    assert [a1, a2][1..] == [a2];
    assert Prices([a1, a2]) == [100, 200];
    assert [100, 200][1..] == [200];
    assert Sum([100, 200]) == 300;
    assert Sort([200]) == [200];
    assert Sort([100, 200]) == [100, 200];
  }

  /** A ticket off the route changes none of the statistics, wherever it stands. */
  lemma OffRouteTicketIgnored(a: seq<Ticket>, t: Ticket, b: seq<Ticket>)
    requires !OnRoute(t)
    ensures MinDurations(a + [t] + b) == MinDurations(a + b)
    ensures AveragePrice(a + [t] + b) == AveragePrice(a + b)
    ensures MedianPrice(a + [t] + b) == MedianPrice(a + b)
    ensures MedianPriceAsWritten(a + [t] + b) == MedianPriceAsWritten(a + b)
  {
    OffRouteDropped(a, t, b);
  }
}
