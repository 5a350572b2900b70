/** Ticket records and the route filter shared by the three route statistics.

    A ticket is an immutable value. Only the fields the statistics read are
    kept: the carrier, the departure and arrival names, the flight duration in
    minutes (an opaque Java `int`) and the price (a Java `int`).
 */
module Tickets {

  import SeqLemmas

  const MinInt32: int := -0x8000_0000
  const MaxInt32: int := 0x7fff_ffff

  /** The values of a Java `int`. */
  type Int32 = x: int | MinInt32 <= x <= MaxInt32

  /** Java `int` addition: the mathematical result reduced into the 32-bit range. */
  function Wrap32(x: int): (r: Int32)
    ensures (r - x) % 0x1_0000_0000 == 0
    ensures MinInt32 <= x <= MaxInt32 ==> r == x
  {
    (x - MinInt32) % 0x1_0000_0000 + MinInt32
  }

  datatype Ticket = Ticket(
    carrier: string,
    departure: string,
    arrival: string,
    duration: Int32,
    price: Int32)

  /** The one route the report is about. */
  const Departure: string := "Vladivostok"
  const Arrival: string := "Tel-Aviv"

  /** Exact, case-sensitive comparison of both names with the route. */
  predicate OnRoute(t: Ticket) {
    t.departure == Departure && t.arrival == Arrival
  }

  /** The on-route tickets, in their original order. */
  function Filter(ts: seq<Ticket>): (r: seq<Ticket>)
    ensures |r| <= |ts|
  {
    if ts == [] then []
    else if OnRoute(ts[0]) then [ts[0]] + Filter(ts[1..])
    else Filter(ts[1..])
  }

  /** The filtered list holds exactly the on-route tickets of the input. */
  lemma {:induction false} FilterMembers(ts: seq<Ticket>)
    ensures forall t :: t in Filter(ts) <==> t in ts && OnRoute(t)
  {
    if ts != [] {
      FilterMembers(ts[1..]);
      assert forall t :: t in ts <==> t == ts[0] || t in ts[1..];
    }
  }

  /** Each on-route ticket is kept as often as it occurs; no other ticket is kept. */
  lemma {:induction false} FilterMultiset(ts: seq<Ticket>)
    ensures forall t :: multiset(Filter(ts))[t] == if OnRoute(t) then multiset(ts)[t] else 0
  {
    if ts != [] {
      FilterMultiset(ts[1..]);
      assert ts == [ts[0]] + ts[1..];
      assert multiset(ts) == multiset{ts[0]} + multiset(ts[1..]);
    }
  }

  /** Rearranging the tickets rearranges the filtered ones. */
  lemma FilterPermutation(a: seq<Ticket>, b: seq<Ticket>)
    requires multiset(a) == multiset(b)
    ensures multiset(Filter(a)) == multiset(Filter(b))
  {
    FilterMultiset(a);
    FilterMultiset(b);
  }

  /** Filtering distributes over concatenation (the filter keeps order). */
  lemma {:induction false} FilterConcat(a: seq<Ticket>, b: seq<Ticket>)
    ensures Filter(a + b) == Filter(a) + Filter(b)
  {
    if a == [] {
      assert a + b == b;
    } else {
      assert (a + b)[0] == a[0];
      assert (a + b)[1..] == a[1..] + b;
      FilterConcat(a[1..], b);
    }
  }

  /** A ticket off the route leaves the filtered list unchanged, wherever it stands. */
  lemma OffRouteDropped(a: seq<Ticket>, t: Ticket, b: seq<Ticket>)
    requires !OnRoute(t)
    ensures Filter(a + [t] + b) == Filter(a + b)
  {
    FilterConcat(a + [t], b);
    FilterConcat(a, [t]);
    FilterConcat(a, b);
    assert Filter([t]) == [] by {
      assert [t][1..] == [];
    }
  }

  /** The prices of a list of tickets, in the same order. */
  function Prices(ts: seq<Ticket>): (r: seq<int>)
    ensures |r| == |ts|
    ensures forall i :: 0 <= i < |ts| ==> r[i] == ts[i].price
  {
    if ts == [] then [] else [ts[0].price] + Prices(ts[1..])
  }

  /** Bounds on the prices of the on-route tickets carry over to the filtered prices. */
  lemma {:induction false} OnRoutePricesWithin(ts: seq<Ticket>, lo: int, hi: int)
    requires forall t :: t in ts && OnRoute(t) ==> lo <= t.price <= hi
    ensures forall x :: x in Prices(Filter(ts)) ==> lo <= x <= hi
  {
    if ts != [] {
      assert ts[0] in ts;
      assert forall t :: t in ts[1..] ==> t in ts;
      OnRoutePricesWithin(ts[1..], lo, hi);
    }
  }

  lemma PricesConcat(a: seq<Ticket>, b: seq<Ticket>)
    ensures Prices(a + b) == Prices(a) + Prices(b)
  {
  }

  /** Rearranging the tickets rearranges their prices. */
  lemma {:induction false} PricesPermutation(a: seq<Ticket>, b: seq<Ticket>)
    requires multiset(a) == multiset(b)
    ensures multiset(Prices(a)) == multiset(Prices(b))
  {
    if a == [] {
      assert |b| == |multiset(b)| == 0;
    } else {
      var j := SeqLemmas.RemoveHead(a, b);
      PricesPermutation(a[1..], b[..j] + b[j + 1..]);
      PricesConcat(b[..j] + [b[j]], b[j + 1..]);
      PricesConcat(b[..j], [b[j]]);
      PricesConcat(b[..j], b[j + 1..]);
      assert Prices(a) == [a[0].price] + Prices(a[1..]);
    }
  }
}
