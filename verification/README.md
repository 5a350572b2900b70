# FlightAnalysis route statistics in Dafny

This project models the statistics part of FlightAnalysis, a small Java program.
The program reads a list of flight tickets and reports three figures about the
tickets flying from "Vladivostok" to "Tel-Aviv":

- the minimum flight duration per carrier;
- the mean ticket price;
- the median ticket price.

It prints the per-carrier minima and the difference between mean and median.
The model is pure, as the Java code is: each statistic is a single stream
pipeline over an immutable list. So tickets are a `datatype` and every
operation is a function over `seq<Ticket>`, with lemmas stating what the
results mean.

Files:

- `tickets.dfy` (module `Tickets`): the ticket record and Java `int`
  (`Int32`, `Wrap32`). It also holds the route predicate `OnRoute` with the
  two route names as constants, the order-preserving filter (`Filter`) and the
  price projection (`Prices`).
- `seq_lemmas.dfy` (module `SeqLemmas`): `RemoveHead`, a fact about
  rearrangements of sequences of any element type. The permutation lemmas
  over ticket lists and over price lists both use it.
- `int_seqs.dfy` (module `IntSeqs`): sequences of integers. `Sort` (via
  `Insert`) stands for the natural-order `sorted()` of the median
  (FlightAnalysis.java:77), and `Sum` for the summation inside `average()`
  (FlightAnalysis.java:69). `Count`, `MinOf` and `MaxOf` are not used by the
  Java pipelines; they are vocabulary for stating the properties (bounds and
  splits of the mean and median).
- `flight_analysis.dfy` (module `FlightAnalysis`): the three calculators and
  the spread between mean and median, with their properties.

How the model reads the code:

- `calculateMinDurations` groups the filtered tickets by carrier and reduces
  each group with `minBy`. That reduction keeps the stored ticket unless the
  new one is strictly shorter. The model writes it as a left fold of one step
  (`Keep`) over the filtered tickets.
- The model proves that the fold's result is fully characterised by
  `IsMinMap`. So the choice among tied tickets and the order of the tickets do
  not affect it.
- `calculateAveragePrice` is `Mean` of the filtered prices, and 0 when nothing
  matches. Java's `IntStream.average` adds up in a 64-bit `long`. With `int`
  prices and fewer than 2^31 tickets that sum cannot overflow, so the model's
  unbounded `Sum` is exact.
- `calculateMedianPrice` sorts the filtered prices and indexes the sorted
  list (`MedianOfSorted`). In the even case the Java code adds the two central
  `Integer`s in 32-bit arithmetic before dividing by `2.0`. That addition can
  wrap; see "## Findings".
- Mean and median are exact `real`s.

Facts about the code the model relies on:

- The route is two names hard-coded in each of the three filters
  (FlightAnalysis.java:52, 67 and 75), not a configurable pair.
- The duration is read through `getDuration()` (FlightAnalysis.java:55 and
  61). No date or time arithmetic appears in the code, and no check that the
  arrival follows the departure.

## Model

| member | source | states |
|---|---|---|
| `Tickets.Wrap32` | src/main/java/org/example/FlightAnalysis.java:85 | Java `int` addition. The result is in the 32-bit range, congruent to the exact value modulo 2^32, and equal to it when the exact value fits |
| `Tickets.OnRoute` | src/main/java/org/example/FlightAnalysis.java:52 | the route test of all three filters (also at :67 and :75): departure equals "Vladivostok" and arrival equals "Tel-Aviv", case-sensitively. It has no contract of its own; what it lets through is stated by `Tickets.FilterMembers` |
| `Tickets.Filter` | src/main/java/org/example/FlightAnalysis.java:52 | the route filter never yields more tickets than it is given (its content is stated by the next two rows) |
| `Tickets.FilterMembers` | src/main/java/org/example/FlightAnalysis.java:52 | a ticket is in the filtered list exactly when it is in the input and its departure is "Vladivostok" and its arrival "Tel-Aviv" |
| `Tickets.FilterMultiset` | src/main/java/org/example/FlightAnalysis.java:75 | each on-route ticket is kept as many times as it occurs, so repeated prices all reach the median; every other ticket is kept zero times |
| `Tickets.FilterConcat` | src/main/java/org/example/FlightAnalysis.java:67 | the filter keeps the order of the tickets: filtering a concatenation concatenates the filtered parts |
| `Tickets.FilterPermutation` | src/main/java/org/example/FlightAnalysis.java:52 | rearranging the input rearranges the filtered tickets and nothing more |
| `Tickets.OffRouteDropped` | src/main/java/org/example/FlightAnalysis.java:52 | inserting an off-route ticket anywhere leaves the filtered list unchanged |
| `Tickets.OnRoutePricesWithin` | src/main/java/org/example/FlightAnalysis.java:75-76 | bounds that hold for the prices of the on-route tickets hold for every filtered price |
| `Tickets.Prices` | src/main/java/org/example/FlightAnalysis.java:68 | the price mapping of the average and the median (also at :76): the result has one entry per ticket, and entry i is the price of ticket i |
| `Tickets.PricesPermutation` | src/main/java/org/example/FlightAnalysis.java:76 | mapping tickets to prices turns a rearrangement of tickets into a rearrangement of prices |
| `IntSeqs.Insert` | src/main/java/org/example/FlightAnalysis.java:77 | inserting into an ascending list gives an ascending list holding the old elements plus the new one |
| `IntSeqs.Sort` | src/main/java/org/example/FlightAnalysis.java:77 | the sorted prices are ascending and a permutation of the input |
| `IntSeqs.SortedUnique` | src/main/java/org/example/FlightAnalysis.java:77 | two ascending lists with the same elements are equal, so the sorted list does not depend on how it was sorted |
| `IntSeqs.SortPermutation` | src/main/java/org/example/FlightAnalysis.java:77 | rearranging the input does not change the sorted list |
| `IntSeqs.SortedExtremes` | src/main/java/org/example/FlightAnalysis.java:77 | the first and last elements of the sorted list are the smallest and largest input values |
| `IntSeqs.SumPermutation` | src/main/java/org/example/FlightAnalysis.java:69 | the total of the prices does not depend on their order |
| `IntSeqs.SumBounds` | src/main/java/org/example/FlightAnalysis.java:69 | when every price lies in [lo, hi], the total lies in [n·lo, n·hi] |
| `IntSeqs.CountPermutation` | src/main/java/org/example/FlightAnalysis.java:77 | how many prices pass a test does not depend on their order |
| `IntSeqs.Sum` | src/main/java/org/example/FlightAnalysis.java:69 | the total inside `average()`. It has no contract of its own; `IntSeqs.SumPermutation` and `IntSeqs.SumBounds` state what it is |
| `FlightAnalysis.Keep` | src/main/java/org/example/FlightAnalysis.java:55 | one `minBy` step: the carrier of the new ticket becomes a key and the other keys keep their values. Its value becomes the smaller of the stored duration and the new one |
| `FlightAnalysis.MinByCarrier` | src/main/java/org/example/FlightAnalysis.java:53-56 | the grouping fold: its keys are exactly the carriers of the tickets; `FlightAnalysis.MinByCarrierIsMinMap` states its values |
| `FlightAnalysis.KeepStep` | src/main/java/org/example/FlightAnalysis.java:55 | one `minBy` step turns the per-carrier minimum of a list into the per-carrier minimum of that list plus one ticket |
| `FlightAnalysis.MinByCarrierIsMinMap` | src/main/java/org/example/FlightAnalysis.java:53-62 | grouping by carrier and keeping the shortest gives a map whose keys are exactly the carriers present. Each value is no greater than the duration of any ticket of that carrier and is the duration of one of them |
| `FlightAnalysis.MinMapUnique` | src/main/java/org/example/FlightAnalysis.java:55 | those three properties determine the map, so which of several equally short tickets the grouping keeps does not matter |
| `FlightAnalysis.MinDurations` | src/main/java/org/example/FlightAnalysis.java:50-63 | the result is the per-carrier minimum duration of the on-route tickets |
| `FlightAnalysis.MinDurationsKeys` | src/main/java/org/example/FlightAnalysis.java:51-62 | the keys are exactly the carriers of on-route tickets: a carrier with no on-route ticket is absent, not mapped to 0 |
| `FlightAnalysis.MinDurationsPermutation` | src/main/java/org/example/FlightAnalysis.java:53-56 | the order of the input tickets does not change the map |
| `FlightAnalysis.Mean` | src/main/java/org/example/FlightAnalysis.java:69-70 | for a non-empty list, the mean times the count is the total |
| `FlightAnalysis.AveragePrice` | src/main/java/org/example/FlightAnalysis.java:65-71 | 0 when no ticket is on the route; otherwise the mean times the number of on-route tickets equals the sum of their prices |
| `FlightAnalysis.MeanWithin` | src/main/java/org/example/FlightAnalysis.java:69 | the mean of values in [lo, hi] lies in [lo, hi] |
| `FlightAnalysis.AveragePriceBounds` | src/main/java/org/example/FlightAnalysis.java:65-71 | with at least one on-route ticket, the mean lies between the cheapest and the dearest on-route price |
| `FlightAnalysis.AveragePricePermutation` | src/main/java/org/example/FlightAnalysis.java:66-69 | the order of the input tickets does not change the mean |
| `FlightAnalysis.SortedPrices` | src/main/java/org/example/FlightAnalysis.java:74-78 | the list the median indexes is ascending and is a permutation of the on-route prices |
| `FlightAnalysis.MedianOfSorted` | src/main/java/org/example/FlightAnalysis.java:80-86 | the index arithmetic of the median: 0 for an empty list. For a non-empty ascending list the result lies between the elements at (n-1)/2 and n/2, which is the middle element for an odd count. For an even count it lies at equal distance from the two central elements |
| `FlightAnalysis.MedianPrice` | src/main/java/org/example/FlightAnalysis.java:73-87 | the median is 0 when no ticket is on the route |
| `FlightAnalysis.MedianPriceValue` | src/main/java/org/example/FlightAnalysis.java:80-86 | for any ascending rearrangement s of the on-route prices, the median is s[n/2] for an odd count n, and (s[n/2-1] + s[n/2]) / 2 as an exact real for an even count |
| `FlightAnalysis.MedianPriceBounds` | src/main/java/org/example/FlightAnalysis.java:73-87 | with at least one on-route ticket, the median lies between the cheapest and the dearest on-route price |
| `FlightAnalysis.MedianOfSortedSplits` | src/main/java/org/example/FlightAnalysis.java:80-86 | in an ascending list at least ceil(n/2) elements are at most the median and at least ceil(n/2) are at least it |
| `FlightAnalysis.MedianPriceSplits` | src/main/java/org/example/FlightAnalysis.java:73-87 | the median splits the on-route prices, in any order, into halves: at least ceil(n/2) prices are at most it and at least ceil(n/2) are at least it |
| `FlightAnalysis.MedianPricePermutation` | src/main/java/org/example/FlightAnalysis.java:74-78 | the order of the input tickets does not change the median |
| `FlightAnalysis.MedianOfTwoIsExact` | src/main/java/org/example/FlightAnalysis.java:85 | prices 100 and 101 give the median 100.5: the division is not integer division |
| `FlightAnalysis.MedianPriceAsWritten` | src/main/java/org/example/FlightAnalysis.java:80-86 | the median as the code computes it is 0 when nothing matches, and equals the exact median for an odd count |
| `FlightAnalysis.MedianOfSortedAsWritten` | src/main/java/org/example/FlightAnalysis.java:80-86 | the index arithmetic as the code does it: 0 for an empty list, and `FlightAnalysis.MedianOfSorted` for an odd count |
| `FlightAnalysis.MedianPriceAsWrittenValue` | src/main/java/org/example/FlightAnalysis.java:84-85 | for any ascending rearrangement s of the on-route prices and an even count n, the median as computed is the 32-bit wrapped s[n/2-1] + s[n/2], divided by 2 |
| `FlightAnalysis.MedianPriceAsWrittenPermutation` | src/main/java/org/example/FlightAnalysis.java:74-78 | the order of the input tickets does not change the median as computed |
| `FlightAnalysis.MedianPriceAsWrittenOverflows` | src/main/java/org/example/FlightAnalysis.java:85 | two on-route tickets priced 2147483647 give -1.0 as the code computes it, while the exact median is 2147483647 |
| `FlightAnalysis.MedianPriceAsWrittenAgrees` | src/main/java/org/example/FlightAnalysis.java:85 | when every on-route price lies in [-2^30, 2^30), the computed median equals the exact one |
| `FlightAnalysis.PriceSpread` | src/main/java/org/example/FlightAnalysis.java:35 | the subtraction at line 35 computed with the corrected median; 0 when no ticket is on the route |
| `FlightAnalysis.PriceSpreadAsWritten` | src/main/java/org/example/FlightAnalysis.java:35 | the difference the report prints, mean minus the median as computed. It is 0 when no ticket is on the route, and equals `FlightAnalysis.PriceSpread` for an odd count |
| `FlightAnalysis.PriceSpreadAsWrittenAgrees` | src/main/java/org/example/FlightAnalysis.java:35 | when every on-route price lies in [-2^30, 2^30), the printed difference equals the one computed with the corrected median |
| `FlightAnalysis.PriceSpreadAsWrittenOverflows` | src/main/java/org/example/FlightAnalysis.java:35 | two on-route tickets priced 2147483647 give a corrected spread of 0, but the printed difference is 2^31 |
| `FlightAnalysis.PriceSpreadBounds` | src/main/java/org/example/FlightAnalysis.java:35 | the spread computed with the corrected median (mean minus `MedianPrice`) is 0 with no on-route ticket. Otherwise its absolute value is at most the on-route price range |
| `FlightAnalysis.PriceSpreadOfUniformPrices` | src/main/java/org/example/FlightAnalysis.java:35 | when all on-route tickets cost the same, the spread computed with the corrected median is 0 |
| `FlightAnalysis.OffRouteTicketIgnored` | src/main/java/org/example/FlightAnalysis.java:52 | an off-route ticket inserted anywhere changes none of the three statistics, nor the median as computed |
| `FlightAnalysis.ReportExample` | src/main/java/org/example/FlightAnalysis.java:26-35 | the example lemma proves that three tickets give the map {"A": 60}, mean 150, median 150 and a corrected spread of 0. The tickets are "A" tickets of 150 and 60 minutes priced 100 and 200, and a shorter, cheaper "B" ticket flying the route the other way. "B" is absent because its direction is reversed |

## Findings

| source | as written | input that shows it | evidently intended | confidence | as-written member | corrected member |
|---|---|---|---|---|---|---|
| src/main/java/org/example/FlightAnalysis.java:85 | the two central prices are added as 32-bit `int`s before the division by `2.0`, so a large sum wraps | an even number of on-route tickets whose two central prices are both 2147483647: the sum wraps to -2 and the median comes out as -1.0 | the average of the two central prices, 2147483647.0 here (add them as `long` or `double`) | not executed; derived from Java `int` semantics, and needs prices above 2^30 to show | `FlightAnalysis.MedianPriceAsWritten` | `FlightAnalysis.MedianPrice` |

`FlightAnalysis.MedianPriceAsWritten` models the code as written, and
`FlightAnalysis.MedianPriceAsWrittenOverflows` exhibits the input above.
`FlightAnalysis.MedianPrice` is the corrected median. `FlightAnalysis.PriceSpread`
and the other lemmas use it; only `FlightAnalysis.PriceSpreadAsWritten`, the
difference the report prints, uses the median as computed.
`FlightAnalysis.MedianPriceBounds` proves the intended property about the
corrected median: it lies between the smallest and largest price, which -1.0
does not. `FlightAnalysis.MedianPriceAsWrittenAgrees` and
`FlightAnalysis.PriceSpreadAsWrittenAgrees` show that the two versions agree
whenever every price lies within half the `int` range.
`FlightAnalysis.PriceSpreadAsWrittenOverflows` shows the effect on the printed
difference: 2^31 for the input above, where the corrected one is 0.

## Left out

- `main` is not modelled, apart from the subtraction it reports
  (FlightAnalysis.java:12-36). That leaves out the argument-count check,
  `System.exit`, console output, the `%.2f` formatting and the map's
  iteration order when printing. All of it is I/O and process control.
  `PriceSpreadAsWritten` models the subtraction at line 35, and `PriceSpread`
  the same subtraction with the corrected median.
- `readTicketsFromFile` is not modelled (FlightAnalysis.java:38-48). It is file
  reading and JSON decoding through Gson, a foreign library. The model takes
  the decoded ticket list as its input.
- Duration computation is not modelled. `getDeparture`, `getArrival` and
  `getDuration` are called but not defined in the Ticket class shown
  (Ticket.java:16-46). The ticket therefore carries `departure`, `arrival` and
  an opaque `duration : Int32` as fields. No conversion of the date and time
  strings into minutes exists in the code. So neither such a conversion nor an
  error for an arrival before the departure is modelled.
- Only these ticket fields are modelled: carrier, departure, arrival,
  duration and price. The origin and destination codes, the date and time
  strings and the unused `stops` count (Ticket.java:3-14) are left out.
- Floating point is not modelled. The mean and the median are exact `real`s;
  the rounding of `double` in `average()` and in `/ 2.0` is not.
- Null fields are not modelled. A missing name would make `equals` throw, but
  decoded strings are taken as values.
- `Tickets.Filter`: its own contract states only that the result is no longer
  than the input. What it keeps is stated by `Tickets.FilterMembers` and
  `Tickets.FilterMultiset`.
- `FlightAnalysis.MedianPrice`: its own contract states only the empty case.
  Its value for an odd and for an even count is stated by
  `FlightAnalysis.MedianPriceValue`; its bounds and the split of the prices
  by `FlightAnalysis.MedianPriceBounds` and `FlightAnalysis.MedianPriceSplits`.
