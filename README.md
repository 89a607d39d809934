# Flight booking engine and lecture algorithms, modelled in Dafny

This project models the flight-booking engine of `codes/flightbooking_system.cpp` and the algorithm
lectures that go with it (`lecture10_*` and `lecture11_*`), and proves properties of the model.

The booking engine has these parts:

- **Flights and bookings** (`flights.dfy`, module `Flights`).
  - A `Flight` is a class. Its route, times, kind and capacity are constants. Its
    `availableSeats` counter goes down when a seat is booked.
  - A `Booking` is a class that points at its flight. Confirming a booking takes a seat from
    that flight, so bookings on one flight share its counter, as they do in the source.
  - The source's confirmation never looks at the booking's `confirmed` flag, so confirming
    twice takes two seats. `ConfirmBooking` keeps that behaviour; `ConfirmBookingChecked`
    refuses a booking already confirmed and changes nothing then (see Findings).
  - A booking's price is the base fare times the seat-class multiplier.
  - Also in this module: the two pricing strategies and the factory that builds a flight from
    a type tag.
- **The manager** (`booking_system.dfy`, module `BookingSystem`).
  - It holds a catalog of flights, a ledger of bookings and a counter. Each new booking gets
    the identifier `"BK"` + counter, and the counter moves on.
  - The searches return the first flight to a city, the flights within a fare range, and the
    most expensive flight within a budget. The budget search sorts a copy of the catalog and
    binary-searches it.
  - Also here: the two sorts and the revenue of the confirmed bookings.
  - Main properties proved:
    - The ledger invariant: one identifier per counter value, each issued once.
    - Revenue does not depend on ledger order.
    - Decimal identifiers round-trip.
- **The sorts** (`flight_sorting.dfy`, module `FlightSorting`).
  - Flights are sorted by a Lomuto quicksort on base fare. It is proved sorted and a
    permutation.
  - Bookings are sorted by a top-down merge sort on total price. It is proved *stable*: for
    every price, the bookings of that price keep their relative order.
- **The route optimizer** (`route_optimizer.dfy`, module `Routes`).
  - An undirected graph is kept as a map from city to adjacency list.
  - Dijkstra's search uses lazy deletion of stale queue entries. It is proved to return, for
    every city of the graph, the price of a cheapest route, or infinity when no route exists.
- **The seat assigner** (`seat_assigner.dfy`, module `Seats`).
  - The grid is a class whose methods update it.
  - A seat is assigned greedily: the first free seat among columns 0, 2, 3, 5 and the window
    column, taken row by row, and otherwise the first free seat in row-major order.
  - The window column is tried within each row's scan, right after that row's aisle columns,
    as the code does. The preference list is not "all aisles first".

The lecture files are modelled the same way, one module each:

- `lecture10_sorting.dfy`: bubble, selection and insertion sort on an array prefix.
- `lecture10_search.dfy`: linear and binary search, and the sort-then-search demo.
- `lecture10_stack.dfy`: the bounded array stack.
- `lecture10_queue.dfy`: the linked-list queue, as heap-allocated nodes with a ghost node
  list.
- `lecture10_structures.dfy`: the grade rule and the circular queue.
- `lecture11_heap.dfy`: max- and min-heaps, heap sort, insert, extract-max and the heap check.
- `lecture11_merge.dfy`: merge, recursive and bottom-up merge sort, inversion counting and the
  external merge.
- `lecture11_bst.dfy`: the binary search tree as an algebraic datatype, with insert, search,
  delete, height, balance, traversals and the array-queue level-order traversal.
- `lecture11_search.dfy`: iterative and recursive binary search, and first and last
  occurrence.
- `ordering.dfy`: sortedness predicates and sequence facts shared by the sorts and searches.

Doubles are modelled as exact `real`s and C++ `int` as unbounded `int`. The infinity of the
route search is the `Infinite` case of the `Cost` datatype.

The demonstrations in the `main` functions are modelled as methods whose `ensures` state the
values `main` computes. Console output is not modelled.

## Model

| member | source | states |
|---|---|---|
| Flights.BasePrice | codes/flightbooking_system.cpp:64-80 | a domestic flight's base fare is 5000, an international one's 25000; every base fare is positive |
| Flights.Multiplier | codes/flightbooking_system.cpp:123-132 | Economy 1.0, Business 2.5, First 4.0: every multiplier lies between 1 and 4 |
| Flights.TicketPrice | codes/flightbooking_system.cpp:118-132 | a booking's price is at least the base fare and at most four times it |
| Flights.StandardPrice | codes/flightbooking_system.cpp:466-476 | the standard strategy multiplies the base fare by the same class multiplier a booking uses |
| Flights.DiscountPrice | codes/flightbooking_system.cpp:478-488 | the discount strategy charges exactly 80% of the standard strategy in every seat class |
| Flights.StandardIsBookingPrice | codes/flightbooking_system.cpp:466-476 | the standard strategy on a flight's base fare equals the price a booking computes for it |
| Flights.PricingDemo | codes/flightbooking_system.cpp:612-618 | on base fare 5000, Business costs 12500 under the standard strategy and 10000 under the discount one |
| Flights.Flight.constructor | codes/flightbooking_system.cpp:34-36 | a new flight stores its data and has every seat free |
| Flights.Flight.BookSeat | codes/flightbooking_system.cpp:41-47 | succeeds exactly when a seat is free, then takes one; the counter stays between 0 and the capacity |
| Flights.Booking.constructor | codes/flightbooking_system.cpp:118-121 | a new booking stores its data and is pending |
| Flights.Flight.Price | codes/flightbooking_system.cpp:64-80 | a flight's base fare is positive, and it is 5000 exactly when the flight is domestic |
| Flights.Booking.TotalPrice | codes/flightbooking_system.cpp:118-132 | a booking's total price lies between its flight's base fare and four times that fare |
| Flights.Booking.ConfirmBooking | codes/flightbooking_system.cpp:134-140 | books a seat on the shared flight and marks the booking confirmed exactly when that succeeds; a confirmed booking stays confirmed; the flag is never consulted |
| Flights.Booking.ConfirmBookingChecked | codes/flightbooking_system.cpp:134-140 | succeeds exactly when the booking is still pending and its flight has a free seat, then takes that one seat and marks the booking confirmed; a refusal changes neither the flag nor the seat count |
| Flights.ConfirmTwiceDemo | codes/flightbooking_system.cpp:134-140 | confirming one booking twice on a two-seat flight takes both seats, because the confirmed flag is not checked |
| Flights.ConfirmTwiceCheckedDemo | codes/flightbooking_system.cpp:134-140 | with the check, the second confirmation of the same booking on a two-seat flight is refused and one seat stays free |
| Flights.KindOfTag | codes/flightbooking_system.cpp:449-456 | only the tags "Domestic" and "International" name a flight kind; every other tag names none |
| Flights.CreateFlight | codes/flightbooking_system.cpp:447-457 | the factory returns null exactly for an unknown tag, and otherwise a fresh flight of the tagged kind with the given data |
| BookingSystem.DecimalString | codes/flightbooking_system.cpp:183 | `to_string` of a counter value is a non-empty run of digits without a leading zero |
| BookingSystem.DecimalRoundTrip | codes/flightbooking_system.cpp:183 | reading back the decimal string of a counter value gives that value |
| BookingSystem.BookingIdInjective | codes/flightbooking_system.cpp:183 | different counter values give different booking identifiers |
| BookingSystem.FirstBookingId | codes/flightbooking_system.cpp:174-183 | the first booking of a fresh manager is "BK1000" |
| BookingSystem.NewIdUnissued | codes/flightbooking_system.cpp:183 | the identifier issued at the current counter differs from every identifier issued before |
| BookingSystem.FirstNumbered | codes/flightbooking_system.cpp:181-182 | the index of the first flight with the given number, or the catalog length when there is none |
| BookingSystem.FirstNumberedAt | codes/flightbooking_system.cpp:181-186 | a matching flight with no match before it is the first match |
| BookingSystem.FirstArriving | codes/flightbooking_system.cpp:198-203 | the index of the first flight to the given city, or the catalog length when there is none |
| BookingSystem.InPriceRange | codes/flightbooking_system.cpp:207-216 | the result holds exactly the catalog flights whose base fare lies in the closed range |
| BookingSystem.InPriceRangeAppend | codes/flightbooking_system.cpp:207-216 | the range filter keeps catalog order: filtering a concatenation concatenates the filtered parts |
| BookingSystem.Revenue | codes/flightbooking_system.cpp:331-339 | the revenue of a ledger is never negative |
| BookingSystem.RevenueZero | codes/flightbooking_system.cpp:331-339 | a ledger earns nothing exactly when none of its bookings is confirmed |
| BookingSystem.RevenueAppend | codes/flightbooking_system.cpp:331-339 | the revenue of two ledgers side by side is the sum of their revenues |
| BookingSystem.PairRevenue | codes/flightbooking_system.cpp:331-339 | two confirmed bookings earn both their prices |
| BookingSystem.RevenueRemove | codes/flightbooking_system.cpp:331-339 | taking one booking out of a ledger takes out exactly what it earns |
| BookingSystem.RevenuePermutation | codes/flightbooking_system.cpp:331-339 | revenue does not depend on ledger order, so sorting the ledger keeps it |
| BookingSystem.LedgerGrow | codes/flightbooking_system.cpp:180-187 | appending a new booking that carries the next identifier keeps the ledger invariant with the counter one higher |
| BookingSystem.LedgerPermute | codes/flightbooking_system.cpp:276-278 | reordering the ledger keeps the ledger invariant |
| BookingSystem.FlightBookingSystem.constructor | codes/flightbooking_system.cpp:174 | the manager starts with an empty catalog and ledger and the counter at 1000 |
| BookingSystem.FlightBookingSystem.AddFlight | codes/flightbooking_system.cpp:176-178 | the flight is appended to the catalog and nothing else changes |
| BookingSystem.FlightBookingSystem.CreateBooking | codes/flightbooking_system.cpp:180-190 | with no flight of that number: null, nothing changes. Otherwise: a fresh pending booking on the first such flight, with identifier "BK" + old counter; the counter moves on and the booking is appended; the ledger invariant holds |
| BookingSystem.FlightBookingSystem.FindFlightByDestination | codes/flightbooking_system.cpp:197-204 | null exactly when no catalog flight goes to the city; otherwise the first catalog flight, in catalog order, that goes there |
| BookingSystem.FlightBookingSystem.FindFlightsByPriceRange | codes/flightbooking_system.cpp:207-216 | every flight returned is a catalog flight whose base fare lies in the closed range, and every catalog flight whose fare lies there is returned |
| BookingSystem.FlightBookingSystem.FindCheapestFlight | codes/flightbooking_system.cpp:219-242 | null exactly when every flight costs more than the budget; otherwise a catalog flight within budget with no dearer one within budget |
| BookingSystem.SearchWithinBudget | codes/flightbooking_system.cpp:227-241 | on a fare-sorted array: null exactly when every fare exceeds the budget, otherwise the dearest flight within budget |
| BookingSystem.FlightBookingSystem.TotalRevenue | codes/flightbooking_system.cpp:331-339 | the manager's revenue is never negative, and is zero exactly when no booking of its ledger is confirmed |
| BookingSystem.FlightBookingSystem.SortBookingsByPrice | codes/flightbooking_system.cpp:276-278 | the ledger is stably sorted by total price and is a permutation of the old one; the catalog, counter and ledger invariant are kept |
| BookingSystem.DemoLedger | codes/flightbooking_system.cpp:497-516 | the demonstration's two bookings are "BK1000" Economy at 5000 and a Business booking at 62500, both confirmed by the as-written confirmation |
| BookingSystem.BookingDemo | codes/flightbooking_system.cpp:497-522 | the demonstration ledger earns 67500 and its first identifier is "BK1000" |
| BookingSystem.SearchDemo | codes/flightbooking_system.cpp:530-545 | the flight to Mumbai is AI101, one flight costs between 4000 and 6000, and the dearest within 10000 is AI101 |
| FlightSorting.SwapFlights | codes/flightbooking_system.cpp:268 | exchanges two cells and nothing else, keeping the multiset |
| FlightSorting.Partition | codes/flightbooking_system.cpp:261-273 | reorders the range so the pivot (the last fare) ends at the returned index, with nothing dearer before it and nothing cheaper or equal after it |
| FlightSorting.PartitionScan | codes/flightbooking_system.cpp:263-270 | after the scan, fares up to `i` are at most the pivot and those after it are above the pivot, as a permutation |
| FlightSorting.QuickSort | codes/flightbooking_system.cpp:253-259 | the range is sorted by fare, holds the same flights, and nothing outside it changes |
| FlightSorting.SortSides | codes/flightbooking_system.cpp:256-257 | the two recursive calls around a placed pivot sort the whole range |
| FlightSorting.QuickSortStep | codes/flightbooking_system.cpp:253-259 | a placed pivot plus two sorted sides gives a sorted range |
| FlightSorting.PivotPerm | codes/flightbooking_system.cpp:253-259 | the three quicksort steps keep the flights of the range |
| FlightSorting.SortedAroundPivot | codes/flightbooking_system.cpp:253-259 | sorted sides around a pivot with no dearer fare before it and only dearer fares after it form a sorted range |
| FlightSorting.PermutedThenSorted | codes/flightbooking_system.cpp:253-259 | sorting a permutation of a range sorts the original range |
| FlightSorting.SortFlightsByPrice | codes/flightbooking_system.cpp:249-251 | the whole list is sorted by base fare and is a permutation of the old list |
| FlightSorting.WithPriceAppend | codes/flightbooking_system.cpp:275-309 | picking the bookings of one price distributes over concatenation |
| FlightSorting.WithPriceCount | codes/flightbooking_system.cpp:275-309 | a booking occurs as often among the bookings of its own price as in the whole ledger |
| FlightSorting.StablePerm | codes/flightbooking_system.cpp:275-309 | a stable sort is a permutation |
| FlightSorting.Merged | codes/flightbooking_system.cpp:289-309 | the merge of two runs is as long as both together |
| FlightSorting.MergedHead | codes/flightbooking_system.cpp:298-305 | the merge starts with the left head when it is no dearer than the right one, otherwise with the right head |
| FlightSorting.MergedSorted | codes/flightbooking_system.cpp:289-309 | merging two price-sorted runs gives a price-sorted run |
| FlightSorting.MergedStable | codes/flightbooking_system.cpp:298-305 | for every price, the merge lists the left run's bookings of that price before the right run's, each in its original order |
| FlightSorting.MergedIsMergeAt | codes/flightbooking_system.cpp:297-308 | the merge loops' state at any point continues into the recursive merge |
| FlightSorting.Merge | codes/flightbooking_system.cpp:289-309 | the range becomes the merge of its two halves and nothing else changes |
| FlightSorting.MergeRuns | codes/flightbooking_system.cpp:297-308 | the three loops write the merge of the copied runs from `left` on |
| FlightSorting.MergeTails | codes/flightbooking_system.cpp:307-308 | once one run is used up, the copy loops finish the merge and touch nothing else |
| FlightSorting.MergeSort | codes/flightbooking_system.cpp:280-287 | the range is stably sorted by total price, and every other cell keeps its value |
| FlightSorting.SortHalves | codes/flightbooking_system.cpp:283-284 | the two recursive calls leave each half stably sorted |
| FlightSorting.MergeSortStep | codes/flightbooking_system.cpp:280-287 | two stably sorted halves, merged, give a stably sorted range |
| FlightSorting.MergeStepStable | codes/flightbooking_system.cpp:285 | for every price, merging the sorted halves keeps the range's bookings of that price in order |
| FlightSorting.SortBookings | codes/flightbooking_system.cpp:276-278 | the whole ledger array is stably sorted by total price |
| Routes.AddEdge | codes/flightbooking_system.cpp:356 | adding a one-way flight gives its origin a list and keeps every city the graph had |
| Routes.AddRoute | codes/flightbooking_system.cpp:355-358 | adding a route gives both of its cities a list |
| Routes.AddRouteEffect | codes/flightbooking_system.cpp:355-358 | adding a route creates lists for both cities and appends the flight to each; every other list is unchanged |
| Routes.ClosedAddRoute | codes/flightbooking_system.cpp:355-358 | after adding a route, every flight still lands in a city that has a list |
| Routes.NonNegativeAddRoute | codes/flightbooking_system.cpp:355-358 | adding a route of non-negative price keeps every price non-negative |
| Routes.WalkExtend | codes/flightbooking_system.cpp:375-379 | a route plus one flight out of its end reaches that flight's city, at the sum of the prices |
| Routes.WalkStaysInGraph | codes/flightbooking_system.cpp:355-358 | in a graph where every flight lands in a known city, every route ends in a known city |
| Routes.RelaxedBoundsWalks | codes/flightbooking_system.cpp:375-381 | when no flight can lower a distance, every route from the start costs at least the distance of its end |
| Routes.MinEntryExists | codes/flightbooking_system.cpp:371 | a non-empty queue has an entry of least cost to pop |
| Routes.Dijkstra | codes/flightbooking_system.cpp:360-383 | the distance map has exactly the graph's cities; each distance is the price of a cheapest route, or infinity when no route exists |
| Routes.RelaxEdges | codes/flightbooking_system.cpp:375-381 | relaxing the flights out of the popped city keeps the search invariant |
| Routes.StartSearch | codes/flightbooking_system.cpp:362-368 | start at distance 0, every other city at infinity and one queue entry: the search invariant holds |
| Routes.StalePop | codes/flightbooking_system.cpp:373 | skipping a stale queue entry keeps the search invariant |
| Routes.SettlePop | codes/flightbooking_system.cpp:371-373 | a current least entry names a city not yet settled, and the search may settle it |
| Routes.FinishSearch | codes/flightbooking_system.cpp:370-384 | with the queue empty, every distance is that of a cheapest route |
| Routes.RouteOptimizer.constructor | codes/flightbooking_system.cpp:350-352 | the graph starts empty |
| Routes.RouteOptimizer.AddFlightRoute | codes/flightbooking_system.cpp:355-358 | the graph gains the flight in both directions; closedness and non-negative prices are kept |
| Routes.RouteOptimizer.FindCheapestRoute | codes/flightbooking_system.cpp:360-385 | the start city gets a list if it had none; a known end gets its cheapest price or infinity; an unknown end reads 0 |
| Routes.RouteOptimizer.FindCheapestRouteChecked | codes/flightbooking_system.cpp:360-385 | as above, but every city with no route, known or not, gets infinity |
| Routes.RouteOptimizer.Search | codes/flightbooking_system.cpp:360-383 | the start city gets a list if it had none; the distance map covers the graph's cities and holds each one's cheapest price |
| Routes.UnknownEndReadsZero | codes/flightbooking_system.cpp:384 | for a city the search never saw, the answer as written is 0, which is not the cheapest price; infinity is |
| Routes.DemoBuild | codes/flightbooking_system.cpp:579-582 | the three route additions of the demonstration build the demonstration network |
| Routes.DemoCheapest | codes/flightbooking_system.cpp:584 | on that network the cheapest Delhi to Bangalore price is 8000 |
| Routes.RouteDemo | codes/flightbooking_system.cpp:579-585 | the demonstration query returns 8000 |
| Routes.UnknownCityDemo | codes/flightbooking_system.cpp:384 | asking for an unknown city gives 0 as written, and infinity once corrected |
| Seats.FirstFreeIn | codes/flightbooking_system.cpp:420-424 | the first free seat of a row from a column on, or the row length when there is none |
| Seats.FirstFreeRow | codes/flightbooking_system.cpp:419-426 | the first row from a given row on with a free seat; every row before it is full |
| Seats.BestSeat | codes/flightbooking_system.cpp:396-429 | the seat the assigner gives is (-1, -1) or a free seat of the grid |
| Seats.AddRowPrefsHead | codes/flightbooking_system.cpp:403-409 | scanning one row appends its free preferred seats; the list's head is the first free preference of the rows scanned so far |
| Seats.PreferencesHead | codes/flightbooking_system.cpp:398-410 | the candidate list is empty exactly when no preferred seat is free; otherwise its head is the first free preferred seat in row-then-preference order |
| Seats.BestSeatIsFree | codes/flightbooking_system.cpp:396-429 | an assigned seat lies in the grid and was free |
| Seats.BestSeatFullIff | codes/flightbooking_system.cpp:396-429 | (-1, -1) is returned exactly when every seat is occupied |
| Seats.BestSeatPreferred | codes/flightbooking_system.cpp:412-416 | when some preferred seat is free, the first free one in row-then-preference order is assigned |
| Seats.BestSeatAt | codes/flightbooking_system.cpp:412-416 | a free preference with no free preference before it is the seat assigned |
| Seats.BestSeatFallback | codes/flightbooking_system.cpp:418-429 | when no preferred seat is free, the first free seat in row-major order is assigned, or (-1, -1) |
| Seats.OccupyEffect | codes/flightbooking_system.cpp:414 | taking a seat marks exactly that seat occupied and keeps the grid's shape |
| Seats.SeatAssigner.constructor | codes/flightbooking_system.cpp:394 | a new grid has the given rows of free seats |
| Seats.SeatAssigner.AssignBestSeat | codes/flightbooking_system.cpp:396-429 | returns the best seat of the old grid and marks exactly it occupied; the grid stays well-formed |
| Seats.SeatAssigner.CollectPreferences | codes/flightbooking_system.cpp:398-410 | builds the candidate list of free preferred seats, row by row in preference order |
| Seats.SeatAssigner.FirstFreeSeat | codes/flightbooking_system.cpp:418-429 | the row-major scan finds the first free seat, or (-1, -1) on a full grid |
| Seats.FirstFreeAt | codes/flightbooking_system.cpp:419-424 | a scan that stops at the first free seat stops where the fallback says |
| Seats.DemoStart | codes/flightbooking_system.cpp:588 | a fresh 10 by 6 grid has no seat taken |
| Seats.DemoStep | codes/flightbooking_system.cpp:593-598 | in the demonstration the k-th assignment gives row 0's k-th preference, then row 1's first seat |
| Seats.SeatDemo | codes/flightbooking_system.cpp:588-598 | five assignments on a fresh 10 by 6 grid give (0,0), (0,2), (0,3), (0,5), (1,0) |
| Ordering.SortedConcat | codes/lecture11_merge.cpp:11-68 | two sorted runs, the first bounded by the second, form a sorted run |
| Ordering.Swap | codes/lecture10_sorting.cpp:23-25 | exchanges two cells and nothing else, keeping the prefix's multiset |
| Ordering.RotatePerm | codes/lecture10_sorting.cpp:56-63 | moving a block past another keeps the multiset |
| Lecture10Sorting.BubbleSort | codes/lecture10_sorting.cpp:16-30 | the prefix becomes sorted, keeps its values, and the rest of the array is untouched |
| Lecture10Sorting.BubblePass | codes/lecture10_sorting.cpp:20-27 | one pass carries the largest value of the unsorted part to its end, as a permutation |
| Lecture10Sorting.SelectionSort | codes/lecture10_sorting.cpp:33-50 | the prefix becomes sorted, keeps its values, and the rest of the array is untouched |
| Lecture10Sorting.InsertionSort | codes/lecture10_sorting.cpp:53-68 | the prefix becomes sorted, keeps its values, and the rest of the array is untouched |
| Lecture10Sorting.InsertKey | codes/lecture10_sorting.cpp:56-63 | the key drops to the point where everything passed is larger and the cell before is not, and the cells in between move up one |
| Lecture10Sorting.ShiftedInSorted | codes/lecture10_sorting.cpp:56-63 | inserting at the insertion point of a sorted prefix gives a longer sorted prefix |
| Lecture10Sorting.ShiftedInPerm | codes/lecture10_sorting.cpp:56-63 | the shift permutes the prefix and leaves the cells after it alone |
| Lecture10Search.LinearSearch | codes/lecture10_search.cpp:8-15 | the first index holding the target, or -1 exactly when it does not occur |
| Lecture10Search.BinarySearch | codes/lecture10_search.cpp:18-34 | on a sorted prefix: an index holding the target, or -1 exactly when it does not occur |
| Lecture10Search.SortThenSearch | codes/lecture10_search.cpp:65-89 | the bubble sort leaves the prefix sorted with the same values, and the search then finds the target exactly when it was there |
| Lecture10Search.LinearSearchDemo | codes/lecture10_search.cpp:36-63 | in the demonstration array 67 is at index 3 and 100 is absent |
| Lecture10Stack.Stack.constructor | codes/lecture10_stack.cpp:15-17 | a new stack is empty |
| Lecture10Stack.Stack.Push | codes/lecture10_stack.cpp:20-27 | on a stack that is not full the value goes on top; on a full stack nothing changes |
| Lecture10Stack.Stack.Pop | codes/lecture10_stack.cpp:30-38 | on an empty stack: -1, nothing changes; otherwise the top value is returned and removed |
| Lecture10Stack.Stack.Peek | codes/lecture10_stack.cpp:41-47 | the top value, or -1 on an empty stack |
| Lecture10Stack.Stack.IsEmpty | codes/lecture10_stack.cpp:50-52 | true exactly when nothing is stacked |
| Lecture10Stack.Stack.Size | codes/lecture10_stack.cpp:55-57 | the number of stacked values, at most the capacity 100 |
| Lecture10Stack.PushThenPop | codes/lecture10_stack.cpp:20-38 | last in, first out: a pop right after a push returns the pushed value and restores the stack |
| Lecture10Stack.Reversed | codes/lecture10_stack.cpp:100-102 | reversal keeps the length |
| Lecture10Stack.ReversedAt | codes/lecture10_stack.cpp:100-102 | position k of the reversal is position length - 1 - k of the original |
| Lecture10Stack.ReversedTwice | codes/lecture10_stack.cpp:100-102 | reversing twice gives back the sequence |
| Lecture10Stack.Drain | codes/lecture10_stack.cpp:100-102 | popping until empty yields the contents in reverse order |
| Lecture10Stack.StackDemo | codes/lecture10_stack.cpp:73-109 | the demonstration peeks 30, has size 4, drains 50, 40, 20, 10, and a pop on the empty stack gives -1 |
| Lecture10Stack.DemoReversed | codes/lecture10_stack.cpp:100-102 | the reversal of 10, 20, 40, 50 is 50, 40, 20, 10 |
| Lecture10Queue.Node.constructor | codes/lecture10_queue.cpp:12-15 | a new node holds its value and has no successor |
| Lecture10Queue.Queue.constructor | codes/lecture10_queue.cpp:27-31 | a new queue is empty |
| Lecture10Queue.Queue.Enqueue | codes/lecture10_queue.cpp:41-54 | a fresh node joins the back; the contents gain the value at the end and the size grows by one |
| Lecture10Queue.Queue.Dequeue | codes/lecture10_queue.cpp:57-78 | on an empty queue: -1, nothing changes; otherwise the front value is returned and removed; dequeuing the last node empties both ends |
| Lecture10Queue.Queue.GetFront | codes/lecture10_queue.cpp:81-87 | the front value, or -1 on an empty queue |
| Lecture10Queue.Queue.GetRear | codes/lecture10_queue.cpp:90-96 | the rear value, or -1 on an empty queue |
| Lecture10Queue.Queue.IsEmpty | codes/lecture10_queue.cpp:99-101 | a null front means exactly that nothing is queued |
| Lecture10Queue.Queue.GetSize | codes/lecture10_queue.cpp:104-106 | the size counter equals the number of queued values and of linked nodes |
| Lecture10Queue.Drain | codes/lecture10_queue.cpp:152-154 | dequeuing until empty yields the contents in the order they were queued |
| Lecture10Queue.QueueDemo | codes/lecture10_queue.cpp:125-161 | the demonstration sees front 10, rear 30, size 3, drains 20, 30, 40, 50, and a dequeue on the empty queue gives -1 |
| Lecture10Structures.CalculateGrade | codes/lecture10_structures.cpp:25-31 | the grade is one of A to D or F; A exactly from 90 marks, F exactly below 60 |
| Lecture10Structures.GradeIsBestEarned | codes/lecture10_structures.cpp:25-31 | the marks reach the threshold of the grade given, and fall short of every better grade's threshold |
| Lecture10Structures.GradeMonotone | codes/lecture10_structures.cpp:25-31 | more marks never give a worse grade |
| Lecture10Structures.GradeDemo | codes/lecture10_structures.cpp:102-110 | 95.5 earns A, 87.2 earns B and 76.8 earns C |
| Lecture10Structures.Next | codes/lecture10_structures.cpp:51 | the index after `i` on the ring is `(i + 1) % 100` |
| Lecture10Structures.Slot | codes/lecture10_structures.cpp:89 | the cell `i` places after `front` is `(front + i) % 100` |
| Lecture10Structures.WindowExtend | codes/lecture10_structures.cpp:51-53 | writing after the window appends the value to the queued values |
| Lecture10Structures.WindowAdvance | codes/lecture10_structures.cpp:63-65 | advancing the front drops the first queued value |
| Lecture10Structures.Queue.constructor | codes/lecture10_structures.cpp:39-43 | a new queue has front 0, rear -1 and nothing queued |
| Lecture10Structures.Queue.Enqueue | codes/lecture10_structures.cpp:46-55 | on a queue that is not full the value joins the back at the next ring cell; on a full queue nothing changes |
| Lecture10Structures.Queue.Dequeue | codes/lecture10_structures.cpp:58-68 | on an empty queue: -1, nothing changes; otherwise the front value is returned and removed |
| Lecture10Structures.Queue.GetFront | codes/lecture10_structures.cpp:71-74 | the front value, or -1 on an empty queue |
| Lecture10Structures.Queue.IsEmpty | codes/lecture10_structures.cpp:77-79 | true exactly when nothing is queued |
| Lecture10Structures.Drain | codes/lecture10_structures.cpp:135-137 | dequeuing until empty yields the contents in the order they were queued |
| Lecture10Structures.QueueDemo | codes/lecture10_structures.cpp:114-137 | the demonstration's front is 20 after one dequeue, and it drains 20, 30, 40, 50 |
| Lecture11Search.BinarySearchIterative | codes/lecture11_search.cpp:11-27 | on a sorted prefix: an index holding the target, or -1 exactly when it does not occur |
| Lecture11Search.BinarySearchRecursive | codes/lecture11_search.cpp:30-46 | on a sorted range: an index in the range holding the target, or -1 exactly when no cell of the range holds it |
| Lecture11Search.FindFirstOccurrence | codes/lecture11_search.cpp:49-68 | the least index holding the target, or -1 exactly when it does not occur |
| Lecture11Search.FindLastOccurrence | codes/lecture11_search.cpp:71-90 | the greatest index holding the target, or -1 exactly when it does not occur |
| Lecture11Search.DemoArray | codes/lecture11_search.cpp:104-105 | the demonstration array is sorted |
| Lecture11Search.SearchDemo | codes/lecture11_search.cpp:110-137 | the recursive search finds 23 at index 5, its first probe; the iterative search finds it at index 5 or 6; 100 is not found |
| Lecture11Search.DuplicatesDemo | codes/lecture11_search.cpp:139-149 | 23 occurs first at index 5 and last at index 6 |
| Lecture11Heap.SortedByOrder | codes/lecture11_heap.cpp:95-117 | heap-sort order is ascending for a max-heap and descending for a min-heap |
| Lecture11Heap.RootAbove | codes/lecture11_heap.cpp:234-240 | in a heap the root stands above the value at any index: not smaller in a max-heap, not larger in a min-heap |
| Lecture11Heap.RootAboveAll | codes/lecture11_heap.cpp:234-240 | a max-heap's root is at least, and a min-heap's at most, every value |
| Lecture11Heap.Heapify | codes/lecture11_heap.cpp:35-84 | sifting down repairs a heap broken only at `i`, as a permutation of the heap cells |
| Lecture11Heap.HeapifyMin | codes/lecture11_heap.cpp:167-181 | the same for a min-heap, with the smaller child moving up |
| Lecture11Heap.SiftStep | codes/lecture11_heap.cpp:35-84 | one exchange with the chosen child moves the break down to that child |
| Lecture11Heap.BuildMaxHeap | codes/lecture11_heap.cpp:87-92 | the prefix becomes a max-heap with the same values |
| Lecture11Heap.BuildMinHeap | codes/lecture11_heap.cpp:184-188 | the prefix becomes a min-heap with the same values |
| Lecture11Heap.HeapSort | codes/lecture11_heap.cpp:95-117 | the prefix is sorted ascending, keeps its values, and the rest is untouched |
| Lecture11Heap.HeapSortMin | codes/lecture11_heap.cpp:191-200 | the prefix is sorted descending, keeps its values, and the rest is untouched |
| Lecture11Heap.MoveRootToEnd | codes/lecture11_heap.cpp:103-116 | one round moves the maximum to cell `i` and re-heaps the cells before it |
| Lecture11Heap.MoveMinToEnd | codes/lecture11_heap.cpp:196-199 | one round moves the minimum to cell `i` and re-heaps the cells before it |
| Lecture11Heap.SortRound | codes/lecture11_heap.cpp:103-116 | a round keeps the sorting invariant, with the sorted tail one cell longer |
| Lecture11Heap.SortDone | codes/lecture11_heap.cpp:103 | when the loop stops, the whole prefix is in heap-sort order |
| Lecture11Heap.InsertMaxHeap | codes/lecture11_heap.cpp:205-216 | the heap grows by one, gains exactly the value, and is still a max-heap |
| Lecture11Heap.BubbleStep | codes/lecture11_heap.cpp:212-214 | one exchange of bubble-up moves the break to the parent |
| Lecture11Heap.BubbleDone | codes/lecture11_heap.cpp:212 | bubble-up stops at the root or under a parent that is not smaller, and the heap is whole |
| Lecture11Heap.ExtractMax | codes/lecture11_heap.cpp:219-231 | an empty heap gives -1 and nothing changes; otherwise it returns the old root (the maximum), loses exactly it, and stays a max-heap |
| Lecture11Heap.ExtractPerm | codes/lecture11_heap.cpp:225-227 | moving the last value onto the root loses exactly the old root |
| Lecture11Heap.GetMax | codes/lecture11_heap.cpp:234-240 | -1 on an empty heap; otherwise a value of the heap, and on a max-heap its maximum |
| Lecture11Heap.CDiv | codes/lecture11_heap.cpp:326 | C division truncates toward zero |
| Lecture11Heap.RootAboveIfHeap | codes/lecture11_heap.cpp:234-240 | when the prefix is a heap, its root is above every value of the prefix |
| Lecture11Heap.IsHeapAsWritten | codes/lecture11_heap.cpp:325-331 | for sizes other than 1 the check answers exactly whether the prefix is a max-heap; for size 1 it compares with the cell past the prefix |
| Lecture11Heap.OneCellHeapRejected | codes/lecture11_heap.cpp:325-331 | a one-cell heap followed by a larger value is rejected |
| Lecture11Heap.IsHeap | codes/lecture11_heap.cpp:325-331 | true exactly when the prefix is a max-heap |
| Lecture11Heap.IsHeapDemo | codes/lecture11_heap.cpp:393-398 | {45, 15, 5, 4, 3, 2} is a valid max-heap |
| Lecture11Merge.Merged | codes/lecture11_merge.cpp:37-60 | the merge is as long as both inputs together |
| Lecture11Merge.MergedPerm | codes/lecture11_merge.cpp:37-60 | merging keeps every value of both inputs and adds nothing |
| Lecture11Merge.MergedHead | codes/lecture11_merge.cpp:37-46 | the merge starts with the left head when it is not larger, otherwise with the right head |
| Lecture11Merge.MergedSorted | codes/lecture11_merge.cpp:37-60 | merging two sorted sequences gives a sorted sequence |
| Lecture11Merge.MergedIsMergeAt | codes/lecture11_merge.cpp:37-60 | the merge loops' state at any point continues into the recursive merge |
| Lecture11Merge.Merge | codes/lecture11_merge.cpp:11-68 | the range becomes the merge of its two halves and nothing else changes |
| Lecture11Merge.MergeRuns | codes/lecture11_merge.cpp:33-60 | the three loops write the merge of the copied runs from `left` on |
| Lecture11Merge.MergeTails | codes/lecture11_merge.cpp:48-60 | once one run is used up, the copy loops finish the merge and touch nothing else |
| Lecture11Merge.MergeSort | codes/lecture11_merge.cpp:71-100 | the range becomes sorted with the same values, and nothing outside it changes |
| Lecture11Merge.MergeSortStep | codes/lecture11_merge.cpp:84-92 | two sorted halves, merged, give a sorted range with the original values |
| Lecture11Merge.MergeStepContents | codes/lecture11_merge.cpp:92 | the merged range is sorted and holds the values the range had before the recursive calls |
| Lecture11Merge.Min | codes/lecture11_merge.cpp:110-111 | the smaller of two integers |
| Lecture11Merge.MergeSortIterative | codes/lecture11_merge.cpp:103-119 | the bottom-up passes leave the prefix sorted with the same values, and nothing after it changes |
| Lecture11Merge.PassDone | codes/lecture11_merge.cpp:109 | once a pass is past the end, every block of the doubled width is sorted |
| Lecture11Merge.WidthOneRuns | codes/lecture11_merge.cpp:106 | at width 1 every block is a single cell and so sorted |
| Lecture11Merge.LastRun | codes/lecture11_merge.cpp:106 | when the width reaches the length, the prefix is one sorted block |
| Lecture11Merge.PassStepPerm | codes/lecture11_merge.cpp:116 | one merge of a pass permutes the prefix and leaves the rest alone |
| Lecture11Merge.PassStepRuns | codes/lecture11_merge.cpp:109-117 | after merging blocks 2b and 2b + 1, the wide blocks up to b and the narrow ones after them are sorted |
| Lecture11Merge.ExternalMerge | codes/lecture11_merge.cpp:177-203 | the result's first n1 + n2 cells are the merge of the two files, and the rest is untouched |
| Lecture11Merge.Smaller | codes/lecture11_merge.cpp:149 | the count of smaller values is at most the length |
| Lecture11Merge.SmallerAppend | codes/lecture11_merge.cpp:149 | counting smaller values distributes over concatenation |
| Lecture11Merge.SmallerPerm | codes/lecture11_merge.cpp:149 | the count of smaller values depends only on the values, not their order |
| Lecture11Merge.CrossPermRight | codes/lecture11_merge.cpp:138-151 | cross inversions depend only on the values of the right run |
| Lecture11Merge.CrossPermLeft | codes/lecture11_merge.cpp:138-151 | cross inversions depend only on the values of the left run |
| Lecture11Merge.Inversions | codes/lecture11_merge.cpp:132-167 | a sequence of n values has at most n(n - 1)/2 inversions, one per pair of positions |
| Lecture11Merge.InversionsAppend | codes/lecture11_merge.cpp:138-151 | the inversions of two runs side by side: those in each run plus those across |
| Lecture11Merge.InversionsZeroIffSorted | codes/lecture11_merge.cpp:132-167 | a sequence has no inversions exactly when it is sorted |
| Lecture11Merge.MergeCountIsCross | codes/lecture11_merge.cpp:144-151 | on sorted runs, adding `mid - i + 1` per right value taken counts exactly the cross inversions |
| Lecture11Merge.CountInversions | codes/lecture11_merge.cpp:132-167 | an empty or one-cell range counts 0 and is untouched; otherwise the count is the range's inversions and the range ends sorted |
| Lecture11Merge.CountHalves | codes/lecture11_merge.cpp:135-164 | for a range of two or more cells: the count is its inversions and it ends sorted |
| Lecture11Merge.CountStep | codes/lecture11_merge.cpp:138-163 | the two half counts plus the merge count are the inversions of the whole range |
| Lecture11Merge.MergeAndCount | codes/lecture11_merge.cpp:142-163 | the merge step writes the merged halves back and returns the cross inversions |
| Lecture11Merge.MergeIntoTemp | codes/lecture11_merge.cpp:142-158 | the temporary array holds the merge of the halves, and the count is the merge count |
| Lecture11Merge.CountTails | codes/lecture11_merge.cpp:153-158 | once one run is used up, the copy loops finish the merge into the temporary array |
| Lecture11Merge.CopyRightTail | codes/lecture11_merge.cpp:156-158 | with the left run used up, the rest of the right run completes the merge |
| Lecture11Merge.InversionDemo | codes/lecture11_merge.cpp:257-268 | {8, 4, 2, 1} has six inversions |
| Lecture11Merge.ExternalMergeDemo | codes/lecture11_merge.cpp:274-278 | files {1, 3, 5, 7} and {2, 4, 6, 8} merge to 1 through 8 |
| Lecture11Merge.MergedDemoValues | codes/lecture11_merge.cpp:274-278 | the merge of the two demonstration files is 1 through 8 |
| Lecture11Bst.SubtreeChildren | codes/lecture11_bst.cpp:9-19 | the children of a subtree are subtrees |
| Lecture11Bst.CountNodes | codes/lecture11_bst.cpp:119-124 | the node count is 0 exactly for the empty tree |
| Lecture11Bst.CountElems | codes/lecture11_bst.cpp:119-124 | the node count is the number of stored values |
| Lecture11Bst.Insert | codes/lecture11_bst.cpp:30-42 | inserting gives a non-empty tree holding the old values plus the new one |
| Lecture11Bst.InsertCount | codes/lecture11_bst.cpp:30-42 | inserting adds exactly one node |
| Lecture11Bst.InsertBst | codes/lecture11_bst.cpp:30-42 | inserting keeps the search-tree order; equal values go right |
| Lecture11Bst.Search | codes/lecture11_bst.cpp:45-55 | the result is empty or a subtree rooted at the value; on a search tree it is found exactly when it is stored |
| Lecture11Bst.Leftmost | codes/lecture11_bst.cpp:58-64 | the leftmost value is stored in the tree and, on a search tree, is its minimum |
| Lecture11Bst.FindMin | codes/lecture11_bst.cpp:58-64 | following left links gives empty for an empty tree; otherwise a subtree with no left child holding the minimum |
| Lecture11Bst.Delete | codes/lecture11_bst.cpp:67-104 | deleting an absent value changes nothing |
| Lecture11Bst.DeleteBst | codes/lecture11_bst.cpp:67-104 | deleting keeps the search-tree order and removes exactly one copy of the value |
| Lecture11Bst.DeleteCount | codes/lecture11_bst.cpp:67-104 | deleting a stored value removes exactly one node |
| Lecture11Bst.SuccessorStep | codes/lecture11_bst.cpp:97-100 | replacing a two-child node by its in-order successor keeps the order and removes that value once |
| Lecture11Bst.Height | codes/lecture11_bst.cpp:109-116 | a non-empty tree has height at least 1 |
| Lecture11Bst.HeightBounds | codes/lecture11_bst.cpp:109-124 | height is at most the node count, and the node count is below 2 to the height |
| Lecture11Bst.IsBalanced | codes/lecture11_bst.cpp:127-134 | the empty tree is balanced, and a tree reported balanced has children whose heights differ by at most one |
| Lecture11Bst.BalancedEverywhere | codes/lecture11_bst.cpp:127-134 | a tree is balanced exactly when every subtree's children differ in height by at most one |
| Lecture11Bst.Inorder | codes/lecture11_bst.cpp:139-145 | the in-order traversal lists each stored value once |
| Lecture11Bst.Preorder | codes/lecture11_bst.cpp:148-154 | the pre-order traversal lists each stored value once |
| Lecture11Bst.Postorder | codes/lecture11_bst.cpp:157-163 | the post-order traversal lists each stored value once |
| Lecture11Bst.InorderSorted | codes/lecture11_bst.cpp:139-145 | on a search tree the in-order traversal is sorted |
| Lecture11Bst.InsertInorder | codes/lecture11_bst.cpp:30-42 | after an insertion the in-order traversal is still sorted and has gained the value |
| Lecture11Bst.LevelOrder | codes/lecture11_bst.cpp:166-190 | the level-order listing is empty exactly for the empty tree, and otherwise starts with the root |
| Lecture11Bst.LevelOrderTraversal | codes/lecture11_bst.cpp:166-190 | the array-queue loop visits exactly the breadth-first order |
| Lecture11Bst.VisitFront | codes/lecture11_bst.cpp:177-186 | taking the front node and queueing its children continues the breadth-first order |
| Lecture11Bst.EnqueueChildren | codes/lecture11_bst.cpp:181-186 | the non-empty children are queued left first, and earlier cells are untouched |
| Lecture11Bst.BfsLevels | codes/lecture11_bst.cpp:166-190 | the queue-driven visit lists the levels of the queued trees, top down |
| Lecture11Bst.LevelOrderByDepth | codes/lecture11_bst.cpp:166-190 | the level-order traversal lists depth 0, then depth 1, and so on, each level left to right |
| Lecture11Bst.BfsPerm | codes/lecture11_bst.cpp:166-190 | the queue-driven visit lists every value of the queued trees once |
| Lecture11Bst.LevelOrderPerm | codes/lecture11_bst.cpp:166-190 | the level-order traversal lists every stored value once |

## Left out

- Console output is not modelled, and neither are the display functions or the tree and
  phased-highlight renderings of the heap lecture (`heapSortWithPhasedHighlights` only adds
  output to `heapSort`). The demonstration methods state the values `main` computes.
- Passenger getters, flight-type strings, departure and arrival time strings, and the `get*`
  accessors are not modelled. They only read fields the model exposes directly.
- `shared_ptr` ownership and `delete` / `deleteTree` memory management are not modelled. Shared
  flights are plain object references. The BST is an immutable datatype, so link rewriting
  and freeing nodes are not modelled.
- Doubles are exact `real`s, so rounding is not modelled. The grade rule's `float` marks are
  also reals.
- `BookingSystem.FlightBookingSystem.CreateBooking`: the counter is unbounded. The overflow of
  C++ `int` after about two billion bookings is not modelled.
- `BookingSystem.FlightBookingSystem.FindCheapestFlight`: the copy is sorted with the model's
  quicksort instead of `std::sort`. The contract fixes the price of the returned flight, not
  which of several flights at that price is returned, because `std::sort` does not fix their
  order.
- `Routes.Dijkstra`:
  - Pops any queue entry of least cost. The pair order's tie-break on the city name is not
    modelled. The answer does not depend on it.
  - Requires that no price is negative. With a negative price on a flight reachable from the
    start, the source never empties its queue (in exact arithmetic). A negative price the search
    never reaches does no harm in the source, but the model's requires excludes it as well.
- `Routes.RouteOptimizer.FindCheapestRoute` requires the graph to have no negative price, as
  `Routes.Dijkstra` does, including prices the search never reaches.
- Seats:
  - `Seats.SeatAssigner.AssignBestSeat` requires a grid with at least one row, rows of equal
    length and at least 6 columns. With fewer columns, or no rows, the source indexes outside
    its vectors.
  - The candidate scan and the fallback scan are separate methods (`CollectPreferences`,
    `FirstFreeSeat`). The effect is the same as the single source method.
- `Lecture11Bst.LevelOrderTraversal` requires at most 100 nodes. The source's fixed queue of
  100 slots overflows on larger trees.
- `Lecture11Merge.CountInversions` returns an unbounded `int` for the `long long` count.
- The inversion counter's final copy loop is part of `MergeAndCount`, and its right-tail loop
  is the separate method `CopyRightTail`.
- `isStable` in the merge lecture always returns true. It is a stub with nothing to model.
  Stability is proved instead about the booking merge sort (`FlightSorting.MergedStable`,
  `FlightSorting.MergeSort`).
- `sortFlightsByPrice` and `sortBookingsByPrice` on an empty list: `size() - 1` wraps to a
  huge unsigned value that then converts to -1. The model calls the sorts with
  `high = -1` / `right = -1`, which does nothing, as in the source.
- In the BST demonstration, the deletion of 30 is labelled "one child", but at that point 30
  has two children. The model's `Lecture11Bst.Delete` follows the code, which handles both
  cases.
- Array parameters are Dafny arrays with a natural-number size. Negative sizes are not
  modelled.

## Findings

| source | as written | input that shows it | evidently intended | confidence | as-written member | corrected member |
|---|---|---|---|---|---|---|
| codes/lecture11_heap.cpp:326-327 | the loop bound `(n-2)/2` truncates to 0 for `n == 1`, so the check compares `arr[0]` with `arr[1]`, a cell outside the heap | `n = 1`, array `{5, 9}`: a one-cell heap is reported as not a heap | a heap of one cell is always valid; the loop should not run when `n < 2` | high (not executed) | Lecture11Heap.IsHeapAsWritten | Lecture11Heap.IsHeap |
| codes/flightbooking_system.cpp:384 | `distances[end]` on a city the graph does not know inserts a default 0.0 and returns it | `findCheapestRoute("Delhi", "Unknown")` on the demonstration network returns 0 | a city no route reaches should report the infinity sentinel | high (not executed) | Routes.RouteOptimizer.FindCheapestRoute | Routes.RouteOptimizer.FindCheapestRouteChecked |
| codes/flightbooking_system.cpp:134-140 | `confirmBooking` never reads `confirmed`, so a booking already confirmed books a second seat and reports success again | one Economy booking on a two-seat flight confirmed twice: both calls return true and no seat is left | confirming an already confirmed booking fails and changes nothing | high (not executed) | Flights.ConfirmTwiceDemo | Flights.Booking.ConfirmBookingChecked |
