# FU Mini Hotel System — booking core in Dafny

This project models the booking logic of the FU Mini Hotel System. That logic decides
whether a requested stay may be admitted. A stay is a room, a half-open date range
[check-in, check-out) and a customer. The logic also changes a booking's status and
lists the rooms that are free for a date range. It also models the repository queries
the service depends on: bookings by customer and by date range, active rooms and rooms
by type, customer by e-mail and active customers.

Structure (one module per source component):

- `Models` (models.dfy): the `Room`, `Customer` and `Booking` records. It also holds the
  status codes (Pending 1, Confirmed 2, Cancelled 3, Completed 4; Active 1 for rooms and
  customers), the error kinds, and C# 32-bit wrap-around for booking IDs.
- `Sequences` (sequences.dfy): LINQ `Where` as `Filter` and `FirstOrDefault` as `Find`.
  Both are proved order-preserving and exact.
- `EntityStore` (entity_store.dfy): the repository contract. `GetByIdAsync` returns the
  first record with the ID. `UpdateAsync` overwrites that record and says whether it
  existed. `AddAsync` appends.
- `BookingRepository`, `RoomRepository`, `CustomerRepository`: the filter queries, as
  functions over the stored sequences.
- `BookingRules` (booking_rules.dfy): the service's decisions on values. These are the
  conflict test, the ordered admission checks shared by create and update (`Validate`),
  the ID policy (`NextId`), the status write (`SetStatus`) and the availability query.
- `BusinessLogic` (booking_service.dfy): class `BookingService`. It holds the three stores
  as `seq` fields. Its methods run the steps of `BookingService.cs` and are proved
  against the functions of `BookingRules`.

Dates and times are integer ticks. `DateTime.Today` and `DateTime.Now` are the
parameters `today` and `now`. A thrown `InvalidOperationException` is a `Failure` that
carries a `BookingError`.

What the conflict check really guarantees. The intended rule is that two
non-cancelled bookings of one room never overlap. The code gives a weaker guarantee.
The service takes its conflict candidates from `GetBookingsByDateRangeAsync`. That
query keeps only the bookings whose stay lies *inside* the requested range
(`start <= CheckIn && CheckOut <= end`). Take a store whose stays are well formed, and
a request whose date and room checks pass. That request is rejected for a date
conflict exactly when a non-cancelled booking of the same room lies entirely within
the requested stay. On update, a record carrying the booking's own ID does not count.
This is `BookingRules.ConflictMeansEnclosedBooking` together with
`BookingRules.DateConflictIff`. A booking that encloses or straddles the request is
never reported. `EnclosingBookingNotDetected` and `StraddlingBookingNotDetected`
exhibit such double bookings being admitted. The model follows the code here, not
the stronger "no double booking" rule.

Three further behaviours of the code differ from what one would expect of a
reservation system. The model follows the code in each:

- Booking A for [today+1, today+3) would be expected to block booking B for
  [today+2, today+4) on the same room. The code admits B, because A is not inside
  B's range (`StraddlingBookingNotDetected`).
- One would expect an update to keep the booking's creation date. The code
  overwrites the stored record with the caller's record as given, creation date
  included. Only the ID is kept, because the record to overwrite is found by that ID.
- One would expect Cancelled and Completed to be final states. The code writes any
  status unconditionally, so a cancelled booking can be confirmed again
  (`LastStatusWriteWins`).

## Model

| member | source | states |
|---|---|---|
| `Sequences.Filter` | FUMiniHotelSystem.DataAccess/BookingRepository.cs:13 | LINQ `Where`: the result is no longer than the input and holds only input elements that satisfy the predicate |
| `Sequences.FilterSpec` | FUMiniHotelSystem.DataAccess/RoomRepository.cs:13 | `Where(...).ToList()` keeps exactly the satisfying elements, each as often as in the input, as an order-preserving subsequence |
| `Sequences.Find` | FUMiniHotelSystem.DataAccess/CustomerRepository.cs:13 | LINQ `FirstOrDefault`: absent iff no element satisfies the predicate, else the first satisfying element in order |
| `Models.WrapInt32` | FUMiniHotelSystem.BusinessLogic/BookingService.cs:81 | the result is a C# `int` congruent to the argument modulo 2^32 (unchecked `+ 1`) |
| `EntityStore.FindRoom` | FUMiniHotelSystem.BusinessLogic/BookingService.cs:53 | room lookup by ID: absent iff no room has the ID, else a stored room with that ID |
| `EntityStore.FindCustomer` | FUMiniHotelSystem.BusinessLogic/BookingService.cs:73 | customer lookup by ID: absent iff no customer has the ID, else a stored customer with that ID |
| `EntityStore.FindBooking` | FUMiniHotelSystem.BusinessLogic/BookingService.cs:34-37 | booking lookup by ID: absent iff no booking has the ID, else a stored booking with that ID |
| `EntityStore.ReplaceBooking` | FUMiniHotelSystem.BusinessLogic/BookingService.cs:122 | store update: same length and IDs; no change when the ID is absent; otherwise the ID now finds the new record and every other position is untouched |
| `EntityStore.ReplaceKeepsUniqueIds` | FUMiniHotelSystem.BusinessLogic/BookingService.cs:122 | overwriting by ID keeps booking IDs distinct |
| `EntityStore.ReplaceKeepsDatesWellFormed` | FUMiniHotelSystem.BusinessLogic/BookingService.cs:122 | overwriting with a well-formed stay keeps every stored stay well formed |
| `EntityStore.FindBookingUnique` | FUMiniHotelSystem.BusinessLogic/BookingService.cs:127 | with distinct IDs, looking up a stored booking's ID returns that booking |
| `BookingRepository.GetBookingsByCustomerId` | FUMiniHotelSystem.DataAccess/BookingRepository.cs:10-14 | exactly the bookings with that CustomerID, with their multiplicities, in store order, never longer than the store |
| `BookingRepository.GetBookingsByDateRange` | FUMiniHotelSystem.DataAccess/BookingRepository.cs:16-20 | exactly the bookings with `start <= CheckIn` and `CheckOut <= end` (inclusive containment), with multiplicities, in store order |
| `BookingRepository.OverlappingStayOutsideRangeExcluded` | FUMiniHotelSystem.DataAccess/BookingRepository.cs:19 | a stay that starts before the range or ends after it is excluded even when it overlaps the range |
| `BookingRepository.DateRangeSnoc` | FUMiniHotelSystem.DataAccess/BookingRepository.cs:19 | the query on a store with one more booking is the old answer plus that booking when it lies in range |
| `RoomRepository.GetActiveRooms` | FUMiniHotelSystem.DataAccess/RoomRepository.cs:10-14 | exactly the rooms with status 1, with multiplicities, in store order |
| `RoomRepository.GetRoomsByType` | FUMiniHotelSystem.DataAccess/RoomRepository.cs:16-20 | exactly the rooms with the type and status 1, with multiplicities, in store order |
| `RoomRepository.RoomsByTypeNarrowsActiveRooms` | FUMiniHotelSystem.DataAccess/RoomRepository.cs:19 | rooms by type equal the active rooms narrowed to the type, in the same order; each is an active room |
| `CustomerRepository.EqualsIgnoreCaseIsEquivalence` | FUMiniHotelSystem.DataAccess/CustomerRepository.cs:13 | ordinal case-insensitive equality is reflexive, symmetric and transitive |
| `CustomerRepository.EqualsIgnoreCaseExample` | FUMiniHotelSystem.DataAccess/CustomerRepository.cs:13 | addresses differing only in letter case match; a different letter does not |
| `CustomerRepository.GetByEmail` | FUMiniHotelSystem.DataAccess/CustomerRepository.cs:10-14 | null iff no address matches ignoring case; otherwise the first customer in store order whose address matches |
| `CustomerRepository.GetByEmailIgnoresCase` | FUMiniHotelSystem.DataAccess/CustomerRepository.cs:13 | two spellings of an address that differ only in case return the same customer |
| `CustomerRepository.GetActiveCustomers` | FUMiniHotelSystem.DataAccess/CustomerRepository.cs:16-20 | exactly the customers with status 1, with multiplicities, in store order |
| `EntityStore.IndexOfBooking` | FUMiniHotelSystem.BusinessLogic/BookingService.cs:127 | the position of the first booking with the ID, or the store's length when there is none |
| `BookingRepository.WithinRange` | FUMiniHotelSystem.DataAccess/BookingRepository.cs:19 | definition: the stay lies within [start, end], both ends inclusive |
| `RoomRepository.IsActiveRoom` | FUMiniHotelSystem.DataAccess/RoomRepository.cs:13 | definition: the room's status is 1 |
| `CustomerRepository.FoldCase` | FUMiniHotelSystem.DataAccess/CustomerRepository.cs:13 | definition: maps a lower-case ASCII letter to upper case and leaves other characters alone |
| `CustomerRepository.EqualsIgnoreCase` | FUMiniHotelSystem.DataAccess/CustomerRepository.cs:13 | definition: equal length and equal characters after case folding |
| `BookingRules.Overlaps` | FUMiniHotelSystem.BusinessLogic/BookingService.cs:64 | definition: the half-open overlap test `CheckIn < checkOut && CheckOut > checkIn` |
| `BookingRules.Blocks` | FUMiniHotelSystem.BusinessLogic/BookingService.cs:110-114 | definition: same room, not the excluded ID, not cancelled (status 3), overlapping |
| `BookingRules.HasConflict` | FUMiniHotelSystem.BusinessLogic/BookingService.cs:61-67 | definition: some candidate blocks the stay (`Where(...).Any()`) |
| `BookingRules.ConflictInStore` | FUMiniHotelSystem.BusinessLogic/BookingService.cs:60-67 | definition: a conflict among the candidates of the date-range query |
| `BookingRules.RoomIsBookable` | FUMiniHotelSystem.BusinessLogic/BookingService.cs:54 | definition: the room lookup found a room with status 1 |
| `BookingRules.CustomerIsActive` | FUMiniHotelSystem.BusinessLogic/BookingService.cs:74 | definition: the customer lookup found a customer with status 1 |
| `BookingRules.ExcludedId` | FUMiniHotelSystem.BusinessLogic/BookingService.cs:112 | definition: an update excludes its own ID from the scan, a creation excludes nothing |
| `BookingRules.Validate` | FUMiniHotelSystem.BusinessLogic/BookingService.cs:42-77 | definition: the five checks of create (four of update, lines 91-120) in the source's order, the first failure deciding the error; its properties are the lemmas below |
| `BookingRules.NextId` | FUMiniHotelSystem.BusinessLogic/BookingService.cs:81 | definition: max ID + 1 in C# `int` arithmetic, or 1 for an empty store; see `NextIdExceedsAll`, `SequentialIds` |
| `BookingRules.NewBooking` | FUMiniHotelSystem.BusinessLogic/BookingService.cs:81-83 | definition: the caller's booking with the next ID, the creation time and status Pending |
| `BookingRules.SetStatus` | FUMiniHotelSystem.BusinessLogic/BookingService.cs:127-131 | definition: load the first booking with the ID, set its status, write it back; see `SetStatusEffect` |
| `BookingRules.FreeIn` | FUMiniHotelSystem.BusinessLogic/BookingService.cs:171-176 | definition: the per-room test, no conflict among the range-contained bookings |
| `BookingRules.AvailableRooms` | FUMiniHotelSystem.BusinessLogic/BookingService.cs:169-181 | definition: the active rooms that pass the per-room test, in store order; see `AvailableRoomsSpec` |
| `BookingRules.DateChecksPrecedeLookups` | FUMiniHotelSystem.BusinessLogic/BookingService.cs:42-50 | a bad range gives InvalidDateRange, else a past check-in gives CheckInInPast, whatever the stores hold |
| `BookingRules.RoomCheckPrecedesConflictScan` | FUMiniHotelSystem.BusinessLogic/BookingService.cs:53-57 | with valid dates, a missing or inactive room gives RoomUnavailable whatever the bookings and customers |
| `BookingRules.CustomerCheckRunsLast` | FUMiniHotelSystem.BusinessLogic/BookingService.cs:73-77 | CustomerInactive iff creating, all earlier checks pass, and the customer is missing or inactive |
| `BookingRules.UpdateIgnoresCustomers` | FUMiniHotelSystem.BusinessLogic/BookingService.cs:88-122 | the update verdict does not depend on the customers and is never CustomerInactive |
| `BookingRules.AdmittedStayIsWellFormed` | FUMiniHotelSystem.BusinessLogic/BookingService.cs:42-77 | an admitted stay has `today <= CheckIn < CheckOut` and an active room; on creation also an active customer |
| `BookingRules.DateConflictIff` | FUMiniHotelSystem.BusinessLogic/BookingService.cs:60-70 | DateConflict iff earlier checks pass and some stored booking inside the range is same-room, non-cancelled, overlapping and not excluded |
| `BookingRules.ReportedConflictIsReal` | FUMiniHotelSystem.BusinessLogic/BookingService.cs:61-65 | every reported conflict is a stored non-cancelled booking of the room that overlaps the stay |
| `BookingRules.ConflictMeansEnclosedBooking` | FUMiniHotelSystem.BusinessLogic/BookingService.cs:60-65 | on well-formed stores, a conflict is reported iff a non-cancelled booking of the room lies entirely within the requested range |
| `BookingRules.EnclosingBookingNotDetected` | FUMiniHotelSystem.BusinessLogic/BookingService.cs:60-70 | an active booking [1,5) overlaps the request [2,3) on the same room, yet no conflict is found and the request is admitted |
| `BookingRules.StraddlingBookingNotDetected` | FUMiniHotelSystem.BusinessLogic/BookingService.cs:60-70 | a booking [t+1,t+3) does not stop [t+2,t+4) on the same room from being admitted, although they overlap |
| `BookingRules.CancelledBookingsNeverBlock` | FUMiniHotelSystem.BusinessLogic/BookingService.cs:63 | the create or update verdict equals the verdict on the store with every cancelled booking removed, wherever it stands |
| `BookingRules.UpdateIgnoresOwnRecord` | FUMiniHotelSystem.BusinessLogic/BookingService.cs:108-115 | an update's verdict equals the verdict against the store with every record of its own ID removed |
| `BookingRules.MaxId` | FUMiniHotelSystem.BusinessLogic/BookingService.cs:81 | the result bounds every stored ID and is the ID of some stored booking |
| `BookingRules.NextIdExceedsAll` | FUMiniHotelSystem.BusinessLogic/BookingService.cs:81 | without overflow the new ID is max + 1 and exceeds every stored ID, so it is never reused |
| `BookingRules.NextIdWrapsAtInt32Max` | FUMiniHotelSystem.BusinessLogic/BookingService.cs:81 | with max ID `int.MaxValue` the unchecked increment gives `int.MinValue` |
| `BookingRules.SequentialIds` | FUMiniHotelSystem.BusinessLogic/BookingService.cs:81 | a store with IDs 1..N in order gets N + 1 next (empty store: 1) |
| `BookingRules.NextIdDependsOnlyOnIds` | FUMiniHotelSystem.BusinessLogic/BookingService.cs:81 | stores with the same IDs in the same order get the same next ID |
| `BookingRules.CreateKeepsInvariants` | FUMiniHotelSystem.BusinessLogic/BookingService.cs:79-85 | an admitted creation keeps all stays well formed and, without overflow, all IDs distinct |
| `BookingRules.SetStatusEffect` | FUMiniHotelSystem.BusinessLogic/BookingService.cs:125-134 | a status write leaves an absent ID's store unchanged; otherwise only the status of the first booking with the ID changes, whatever it was |
| `BookingRules.LastStatusWriteWins` | FUMiniHotelSystem.BusinessLogic/BookingService.cs:125-156 | no transition guard: of two status writes the second wins; cancelling twice equals cancelling once |
| `BookingRules.SetStatusKeepsNextId` | FUMiniHotelSystem.BusinessLogic/BookingService.cs:130-131 | a status write keeps the next ID, distinct IDs and well-formed stays; a cancelled ID is never reused |
| `BookingRules.BookingsWithStatus` | FUMiniHotelSystem.BusinessLogic/BookingService.cs:158-162 | exactly the bookings with the given status, with multiplicities, in store order |
| `BookingRules.AvailableRoomsSpec` | FUMiniHotelSystem.BusinessLogic/BookingService.cs:164-185 | a room is listed iff it is stored, active and has no conflict among the range-contained bookings; the list keeps store order |
| `BookingRules.AvailabilityAgreesWithCreate` | FUMiniHotelSystem.BusinessLogic/BookingService.cs:53-70 | with valid dates, the room and conflict checks pass iff the named room is found and listed as available for the stay |
| `BookingRules.RebookAfterCancel` | FUMiniHotelSystem.BusinessLogic/BookingService.cs:125-134 | an enclosed booking blocks a request; after it is cancelled the request is admitted with ID 2 |
| `BusinessLogic.BookingService.constructor` | FUMiniHotelSystem.BusinessLogic/BookingService.cs:12-17 | the service starts with the given stores |
| `BusinessLogic.BookingService.GetAllBookings` | FUMiniHotelSystem.BusinessLogic/BookingService.cs:19-22 | returns the whole booking store |
| `BusinessLogic.BookingService.GetBookingsByCustomerId` | FUMiniHotelSystem.BusinessLogic/BookingService.cs:24-27 | equals the repository query: exactly the customer's bookings, with multiplicities, in store order; store unchanged |
| `BusinessLogic.BookingService.GetBookingsByDateRange` | FUMiniHotelSystem.BusinessLogic/BookingService.cs:29-32 | equals the repository query: exactly the range-contained bookings, with multiplicities, in store order; store unchanged |
| `BusinessLogic.BookingService.GetBookingById` | FUMiniHotelSystem.BusinessLogic/BookingService.cs:34-37 | equals `FindBooking`: absent iff no booking has the ID, else the first stored booking with that ID |
| `BusinessLogic.BookingService.GetBookingsByStatus` | FUMiniHotelSystem.BusinessLogic/BookingService.cs:158-162 | equals `BookingsWithStatus`: exactly the bookings with the status, with multiplicities, in store order; store unchanged |
| `BusinessLogic.BookingService.CreateBooking` | FUMiniHotelSystem.BusinessLogic/BookingService.cs:39-86 | a rejection returns the first failing check's error and persists nothing; success appends and returns the booking with ID `NextId`, the creation time and Pending; the invariants are kept |
| `BusinessLogic.BookingService.UpdateBooking` | FUMiniHotelSystem.BusinessLogic/BookingService.cs:88-123 | a rejection persists nothing; success overwrites the first record with the ID and returns whether it existed; the invariants are kept |
| `BusinessLogic.BookingService.ChangeStatus` | FUMiniHotelSystem.BusinessLogic/BookingService.cs:125-134 | false and no change for an absent ID; otherwise true, and the ID now finds the old record with only its status replaced |
| `BusinessLogic.BookingService.CancelBooking` | FUMiniHotelSystem.BusinessLogic/BookingService.cs:125-134 | returns whether the ID exists; the store becomes `SetStatus(old, id, 3)` |
| `BusinessLogic.BookingService.ConfirmBooking` | FUMiniHotelSystem.BusinessLogic/BookingService.cs:136-145 | returns whether the ID exists; the store becomes `SetStatus(old, id, 2)` |
| `BusinessLogic.BookingService.CompleteBooking` | FUMiniHotelSystem.BusinessLogic/BookingService.cs:147-156 | returns whether the ID exists; the store becomes `SetStatus(old, id, 4)` |
| `BusinessLogic.BookingService.GetAvailableRooms` | FUMiniHotelSystem.BusinessLogic/BookingService.cs:164-185 | the loop returns exactly the available rooms: active, conflict-free among the range-contained bookings, in store order |

## Left out

- Asynchrony and concurrency: every `async`/`await` call is a plain sequential step. The unguarded check-then-write race between callers is not modelled.
- Persistence: the JSON base repository and its file I/O are not part of this model. Lookup by ID, update and add follow the contract stated under `EntityStore`. Store-layer faults are not modelled.
- Clock reads: `DateTime.Today` and `DateTime.Now` are parameters. Day versus time-of-day granularity collapses into integer ticks.
- Exception messages: failures are `BookingError` values, not strings.
- Aliasing: `CreateBookingAsync` writes the new ID, creation time and status into the caller's object. The status operations mutate the object the repository hands out. The model treats records as values: `CreateBooking` returns the new record and the caller's value is unchanged.
- `BookingService.cs:164` declares `List<Booking>` but returns rooms. The model returns a sequence of rooms.
- Integer widths: only the booking-ID increment wraps at 32 bits. No other integer field takes part in arithmetic.
- `TotalAmount` (C# `decimal`) and `RoomPricePerDate` are carried as `real`. They are never computed here; the UI computes the price.
- Record fields the core never reads are left out (customer telephone, birthday, password and the like). `CustomerFullName` stays as an example field.
- The user interface (`StudentNameWPF`) and `RoomTypeRepository` (a pass-through to the full list) are not modelled.
- CustomerRepository.GetByEmail: case folding covers ASCII letters only. .NET's ordinal ignore-case comparison also folds non-ASCII letters. A null `EmailAddress`, which would throw in the source, cannot occur in the model.
