/**
 * The decision logic of FUMiniHotelSystem.BusinessLogic/BookingService.cs on
 * values: the conflict test, the admission checks shared by create and update,
 * the ID policy, the status writes and the availability query. The class in
 * booking_service.dfy runs these steps against its store.
 */
module BookingRules {
  import opened Wrappers
  import opened Sequences
  import opened Models
  import opened EntityStore
  import opened BookingRepository
  import opened RoomRepository

  /** The stay of `b` overlaps the half-open stay [checkIn, checkOut). */
  predicate Overlaps(b: Booking, checkIn: int, checkOut: int)
  {
    b.CheckInDate < checkOut && b.CheckOutDate > checkIn
  }

  /**
   * The service's conflict predicate: `b` is a booking of `roomId`, other than
   * the one `exclude` names, that is not cancelled and overlaps the stay.
   */
  predicate Blocks(b: Booking, roomId: int, checkIn: int, checkOut: int, exclude: Option<int>)
  {
    && b.RoomID == roomId
    && (exclude.Some? ==> b.BookingID != exclude.value)
    && b.BookingStatus != Cancelled
    && Overlaps(b, checkIn, checkOut)
  }

  /** Some candidate blocks the stay (LINQ `Where(...).Any()`). */
  predicate HasConflict(candidates: seq<Booking>, roomId: int, checkIn: int, checkOut: int, exclude: Option<int>)
  {
    exists b :: b in candidates && Blocks(b, roomId, checkIn, checkOut, exclude)
  }

  /** The test the service runs: a conflict among the bookings CONTAINED in [checkIn, checkOut]. */
  predicate ConflictInStore(bookings: seq<Booking>, roomId: int, checkIn: int, checkOut: int, exclude: Option<int>)
  {
    HasConflict(GetBookingsByDateRange(bookings, checkIn, checkOut), roomId, checkIn, checkOut, exclude)
  }

  /** The room lookup found an active room. */
  predicate RoomIsBookable(room: Option<Room>)
  {
    room.Some? && room.value.RoomStatus == Active
  }

  /** The customer lookup found an active customer. */
  predicate CustomerIsActive(customer: Option<Customer>)
  {
    customer.Some? && customer.value.CustomerStatus == Active
  }

  /** An update excludes its own booking ID from the conflict scan; a creation excludes nothing. */
  function ExcludedId(booking: Booking, isUpdate: bool): Option<int>
  {
    if isUpdate then Some(booking.BookingID) else None
  }

  /**
   * The admission checks of `CreateBookingAsync` (isUpdate == false) and
   * `UpdateBookingAsync` (isUpdate == true), in the service's order; the first
   * failing check decides the error.
   */
  function Validate(bookings: seq<Booking>, rooms: seq<Room>, customers: seq<Customer>,
                    booking: Booking, today: int, isUpdate: bool): Outcome<BookingError>
  {
    if booking.CheckInDate >= booking.CheckOutDate then Fail(InvalidDateRange)
    else if booking.CheckInDate < today then Fail(CheckInInPast)
    else if !RoomIsBookable(FindRoom(rooms, booking.RoomID)) then Fail(RoomUnavailable)
    else if ConflictInStore(bookings, booking.RoomID, booking.CheckInDate, booking.CheckOutDate,
                            ExcludedId(booking, isUpdate)) then Fail(DateConflict)
    else if !isUpdate && !CustomerIsActive(FindCustomer(customers, booking.CustomerID)) then Fail(CustomerInactive)
    else Pass
  }

  // ---------------------------------------------------------------------------
  // Order of the checks
  // ---------------------------------------------------------------------------

  /**
   * A bad date range or a past check-in is rejected before any store is
   * consulted: the verdict is the same whatever the stores hold.
   */
  lemma DateChecksPrecedeLookups(bookings: seq<Booking>, rooms: seq<Room>, customers: seq<Customer>,
                                 bookings': seq<Booking>, rooms': seq<Room>, customers': seq<Customer>,
                                 booking: Booking, today: int, isUpdate: bool)
    requires booking.CheckInDate >= booking.CheckOutDate || booking.CheckInDate < today
    ensures Validate(bookings, rooms, customers, booking, today, isUpdate) ==
            Validate(bookings', rooms', customers', booking, today, isUpdate)
    ensures Validate(bookings, rooms, customers, booking, today, isUpdate) ==
            if booking.CheckInDate >= booking.CheckOutDate then Fail(InvalidDateRange) else Fail(CheckInInPast)
  {
  }

  /**
   * A missing or inactive room is rejected before the conflict scan and the
   * customer lookup: the bookings and customers do not matter.
   */
  lemma RoomCheckPrecedesConflictScan(bookings: seq<Booking>, customers: seq<Customer>,
                                      bookings': seq<Booking>, customers': seq<Customer>,
                                      rooms: seq<Room>, booking: Booking, today: int, isUpdate: bool)
    requires today <= booking.CheckInDate < booking.CheckOutDate
    requires !RoomIsBookable(FindRoom(rooms, booking.RoomID))
    ensures Validate(bookings, rooms, customers, booking, today, isUpdate) == Fail(RoomUnavailable)
    ensures Validate(bookings', rooms, customers', booking, today, isUpdate) == Fail(RoomUnavailable)
  {
  }

  /** The customer check runs last and only on creation. */
  lemma CustomerCheckRunsLast(bookings: seq<Booking>, rooms: seq<Room>, customers: seq<Customer>,
                              booking: Booking, today: int, isUpdate: bool)
    ensures Validate(bookings, rooms, customers, booking, today, isUpdate) == Fail(CustomerInactive) <==>
            && !isUpdate
            && today <= booking.CheckInDate < booking.CheckOutDate
            && RoomIsBookable(FindRoom(rooms, booking.RoomID))
            && !ConflictInStore(bookings, booking.RoomID, booking.CheckInDate, booking.CheckOutDate, None)
            && !CustomerIsActive(FindCustomer(customers, booking.CustomerID))
  {
  }

  /** An update never consults the customers. */
  lemma UpdateIgnoresCustomers(bookings: seq<Booking>, rooms: seq<Room>, customers: seq<Customer>,
                               customers': seq<Customer>, booking: Booking, today: int)
    ensures Validate(bookings, rooms, customers, booking, today, true) ==
            Validate(bookings, rooms, customers', booking, today, true)
    ensures Validate(bookings, rooms, customers, booking, today, true) != Fail(CustomerInactive)
  {
  }

  /** An admitted stay is well formed and does not start in the past. */
  lemma AdmittedStayIsWellFormed(bookings: seq<Booking>, rooms: seq<Room>, customers: seq<Customer>,
                                 booking: Booking, today: int, isUpdate: bool)
    requires Validate(bookings, rooms, customers, booking, today, isUpdate) == Pass
    ensures today <= booking.CheckInDate < booking.CheckOutDate
    ensures FindRoom(rooms, booking.RoomID).Some? && FindRoom(rooms, booking.RoomID).value.RoomStatus == Active
    ensures !isUpdate ==> FindCustomer(customers, booking.CustomerID).Some? &&
                          FindCustomer(customers, booking.CustomerID).value.CustomerStatus == Active
  {
  }

  // ---------------------------------------------------------------------------
  // What the conflict scan detects
  // ---------------------------------------------------------------------------

  /**
   * The conflict verdict in terms of the store itself: the stay is rejected for
   * a date conflict exactly when the earlier checks pass and some booking of
   * the store lies within the requested range and blocks it.
   */
  lemma DateConflictIff(bookings: seq<Booking>, rooms: seq<Room>, customers: seq<Customer>,
                        booking: Booking, today: int, isUpdate: bool)
    ensures Validate(bookings, rooms, customers, booking, today, isUpdate) == Fail(DateConflict) <==>
            && today <= booking.CheckInDate < booking.CheckOutDate
            && RoomIsBookable(FindRoom(rooms, booking.RoomID))
            && exists b :: b in bookings && WithinRange(b, booking.CheckInDate, booking.CheckOutDate) &&
                           Blocks(b, booking.RoomID, booking.CheckInDate, booking.CheckOutDate, ExcludedId(booking, isUpdate))
  {
  }

  /** Every reported conflict is a real one: a non-cancelled booking of the room that overlaps the stay. */
  lemma ReportedConflictIsReal(bookings: seq<Booking>, roomId: int, checkIn: int, checkOut: int, exclude: Option<int>)
    requires ConflictInStore(bookings, roomId, checkIn, checkOut, exclude)
    ensures exists b :: b in bookings && b.RoomID == roomId && b.BookingStatus != Cancelled && Overlaps(b, checkIn, checkOut)
  {
  }

  /**
   * The guarantee the scan does give, on a store whose stays are well formed:
   * for a well-formed request it reports a conflict exactly when some
   * non-cancelled booking of the room lies entirely inside the requested range.
   */
  lemma {:induction false} ConflictMeansEnclosedBooking(bookings: seq<Booking>, roomId: int, checkIn: int, checkOut: int,
                                                        exclude: Option<int>)
    requires DatesWellFormed(bookings) && checkIn < checkOut
    ensures ConflictInStore(bookings, roomId, checkIn, checkOut, exclude) <==>
            exists i :: 0 <= i < |bookings| && bookings[i].RoomID == roomId &&
                        (exclude.Some? ==> bookings[i].BookingID != exclude.value) &&
                        bookings[i].BookingStatus != Cancelled &&
                        checkIn <= bookings[i].CheckInDate && bookings[i].CheckOutDate <= checkOut
  {
    var candidates := GetBookingsByDateRange(bookings, checkIn, checkOut);
    if ConflictInStore(bookings, roomId, checkIn, checkOut, exclude) {
      var b :| b in candidates && Blocks(b, roomId, checkIn, checkOut, exclude);
      var i :| 0 <= i < |bookings| && bookings[i] == b;
      assert bookings[i].RoomID == roomId;
    }
    if exists i :: 0 <= i < |bookings| && bookings[i].RoomID == roomId &&
                   (exclude.Some? ==> bookings[i].BookingID != exclude.value) &&
                   bookings[i].BookingStatus != Cancelled &&
                   checkIn <= bookings[i].CheckInDate && bookings[i].CheckOutDate <= checkOut {
      var i :| 0 <= i < |bookings| && bookings[i].RoomID == roomId &&
               (exclude.Some? ==> bookings[i].BookingID != exclude.value) &&
               bookings[i].BookingStatus != Cancelled &&
               checkIn <= bookings[i].CheckInDate && bookings[i].CheckOutDate <= checkOut;
      assert bookings[i].CheckInDate < bookings[i].CheckOutDate;
      assert bookings[i] in candidates;
      assert Blocks(bookings[i], roomId, checkIn, checkOut, exclude);
    }
  }

  /** A room with one active booking for days [1, 5). */
  function EnclosingStore(): seq<Booking>
  {
    [Booking(1, 1, 101, 1, 5, 400.0, "", 0, Pending)]
  }

  /**
   * The gap: an existing booking [1, 5) that encloses the request [2, 3) on the
   * same room overlaps it, yet is not among the candidates, so the request is
   * admitted (with the room and the customer active and today at day 0).
   */
  lemma EnclosingBookingNotDetected()
    ensures Blocks(EnclosingStore()[0], 101, 2, 3, None)
    ensures !ConflictInStore(EnclosingStore(), 101, 2, 3, None)
    ensures Validate(EnclosingStore(), [Room(101, "101", "", 2, Active, 100.0, 1)], [Customer(1, "", "a@b.c", Active)],
                     Booking(0, 1, 101, 2, 3, 100.0, "", 0, 0), 0, false) == Pass
  {
    assert GetBookingsByDateRange(EnclosingStore(), 2, 3) == [];
  }

  /**
   * A straddling stay is not detected either: with booking A for
   * [today + 1, today + 3) on the room, booking B for [today + 2, today + 4)
   * on the same room is admitted although the two overlap.
   */
  lemma StraddlingBookingNotDetected(today: int)
    ensures var a := Booking(1, 1, 101, today + 1, today + 3, 200.0, "", today, Pending);
            var b := Booking(0, 1, 101, today + 2, today + 4, 200.0, "", today, 0);
            Overlaps(a, b.CheckInDate, b.CheckOutDate) &&
            Validate([a], [Room(101, "101", "", 2, Active, 100.0, 1)], [Customer(1, "", "a@b.c", Active)], b, today, false) == Pass
  {
    var a := Booking(1, 1, 101, today + 1, today + 3, 200.0, "", today, Pending);
    assert GetBookingsByDateRange([a], today + 2, today + 4) == [];
  }

  /**
   * A cancelled booking never blocks, wherever it stands in the store: the
   * verdict is the one the store without its cancelled bookings would give.
   */
  lemma {:induction false} CancelledBookingsNeverBlock(bookings: seq<Booking>, rooms: seq<Room>, customers: seq<Customer>,
                                                       booking: Booking, today: int, isUpdate: bool)
    ensures Validate(bookings, rooms, customers, booking, today, isUpdate) ==
            Validate(Filter((b: Booking) => b.BookingStatus != Cancelled, bookings), rooms, customers, booking, today, isUpdate)
  {
    FilterSpec((b: Booking) => b.BookingStatus != Cancelled, bookings);
  }

  /**
   * An update's scan ignores every record that carries its own ID: the verdict
   * is the one it would get from a store without them.
   */
  lemma {:induction false} UpdateIgnoresOwnRecord(bookings: seq<Booking>, rooms: seq<Room>, customers: seq<Customer>,
                                                  booking: Booking, today: int)
    ensures Validate(bookings, rooms, customers, booking, today, true) ==
            Validate(Filter((b: Booking) => b.BookingID != booking.BookingID, bookings), rooms, customers, booking, today, true)
  {
    FilterSpec((b: Booking) => b.BookingID != booking.BookingID, bookings);
  }

  // ---------------------------------------------------------------------------
  // ID policy
  // ---------------------------------------------------------------------------

  /** The largest booking ID in a non-empty store (LINQ `Max`). */
  function MaxId(bookings: seq<Booking>): (m: int)
    requires |bookings| > 0
    ensures forall i :: 0 <= i < |bookings| ==> bookings[i].BookingID <= m
    ensures exists i :: 0 <= i < |bookings| && bookings[i].BookingID == m
  {
    var last := bookings[|bookings| - 1].BookingID;
    if |bookings| == 1 then last
    else
      var m := MaxId(bookings[..|bookings| - 1]);
      if m < last then last else m
  }

  /** The ID `CreateBookingAsync` assigns: the largest ID plus one in C# `int` arithmetic, or 1 for an empty store. */
  function NextId(bookings: seq<Booking>): int
  {
    if |bookings| > 0 then WrapInt32(MaxId(bookings) + 1) else 1
  }

  /** Every ID is a C# `int` and the largest is not `int.MaxValue`. */
  ghost predicate IdsBelowInt32Max(bookings: seq<Booking>)
  {
    forall i :: 0 <= i < |bookings| ==> Int32Min <= bookings[i].BookingID < Int32Max
  }

  /** Without overflow the new ID exceeds every existing ID, so no ID is ever reused. */
  lemma NextIdExceedsAll(bookings: seq<Booking>)
    requires IdsBelowInt32Max(bookings)
    ensures forall i :: 0 <= i < |bookings| ==> bookings[i].BookingID < NextId(bookings)
    ensures |bookings| > 0 ==> NextId(bookings) == MaxId(bookings) + 1
  {
    if |bookings| > 0 {
      WrapInt32InRange(MaxId(bookings) + 1);
    }
  }

  /** At `int.MaxValue` the unchecked increment wraps to `int.MinValue`, below the existing ID. */
  lemma NextIdWrapsAtInt32Max()
    ensures NextId([Booking(Int32Max, 1, 101, 1, 2, 0.0, "", 0, Pending)]) == Int32Min
  {
  }

  /** Creating bookings into an empty store numbers them 1, 2, 3, ... in creation order. */
  lemma {:induction false} SequentialIds(bookings: seq<Booking>)
    requires |bookings| < Int32Max
    requires forall i :: 0 <= i < |bookings| ==> bookings[i].BookingID == i + 1
    ensures NextId(bookings) == |bookings| + 1
  {
    if |bookings| > 0 {
      MaxIdOfSequential(bookings);
      WrapInt32InRange(|bookings| + 1);
    }
  }

  lemma {:induction false} MaxIdOfSequential(bookings: seq<Booking>)
    requires |bookings| > 0
    requires forall i :: 0 <= i < |bookings| ==> bookings[i].BookingID == i + 1
    ensures MaxId(bookings) == |bookings|
  {
    if |bookings| > 1 {
      MaxIdOfSequential(bookings[..|bookings| - 1]);
    }
  }

  /** The ID policy looks only at the IDs: two stores with the same IDs in the same order get the same next ID. */
  lemma {:induction false} NextIdDependsOnlyOnIds(bookings: seq<Booking>, bookings': seq<Booking>)
    requires |bookings| == |bookings'|
    requires forall i :: 0 <= i < |bookings| ==> bookings[i].BookingID == bookings'[i].BookingID
    ensures NextId(bookings) == NextId(bookings')
  {
    if |bookings| > 0 {
      MaxIdDependsOnlyOnIds(bookings, bookings');
    }
  }

  lemma {:induction false} MaxIdDependsOnlyOnIds(bookings: seq<Booking>, bookings': seq<Booking>)
    requires 0 < |bookings| == |bookings'|
    requires forall i :: 0 <= i < |bookings| ==> bookings[i].BookingID == bookings'[i].BookingID
    ensures MaxId(bookings) == MaxId(bookings')
  {
    if |bookings| > 1 {
      MaxIdDependsOnlyOnIds(bookings[..|bookings| - 1], bookings'[..|bookings'| - 1]);
    }
  }

  /** The record `CreateBookingAsync` stores: the caller's booking with its ID, creation time and Pending status set. */
  function NewBooking(bookings: seq<Booking>, booking: Booking, now: int): Booking
  {
    booking.(BookingID := NextId(bookings), CreatedDate := now, BookingStatus := Pending)
  }

  /**
   * A successful creation keeps the store's invariants: the stays stay well
   * formed, and, without overflow, the IDs stay distinct.
   */
  lemma CreateKeepsInvariants(bookings: seq<Booking>, rooms: seq<Room>, customers: seq<Customer>,
                              booking: Booking, today: int, now: int)
    requires Validate(bookings, rooms, customers, booking, today, false) == Pass
    ensures DatesWellFormed(bookings) ==> DatesWellFormed(bookings + [NewBooking(bookings, booking, now)])
    ensures UniqueIds(bookings) && IdsBelowInt32Max(bookings) ==> UniqueIds(bookings + [NewBooking(bookings, booking, now)])
  {
    if IdsBelowInt32Max(bookings) {
      NextIdExceedsAll(bookings);
    }
  }

  // ---------------------------------------------------------------------------
  // Status writes
  // ---------------------------------------------------------------------------

  /**
   * The store after `CancelBookingAsync`, `ConfirmBookingAsync` or
   * `CompleteBookingAsync`: the first booking with the ID gets the new status.
   */
  function SetStatus(bookings: seq<Booking>, id: int, status: int): seq<Booking>
  {
    match FindBooking(bookings, id)
    case None => bookings
    case Some(b) => ReplaceBooking(bookings, b.(BookingStatus := status))
  }

  /**
   * A status write changes nothing for an absent ID; otherwise it sets the
   * status of the first booking with that ID, whatever its current status, and
   * changes no other field and no other booking.
   */
  lemma SetStatusEffect(bookings: seq<Booking>, id: int, status: int)
    ensures var r := SetStatus(bookings, id, status);
            var k := IndexOfBooking(bookings, id);
            && |r| == |bookings|
            && (k == |bookings| ==> r == bookings)
            && (k < |bookings| ==> r[k] == bookings[k].(BookingStatus := status) && r[k].BookingStatus == status)
            && (forall i :: 0 <= i < |r| && i != k ==> r[i] == bookings[i])
  {
  }

  /** Two stores with the same IDs in the same order locate an ID at the same position. */
  lemma IndexOfBookingDependsOnlyOnIds(bookings: seq<Booking>, bookings': seq<Booking>, id: int)
    requires |bookings| == |bookings'|
    requires forall i :: 0 <= i < |bookings| ==> bookings[i].BookingID == bookings'[i].BookingID
    ensures IndexOfBooking(bookings, id) == IndexOfBooking(bookings', id)
  {
  }

  /** The status write in terms of positions: it updates the element at the ID's first position. */
  lemma SetStatusAt(bookings: seq<Booking>, id: int, status: int)
    ensures var k := IndexOfBooking(bookings, id);
            SetStatus(bookings, id, status) ==
            if k < |bookings| then bookings[k := bookings[k].(BookingStatus := status)] else bookings
  {
  }

  /**
   * There is no transition guard: of two status writes to one booking the
   * second wins, so in particular cancelling twice is cancelling once.
   */
  lemma LastStatusWriteWins(bookings: seq<Booking>, id: int, first: int, second: int)
    ensures SetStatus(SetStatus(bookings, id, first), id, second) == SetStatus(bookings, id, second)
    ensures SetStatus(SetStatus(bookings, id, Cancelled), id, Cancelled) == SetStatus(bookings, id, Cancelled)
  {
    TwoStatusWrites(bookings, id, first, second);
    TwoStatusWrites(bookings, id, Cancelled, Cancelled);
  }

  lemma TwoStatusWrites(bookings: seq<Booking>, id: int, first: int, second: int)
    ensures SetStatus(SetStatus(bookings, id, first), id, second) == SetStatus(bookings, id, second)
  {
    var once := SetStatus(bookings, id, first);
    var k := IndexOfBooking(bookings, id);
    SetStatusAt(bookings, id, first);
    SetStatusAt(bookings, id, second);
    IndexOfBookingDependsOnlyOnIds(bookings, once, id);
    SetStatusAt(once, id, second);
  }

  /** A status write keeps the IDs, so a cancellation never frees an ID for reuse. */
  lemma SetStatusKeepsNextId(bookings: seq<Booking>, id: int, status: int)
    ensures NextId(SetStatus(bookings, id, status)) == NextId(bookings)
    ensures UniqueIds(bookings) ==> UniqueIds(SetStatus(bookings, id, status))
    ensures DatesWellFormed(bookings) ==> DatesWellFormed(SetStatus(bookings, id, status))
  {
    NextIdDependsOnlyOnIds(SetStatus(bookings, id, status), bookings);
  }

  // ---------------------------------------------------------------------------
  // Queries
  // ---------------------------------------------------------------------------

  /** `GetBookingsByStatusAsync`: the bookings with the given status, in store order. */
  function BookingsWithStatus(bookings: seq<Booking>, status: int): (r: seq<Booking>)
    ensures forall b :: b in r <==> b in bookings && b.BookingStatus == status
    ensures forall b :: multiset(r)[b] == if b.BookingStatus == status then multiset(bookings)[b] else 0
    ensures Subseq(r, bookings) && |r| <= |bookings|
  {
    var p := (b: Booking) => b.BookingStatus == status;
    FilterSpec(p, bookings);
    Filter(p, bookings)
  }

  /** The per-room test of `GetAvailableRoomsAsync`: no conflict among the candidates of the range. */
  function FreeIn(bookings: seq<Booking>, checkIn: int, checkOut: int): Room -> bool
  {
    (room: Room) => !ConflictInStore(bookings, room.RoomID, checkIn, checkOut, None)
  }

  /** `GetAvailableRoomsAsync`: the active rooms that pass the per-room test, in store order. */
  function AvailableRooms(rooms: seq<Room>, bookings: seq<Booking>, checkIn: int, checkOut: int): seq<Room>
  {
    Filter(FreeIn(bookings, checkIn, checkOut), GetActiveRooms(rooms))
  }

  /**
   * The available rooms are, in store order, exactly the active rooms without a
   * conflict among the bookings contained in the range; an inactive room is
   * never listed.
   */
  lemma AvailableRoomsSpec(rooms: seq<Room>, bookings: seq<Booking>, checkIn: int, checkOut: int)
    ensures forall room :: room in AvailableRooms(rooms, bookings, checkIn, checkOut) <==>
              room in rooms && room.RoomStatus == Active && !ConflictInStore(bookings, room.RoomID, checkIn, checkOut, None)
    ensures Subseq(AvailableRooms(rooms, bookings, checkIn, checkOut), rooms)
  {
    var active := GetActiveRooms(rooms);
    FilterSpec(FreeIn(bookings, checkIn, checkOut), active);
    SubseqTransitive(AvailableRooms(rooms, bookings, checkIn, checkOut), active, rooms);
  }

  lemma {:induction false} SubseqTransitive<T>(a: seq<T>, b: seq<T>, c: seq<T>)
    requires Subseq(a, b) && Subseq(b, c)
    ensures Subseq(a, c)
    decreases |c|
  {
    if a != [] {
      assert b != [] && c != [];
      if b[0] == c[0] && Subseq(b[1..], c[1..]) {
        if a[0] == b[0] && Subseq(a[1..], b[1..]) {
          SubseqTransitive(a[1..], b[1..], c[1..]);
        } else {
          SubseqTransitive(a, b[1..], c[1..]);
        }
      } else {
        SubseqTransitive(a, b, c[1..]);
      }
    }
  }

  /**
   * Availability agrees with admission: a request with valid dates passes the
   * room and conflict checks of `CreateBookingAsync` exactly when the room it
   * names is found and is among the available rooms for its stay.
   */
  lemma AvailabilityAgreesWithCreate(bookings: seq<Booking>, rooms: seq<Room>, customers: seq<Customer>,
                                     booking: Booking, today: int)
    requires today <= booking.CheckInDate < booking.CheckOutDate
    ensures Validate(bookings, rooms, customers, booking, today, false) !in {Fail(RoomUnavailable), Fail(DateConflict)} <==>
            FindRoom(rooms, booking.RoomID).Some? &&
            FindRoom(rooms, booking.RoomID).value in AvailableRooms(rooms, bookings, booking.CheckInDate, booking.CheckOutDate)
  {
    AvailableRoomsSpec(rooms, bookings, booking.CheckInDate, booking.CheckOutDate);
  }

  /**
   * Cancelling the blocking booking frees the room, and the next creation gets
   * a fresh ID: booking 1 for [today + 1, today + 3) blocks a request for
   * [today + 1, today + 4) on the same room; after booking 1 is cancelled the
   * request is admitted and numbered 2.
   */
  lemma RebookAfterCancel(today: int)
    ensures var a := Booking(1, 1, 101, today + 1, today + 3, 200.0, "", today, Pending);
            var b := Booking(0, 1, 101, today + 1, today + 4, 300.0, "", today, 0);
            var rooms := [Room(101, "101", "", 2, Active, 100.0, 1)];
            var customers := [Customer(1, "", "a@b.c", Active)];
            && Validate([a], rooms, customers, b, today, false) == Fail(DateConflict)
            && SetStatus([a], 1, Cancelled) == [a.(BookingStatus := Cancelled)]
            && Validate(SetStatus([a], 1, Cancelled), rooms, customers, b, today, false) == Pass
            && NextId(SetStatus([a], 1, Cancelled)) == 2
  {
    var a := Booking(1, 1, 101, today + 1, today + 3, 200.0, "", today, Pending);
    var b := Booking(0, 1, 101, today + 1, today + 4, 300.0, "", today, 0);
    var rooms := [Room(101, "101", "", 2, Active, 100.0, 1)];
    var customers := [Customer(1, "", "a@b.c", Active)];
    assert FindRoom(rooms, 101) == Some(rooms[0]);
    assert FindCustomer(customers, 1) == Some(customers[0]);
    assert a in GetBookingsByDateRange([a], today + 1, today + 4);
    assert Blocks(a, 101, today + 1, today + 4, None);
    var cancelled := a.(BookingStatus := Cancelled);
    assert IndexOfBooking([a], 1) == 0;
    assert SetStatus([a], 1, Cancelled) == [cancelled];
    assert !ConflictInStore([cancelled], 101, today + 1, today + 4, None);
    assert MaxId([cancelled]) == 1;
  }
}
