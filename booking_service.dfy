/**
 * The booking service of FUMiniHotelSystem.BusinessLogic/BookingService.cs
 * as a class over its three stores. A C# exception becomes a `Failure`; the
 * clock reads `DateTime.Today` and `DateTime.Now` become the parameters
 * `today` and `now`.
 */
module BusinessLogic {
  import opened Wrappers
  import opened Sequences
  import opened Models
  import opened EntityStore
  import BookingRepository
  import opened RoomRepository
  import opened BookingRules

  class BookingService {
    /** The records of the booking, room and customer repositories, in store order. */
    var bookings: seq<Booking>
    var rooms: seq<Room>
    var customers: seq<Customer>

    constructor (bookings: seq<Booking>, rooms: seq<Room>, customers: seq<Customer>)
      ensures this.bookings == bookings && this.rooms == rooms && this.customers == customers
    {
      this.bookings := bookings;
      this.rooms := rooms;
      this.customers := customers;
    }

    /** `GetAllBookingsAsync`. */
    method GetAllBookings() returns (r: seq<Booking>)
      ensures r == bookings
    {
      r := bookings;
    }

    /** `GetBookingsByCustomerIdAsync`: the customer's bookings, in store order. */
    method GetBookingsByCustomerId(customerId: int) returns (r: seq<Booking>)
      ensures r == BookingRepository.GetBookingsByCustomerId(bookings, customerId)
      ensures forall b :: b in r <==> b in bookings && b.CustomerID == customerId
      ensures Subseq(r, bookings)
    {
      r := BookingRepository.GetBookingsByCustomerId(bookings, customerId);
    }

    /** `GetBookingsByDateRangeAsync`: the bookings whose stay lies within the range, in store order. */
    method GetBookingsByDateRange(startDate: int, endDate: int) returns (r: seq<Booking>)
      ensures r == BookingRepository.GetBookingsByDateRange(bookings, startDate, endDate)
      ensures forall b :: b in r <==> b in bookings && startDate <= b.CheckInDate && b.CheckOutDate <= endDate
      ensures Subseq(r, bookings)
    {
      r := BookingRepository.GetBookingsByDateRange(bookings, startDate, endDate);
    }

    /** `GetBookingByIdAsync`: the first booking with the ID, if any. */
    method GetBookingById(id: int) returns (r: Option<Booking>)
      ensures r == FindBooking(bookings, id)
      ensures r.None? <==> forall i :: 0 <= i < |bookings| ==> bookings[i].BookingID != id
      ensures r.Some? ==> r.value in bookings && r.value.BookingID == id
    {
      r := FindBooking(bookings, id);
    }

    /** `GetBookingsByStatusAsync`: the bookings with the given status, in store order. */
    method GetBookingsByStatus(status: int) returns (r: seq<Booking>)
      ensures r == BookingsWithStatus(bookings, status)
      ensures forall b :: b in r <==> b in bookings && b.BookingStatus == status
      ensures Subseq(r, bookings)
    {
      r := BookingsWithStatus(bookings, status);
    }

    /**
     * `CreateBookingAsync`. A rejected request leaves the store as it was; an
     * admitted one is stored at the end with the next ID, the creation time
     * and status Pending, and that record is returned.
     */
    method CreateBooking(booking: Booking, today: int, now: int) returns (r: Result<Booking, BookingError>)
      modifies this
      ensures rooms == old(rooms) && customers == old(customers)
      ensures match Validate(old(bookings), rooms, customers, booking, today, false)
              case Fail(e) => r == Failure(e) && bookings == old(bookings)
              case Pass => r == Success(NewBooking(old(bookings), booking, now)) && bookings == old(bookings) + [r.value]
      ensures old(DatesWellFormed(bookings)) ==> DatesWellFormed(bookings)
      ensures old(UniqueIds(bookings) && IdsBelowInt32Max(bookings)) ==> UniqueIds(bookings)
    {
      if booking.CheckInDate >= booking.CheckOutDate {
        return Failure(InvalidDateRange);
      }
      if booking.CheckInDate < today {
        return Failure(CheckInInPast);
      }
      var room := FindRoom(rooms, booking.RoomID);
      if room.None? || room.value.RoomStatus != Active {
        return Failure(RoomUnavailable);
      }
      var candidates := BookingRepository.GetBookingsByDateRange(bookings, booking.CheckInDate, booking.CheckOutDate);
      if HasConflict(candidates, booking.RoomID, booking.CheckInDate, booking.CheckOutDate, None) {
        return Failure(DateConflict);
      }
      var customer := FindCustomer(customers, booking.CustomerID);
      if customer.None? || customer.value.CustomerStatus != Active {
        return Failure(CustomerInactive);
      }
      CreateKeepsInvariants(bookings, rooms, customers, booking, today, now);
      var created := booking.(BookingID := NextId(bookings), CreatedDate := now, BookingStatus := Pending);
      bookings := bookings + [created];
      r := Success(created);
    }

    /**
     * `UpdateBookingAsync`. A rejected request leaves the store as it was; an
     * admitted one overwrites the first record with the same ID (if any), and
     * the result says whether such a record existed.
     */
    method UpdateBooking(booking: Booking, today: int) returns (r: Result<bool, BookingError>)
      modifies this
      ensures rooms == old(rooms) && customers == old(customers)
      ensures match Validate(old(bookings), rooms, customers, booking, today, true)
              case Fail(e) => r == Failure(e) && bookings == old(bookings)
              case Pass => r == Success(FindBooking(old(bookings), booking.BookingID).Some?) &&
                           bookings == ReplaceBooking(old(bookings), booking)
      ensures old(DatesWellFormed(bookings)) ==> DatesWellFormed(bookings)
      ensures old(UniqueIds(bookings)) ==> UniqueIds(bookings)
    {
      if booking.CheckInDate >= booking.CheckOutDate {
        return Failure(InvalidDateRange);
      }
      if booking.CheckInDate < today {
        return Failure(CheckInInPast);
      }
      var room := FindRoom(rooms, booking.RoomID);
      if room.None? || room.value.RoomStatus != Active {
        return Failure(RoomUnavailable);
      }
      var candidates := BookingRepository.GetBookingsByDateRange(bookings, booking.CheckInDate, booking.CheckOutDate);
      if HasConflict(candidates, booking.RoomID, booking.CheckInDate, booking.CheckOutDate, Some(booking.BookingID)) {
        return Failure(DateConflict);
      }
      var existed := FindBooking(bookings, booking.BookingID).Some?;
      if DatesWellFormed(bookings) {
        ReplaceKeepsDatesWellFormed(bookings, booking);
      }
      bookings := ReplaceBooking(bookings, booking);
      r := Success(existed);
    }

    /**
     * The shared body of the three status operations: load the booking, set
     * its status and write it back; `false` for an absent ID.
     */
    method ChangeStatus(id: int, status: int) returns (ok: bool)
      modifies this
      ensures rooms == old(rooms) && customers == old(customers)
      ensures ok == FindBooking(old(bookings), id).Some?
      ensures bookings == SetStatus(old(bookings), id, status)
      ensures !ok ==> bookings == old(bookings)
      ensures ok ==> FindBooking(bookings, id) == Some(FindBooking(old(bookings), id).value.(BookingStatus := status))
    {
      var found := FindBooking(bookings, id);
      if found.Some? {
        var b := found.value.(BookingStatus := status);
        ok := FindBooking(bookings, b.BookingID).Some?;
        bookings := ReplaceBooking(bookings, b);
      } else {
        ok := false;
      }
    }

    /** `CancelBookingAsync`: status 3, whatever the current status. */
    method CancelBooking(id: int) returns (ok: bool)
      modifies this
      ensures rooms == old(rooms) && customers == old(customers)
      ensures ok == FindBooking(old(bookings), id).Some?
      ensures bookings == SetStatus(old(bookings), id, Cancelled)
    {
      ok := ChangeStatus(id, Cancelled);
    }

    /** `ConfirmBookingAsync`: status 2, whatever the current status. */
    method ConfirmBooking(id: int) returns (ok: bool)
      modifies this
      ensures rooms == old(rooms) && customers == old(customers)
      ensures ok == FindBooking(old(bookings), id).Some?
      ensures bookings == SetStatus(old(bookings), id, Confirmed)
    {
      ok := ChangeStatus(id, Confirmed);
    }

    /** `CompleteBookingAsync`: status 4, whatever the current status. */
    method CompleteBooking(id: int) returns (ok: bool)
      modifies this
      ensures rooms == old(rooms) && customers == old(customers)
      ensures ok == FindBooking(old(bookings), id).Some?
      ensures bookings == SetStatus(old(bookings), id, Completed)
    {
      ok := ChangeStatus(id, Completed);
    }

    /**
     * `GetAvailableRoomsAsync`: walks the active rooms and keeps, in order,
     * each one without a conflict among the bookings contained in the range.
     */
    method GetAvailableRooms(checkIn: int, checkOut: int) returns (available: seq<Room>)
      ensures available == AvailableRooms(rooms, bookings, checkIn, checkOut)
      ensures forall room :: room in available <==>
                room in rooms && room.RoomStatus == Active && !ConflictInStore(bookings, room.RoomID, checkIn, checkOut, None)
    {
      var bs, free := bookings, FreeIn(bookings, checkIn, checkOut);
      var active := GetActiveRooms(rooms);
      available := [];
      var i := 0;
      while i < |active|
        invariant 0 <= i <= |active|
        invariant available == Filter(free, active[..i])
      {
        var room := active[i];
        var candidates := BookingRepository.GetBookingsByDateRange(bs, checkIn, checkOut);
        var hasConflict := HasConflict(candidates, room.RoomID, checkIn, checkOut, None);
        FilterStep(free, active, i, available, !hasConflict);
        if !hasConflict {
          available := available + [room];
        }
        i := i + 1;
      }
      assert active[..i] == active;
      AvailableRoomsSpec(rooms, bs, checkIn, checkOut);
    }
  }
}
