/**
 * The entities of the hotel system, as the booking core sees them.
 * Dates and times are integer ticks; a C# `int` field stays an unbounded
 * `int` here, except where its 32-bit width matters (booking IDs).
 */
module Models {

  /** Booking statuses, with the integer values the system stores. */
  const Pending := 1
  const Confirmed := 2
  const Cancelled := 3
  const Completed := 4

  /** The status value that marks a room or a customer as active. */
  const Active := 1

  /** Range of the C# 32-bit `int` used for booking IDs. */
  const Int32Min := -0x8000_0000
  const Int32Max := 0x7FFF_FFFF

  /** C# unchecked 32-bit arithmetic: reduce `x` into the `int` range with wrap-around. */
  function WrapInt32(x: int): (r: int)
    ensures Int32Min <= r <= Int32Max
    ensures (r - x) % 0x1_0000_0000 == 0
  {
    (x - Int32Min) % 0x1_0000_0000 + Int32Min
  }

  /** A value already in range is left alone by the wrap-around. */
  lemma WrapInt32InRange(x: int)
    requires Int32Min <= x <= Int32Max
    ensures WrapInt32(x) == x
  {
  }

  datatype Room = Room(
    RoomID: int,
    RoomNumber: string,
    RoomDescription: string,
    RoomMaxCapacity: int,
    RoomStatus: int,
    RoomPricePerDate: real,
    RoomTypeID: int)

  datatype Customer = Customer(
    CustomerID: int,
    CustomerFullName: string,
    EmailAddress: string,
    CustomerStatus: int)

  /** A reservation of one room for the stay [CheckInDate, CheckOutDate). */
  datatype Booking = Booking(
    BookingID: int,
    CustomerID: int,
    RoomID: int,
    CheckInDate: int,
    CheckOutDate: int,
    TotalAmount: real,
    Notes: string,
    CreatedDate: int,
    BookingStatus: int)

  /** Why the service rejected a booking. */
  datatype BookingError =
    | InvalidDateRange   // check-out is not after check-in
    | CheckInInPast      // check-in is before today
    | RoomUnavailable    // the room does not exist or is not active
    | DateConflict       // a non-cancelled booking of the room overlaps the stay
    | CustomerInactive   // the customer does not exist or is not active
}
