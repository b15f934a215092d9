/** The booking queries of FUMiniHotelSystem.DataAccess/BookingRepository.cs. */
module BookingRepository {
  import opened Sequences
  import opened Models

  /** `GetBookingsByCustomerIdAsync`: the customer's bookings, in store order. */
  function GetBookingsByCustomerId(bookings: seq<Booking>, customerId: int): (r: seq<Booking>)
    ensures forall b :: b in r <==> b in bookings && b.CustomerID == customerId
    ensures forall b :: multiset(r)[b] == if b.CustomerID == customerId then multiset(bookings)[b] else 0
    ensures Subseq(r, bookings) && |r| <= |bookings|
  {
    var p := (b: Booking) => b.CustomerID == customerId;
    FilterSpec(p, bookings);
    Filter(p, bookings)
  }

  /** The stay of `b` lies inside [startDate, endDate], both ends inclusive. */
  predicate WithinRange(b: Booking, startDate: int, endDate: int)
  {
    startDate <= b.CheckInDate && b.CheckOutDate <= endDate
  }

  /**
   * `GetBookingsByDateRangeAsync`: the bookings whose stay is CONTAINED in
   * [startDate, endDate], in store order. It is not an overlap query.
   */
  function GetBookingsByDateRange(bookings: seq<Booking>, startDate: int, endDate: int): (r: seq<Booking>)
    ensures forall b :: b in r <==> b in bookings && startDate <= b.CheckInDate && b.CheckOutDate <= endDate
    ensures forall b :: multiset(r)[b] == if WithinRange(b, startDate, endDate) then multiset(bookings)[b] else 0
    ensures Subseq(r, bookings) && |r| <= |bookings|
  {
    var p := (b: Booking) => WithinRange(b, startDate, endDate);
    FilterSpec(p, bookings);
    Filter(p, bookings)
  }

  /** A stay that starts before the range or ends after it is left out, even when it overlaps the range. */
  lemma OverlappingStayOutsideRangeExcluded(bookings: seq<Booking>, b: Booking, startDate: int, endDate: int)
    requires b.CheckInDate < startDate || b.CheckOutDate > endDate
    ensures b !in GetBookingsByDateRange(bookings, startDate, endDate)
  {
  }

  /** The date-range query on an extended store is the query on the old store, extended by the new booking if it qualifies. */
  lemma {:induction false} DateRangeSnoc(bookings: seq<Booking>, b: Booking, startDate: int, endDate: int)
    ensures GetBookingsByDateRange(bookings + [b], startDate, endDate) ==
            GetBookingsByDateRange(bookings, startDate, endDate) + (if WithinRange(b, startDate, endDate) then [b] else [])
  {
    FilterSnoc((x: Booking) => WithinRange(x, startDate, endDate), bookings, b);
  }
}
