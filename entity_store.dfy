/**
 * The persistence contract the core relies on: `GetByIdAsync` returns the
 * first record with the requested ID, `UpdateAsync` overwrites that record
 * and reports whether it existed, `AddAsync` appends. The JSON file behind
 * it is not part of this model.
 */
module EntityStore {
  import opened Wrappers
  import opened Sequences
  import opened Models

  function FindRoom(rooms: seq<Room>, id: int): (r: Option<Room>)
    ensures r.None? <==> forall i :: 0 <= i < |rooms| ==> rooms[i].RoomID != id
    ensures r.Some? ==> r.value in rooms && r.value.RoomID == id
  {
    Find((room: Room) => room.RoomID == id, rooms)
  }

  function FindCustomer(customers: seq<Customer>, id: int): (r: Option<Customer>)
    ensures r.None? <==> forall i :: 0 <= i < |customers| ==> customers[i].CustomerID != id
    ensures r.Some? ==> r.value in customers && r.value.CustomerID == id
  {
    Find((c: Customer) => c.CustomerID == id, customers)
  }

  /** Position of the first booking with ID `id`, or `|bookings|` when there is none. */
  function IndexOfBooking(bookings: seq<Booking>, id: int): (k: nat)
    ensures k <= |bookings|
    ensures k < |bookings| ==> bookings[k].BookingID == id
    ensures forall j :: 0 <= j < k ==> bookings[j].BookingID != id
  {
    FirstIndex((b: Booking) => b.BookingID == id, bookings)
  }

  function FindBooking(bookings: seq<Booking>, id: int): (r: Option<Booking>)
    ensures r.None? <==> forall i :: 0 <= i < |bookings| ==> bookings[i].BookingID != id
    ensures r.Some? ==> r.value in bookings && r.value.BookingID == id
  {
    var k := IndexOfBooking(bookings, id);
    if k < |bookings| then Some(bookings[k]) else None
  }

  /** Store-level `UpdateAsync`: overwrite the first booking whose ID is `b.BookingID`. */
  function ReplaceBooking(bookings: seq<Booking>, b: Booking): (r: seq<Booking>)
    ensures |r| == |bookings|
    ensures forall i :: 0 <= i < |r| ==> r[i].BookingID == bookings[i].BookingID
    ensures FindBooking(bookings, b.BookingID).None? ==> r == bookings
    ensures FindBooking(bookings, b.BookingID).Some? ==> FindBooking(r, b.BookingID) == Some(b)
    ensures forall i :: 0 <= i < |r| && i != IndexOfBooking(bookings, b.BookingID) ==> r[i] == bookings[i]
  {
    var k := IndexOfBooking(bookings, b.BookingID);
    if k < |bookings| then bookings[k := b] else bookings
  }

  /** Every booking has a distinct ID. */
  ghost predicate UniqueIds(bookings: seq<Booking>)
  {
    forall i, j :: 0 <= i < j < |bookings| ==> bookings[i].BookingID != bookings[j].BookingID
  }

  /** Every stored stay has its check-out after its check-in. */
  ghost predicate DatesWellFormed(bookings: seq<Booking>)
  {
    forall i :: 0 <= i < |bookings| ==> bookings[i].CheckInDate < bookings[i].CheckOutDate
  }

  /** Overwriting by ID keeps the IDs, hence their distinctness. */
  lemma ReplaceKeepsUniqueIds(bookings: seq<Booking>, b: Booking)
    requires UniqueIds(bookings)
    ensures UniqueIds(ReplaceBooking(bookings, b))
  {
  }

  /** Overwriting with a well-formed stay keeps every stay well formed. */
  lemma ReplaceKeepsDatesWellFormed(bookings: seq<Booking>, b: Booking)
    requires DatesWellFormed(bookings) && b.CheckInDate < b.CheckOutDate
    ensures DatesWellFormed(ReplaceBooking(bookings, b))
  {
  }

  /** With distinct IDs, the first booking with an ID is the only one. */
  lemma FindBookingUnique(bookings: seq<Booking>, i: int)
    requires UniqueIds(bookings) && 0 <= i < |bookings|
    ensures FindBooking(bookings, bookings[i].BookingID) == Some(bookings[i])
  {
  }
}
