/** The room queries of FUMiniHotelSystem.DataAccess/RoomRepository.cs. */
module RoomRepository {
  import opened Sequences
  import opened Models

  /** The filter predicate of `GetActiveRoomsAsync`. */
  predicate IsActiveRoom(r: Room)
  {
    r.RoomStatus == Active
  }

  /** `GetActiveRoomsAsync`: the active rooms, in store order. */
  function GetActiveRooms(rooms: seq<Room>): (r: seq<Room>)
    ensures forall x :: x in r <==> x in rooms && x.RoomStatus == Active
    ensures forall x :: multiset(r)[x] == if x.RoomStatus == Active then multiset(rooms)[x] else 0
    ensures Subseq(r, rooms) && |r| <= |rooms|
  {
    FilterSpec(IsActiveRoom, rooms);
    Filter(IsActiveRoom, rooms)
  }

  /** `GetRoomsByTypeAsync`: the active rooms of one room type, in store order. */
  function GetRoomsByType(rooms: seq<Room>, roomTypeId: int): (r: seq<Room>)
    ensures forall x :: x in r <==> x in rooms && x.RoomTypeID == roomTypeId && x.RoomStatus == Active
    ensures forall x :: multiset(r)[x] == if x.RoomTypeID == roomTypeId && x.RoomStatus == Active then multiset(rooms)[x] else 0
    ensures Subseq(r, rooms) && |r| <= |rooms|
  {
    var p := (x: Room) => x.RoomTypeID == roomTypeId && x.RoomStatus == Active;
    FilterSpec(p, rooms);
    Filter(p, rooms)
  }

  /**
   * The rooms of a type are exactly the active rooms narrowed to that type, in
   * the same order; in particular each of them is an active room.
   */
  lemma RoomsByTypeNarrowsActiveRooms(rooms: seq<Room>, roomTypeId: int)
    ensures GetRoomsByType(rooms, roomTypeId) == Filter((x: Room) => x.RoomTypeID == roomTypeId, GetActiveRooms(rooms))
    ensures forall x :: x in GetRoomsByType(rooms, roomTypeId) ==> x in GetActiveRooms(rooms)
  {
    FilterFilter(IsActiveRoom, (x: Room) => x.RoomTypeID == roomTypeId,
                 (x: Room) => x.RoomTypeID == roomTypeId && x.RoomStatus == Active, rooms);
  }
}
