/** The application object: it owns the room list and the reservation list
    and updates them in place when the user books or cancels. The window,
    its table and its dialogs are not modelled; dialog answers and what the
    selected row yields come in as parameters and the message shown
    comes back as an outcome. */
module Desk {
  import opened Records
  import opened Booking
  import opened Consistency

  class HotelDesk {
    var rooms: seq<Room>
    var reservations: seq<Reservation>

    /** The two lists as one value. */
    function State(): Ledger
      reads this
    {
      Ledger(rooms, reservations)
    }

    /** Start-up: install what loading produced (None when reading either
        list failed, which leaves both empty), then seed an empty room list. */
    constructor (loaded: Option<Ledger>)
      ensures State() == Startup(loaded)
      ensures (loaded.Some? ==> Consistent(loaded.value)) ==> Consistent(State())
    {
      match loaded {
        case None =>
          rooms := [];
          reservations := [];
        case Some(l) =>
          rooms := l.rooms;
          reservations := l.reservations;
      }
      new;
      SeedIfEmpty();
      assert (loaded.Some? ==> Consistent(loaded.value)) ==> Consistent(Startup(loaded)) by {
        if loaded.Some? ==> Consistent(loaded.value) {
          StartupConsistent(loaded);
        }
      }
    }

    /** The seed block of start-up: four default rooms when there are none. */
    method SeedIfEmpty()
      modifies this
      ensures State() == Seed(old(State()))
      ensures Consistent(old(State())) ==> Consistent(State())
    {
      assert Consistent(State()) ==> Consistent(Seed(State())) by {
        if Consistent(State()) {
          SeedPreservesConsistency(State());
        }
      }
      if |rooms| == 0 {
        rooms := rooms + [Room(101, "Single", 50.0, true)];
        rooms := rooms + [Room(102, "Double", 75.0, true)];
        rooms := rooms + [Room(103, "Suite", 150.0, true)];
        rooms := rooms + [Room(104, "Single", 50.0, true)];
      }
    }

    /** The scan over the rooms that stops at the first one with this number. */
    method FindRoom(number: int) returns (found: Option<nat>)
      ensures found.Some? ==> IsFirstRoom(rooms, number, found.value)
      ensures found.None? ==> forall k :: 0 <= k < |rooms| ==> rooms[k].number != number
      ensures found == FirstRoom(rooms, number)
    {
      var i := 0;
      while i < |rooms|
        invariant 0 <= i <= |rooms|
        invariant forall k :: 0 <= k < i ==> rooms[k].number != number
      {
        if rooms[i].number == number {
          return Some(i);
        }
        i := i + 1;
      }
      return None;
    }

    /** The scan over the reservations that stops at the first one whose
        guest name matches ignoring case. */
    method FindReservation(guestName: string) returns (found: Option<nat>)
      ensures found.Some? ==> IsFirstGuest(reservations, guestName, found.value)
      ensures found.None? ==>
        forall j :: 0 <= j < |reservations| ==> !EqualsIgnoreCase(reservations[j].guestName, guestName)
      ensures found == FirstGuest(reservations, guestName)
    {
      var i := 0;
      while i < |reservations|
        invariant 0 <= i <= |reservations|
        invariant forall j :: 0 <= j < i ==> !EqualsIgnoreCase(reservations[j].guestName, guestName)
      {
        if EqualsIgnoreCase(reservations[i].guestName, guestName) {
          return Some(i);
        }
        i := i + 1;
      }
      return None;
    }

    /** Book the room whose number is in the selected row. The dialog
        answers are only asked for, and only used, once the room is known to
        be free. */
    method BookRoom(selected: Selection, guestName: Option<string>,
                    checkIn: Option<string>, checkOut: Option<string>) returns (outcome: BookOutcome)
      modifies this
      ensures BookStep(outcome, State()) == Book(old(State()), selected, guestName, checkIn, checkOut)
      ensures Consistent(old(State())) ==> Consistent(State())
    {
      assert Consistent(State()) ==> Consistent(Book(State(), selected, guestName, checkIn, checkOut).ledger) by {
        if Consistent(State()) {
          BookPreservesConsistency(State(), selected, guestName, checkIn, checkOut);
        }
      }
      if selected.NoRow? {
        return NoSelection;
      }
      if selected.EditedRow? {
        // the cast of the edited cell throws before anything is changed
        return RowUnreadable;
      }
      var roomNumber := selected.number;
      var found := FindRoom(roomNumber);
      if found.Some? && rooms[found.value].available {
        if guestName.Some? && checkIn.Some? && checkOut.Some? {
          reservations := reservations + [Reservation(guestName.value, roomNumber, checkIn.value, checkOut.value)];
          rooms := rooms[found.value := rooms[found.value].(available := false)];
          outcome := RoomBooked;
        } else {
          outcome := BookingAbandoned;
        }
      } else {
        outcome := RoomNotAvailable;
      }
    }

    /** Cancel the first reservation held under this name (ignoring case):
        free the first room with its number, if any, then drop it. */
    method CancelReservation(guestName: Option<string>) returns (outcome: CancelOutcome)
      modifies this
      ensures CancelStep(outcome, State()) == Cancel(old(State()), guestName)
      ensures Consistent(old(State())) ==> Consistent(State())
    {
      assert Consistent(State()) ==> Consistent(Cancel(State(), guestName).ledger) by {
        if Consistent(State()) {
          CancelPreservesConsistency(State(), guestName);
        }
      }
      if guestName.None? {
        return CancelAbandoned;
      }
      var found := FindReservation(guestName.value);
      if found.Some? {
        var j := found.value;
        var room := FindRoom(reservations[j].roomNumber);
        if room.Some? {
          rooms := rooms[room.value := rooms[room.value].(available := true)];
        }
        reservations := reservations[..j] + reservations[j + 1..];
        outcome := ReservationCanceled;
      } else {
        outcome := NoReservationFound;
      }
    }
  }
}
