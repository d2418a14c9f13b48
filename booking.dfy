/** The booking service as functions on the two lists: what booking,
    cancelling and seeding do to the rooms and reservations, and what each
    reports back to the user. */
module Booking {
  import opened Records

  /** The whole mutable state: the room list and the reservation list. */
  datatype Ledger = Ledger(rooms: seq<Room>, reservations: seq<Reservation>)

  /** What booking reports: "Select a room to book.", "Room is not
      available.", nothing (the selected row's number cell was edited, so
      reading it as a number fails), nothing (an input dialog was closed),
      or "Room booked successfully!". */
  datatype BookOutcome = NoSelection | RowUnreadable | RoomNotAvailable | BookingAbandoned | RoomBooked

  /** What cancelling reports: nothing (the name dialog was closed), "No
      reservation found for that name.", or "Reservation canceled.". */
  datatype CancelOutcome = CancelAbandoned | NoReservationFound | ReservationCanceled

  /** What the table selection yields: no selected row, a row whose number
      cell the user edited (the table then holds text there, not a number), or
      the room number in the row's first column. */
  datatype Selection = NoRow | EditedRow | Row(number: int)

  datatype BookStep = BookStep(outcome: BookOutcome, ledger: Ledger)
  datatype CancelStep = CancelStep(outcome: CancelOutcome, ledger: Ledger)

  /** The four rooms a fresh installation starts with. */
  const DEFAULT_ROOMS: seq<Room> := [
    Room(101, "Single", 50.0, true),
    Room(102, "Double", 75.0, true),
    Room(103, "Suite", 150.0, true),
    Room(104, "Single", 50.0, true)
  ]

  /** No two rooms share a number. */
  predicate UniqueNumbers(rooms: seq<Room>)
  {
    forall i, j :: 0 <= i < j < |rooms| ==> rooms[i].number != rooms[j].number
  }

  /** Some room carries this number. */
  predicate HasRoom(rooms: seq<Room>, number: int)
  {
    exists k :: 0 <= k < |rooms| && rooms[k].number == number
  }

  /** `k` is the position of the first room carrying this number. */
  predicate IsFirstRoom(rooms: seq<Room>, number: int, k: int)
  {
    0 <= k < |rooms| && rooms[k].number == number &&
    forall j :: 0 <= j < k ==> rooms[j].number != number
  }

  /** `j` is the position of the first reservation whose guest name matches
      `name` ignoring case. */
  predicate IsFirstGuest(reservations: seq<Reservation>, name: string, j: int)
  {
    0 <= j < |reservations| && EqualsIgnoreCase(reservations[j].guestName, name) &&
    forall i :: 0 <= i < j ==> !EqualsIgnoreCase(reservations[i].guestName, name)
  }

  /** The first room with this number exists and is available. */
  predicate FirstRoomFree(rooms: seq<Room>, number: int)
  {
    exists k :: 0 <= k < |rooms| && IsFirstRoom(rooms, number, k) && rooms[k].available
  }

  /** `after` is `before` with the first room numbered `number` (if there is
      one) given availability `avail`, and every other room as it was. */
  predicate SetsFirst(before: seq<Room>, after: seq<Room>, number: int, avail: bool)
  {
    |after| == |before| &&
    forall j :: 0 <= j < |before| ==>
      after[j] == if IsFirstRoom(before, number, j) then before[j].(available := avail) else before[j]
  }

  /** The position of the first room with this number, the search that both
      booking and cancelling perform. */
  function FirstRoom(rooms: seq<Room>, number: int): (r: Option<nat>)
    ensures r.Some? ==> IsFirstRoom(rooms, number, r.value)
    ensures r.None? <==> !HasRoom(rooms, number)
  {
    if rooms == [] then None
    else if rooms[0].number == number then Some(0)
    else match FirstRoom(rooms[1..], number)
      case None => None
      case Some(k) =>
        assert rooms[k + 1] == rooms[1..][k];
        Some(k + 1)
  }

  /** The position of the first reservation held under this name, compared
      ignoring case. */
  function FirstGuest(reservations: seq<Reservation>, name: string): (r: Option<nat>)
    ensures r.Some? ==> IsFirstGuest(reservations, name, r.value)
    ensures r.None? <==> forall j :: 0 <= j < |reservations| ==> !EqualsIgnoreCase(reservations[j].guestName, name)
  {
    if reservations == [] then None
    else if EqualsIgnoreCase(reservations[0].guestName, name) then Some(0)
    else match FirstGuest(reservations[1..], name)
      case None => None
      case Some(j) =>
        assert reservations[j + 1] == reservations[1..][j];
        Some(j + 1)
  }

  /** Booking: `selected` is what the table selection yields; the three
      strings are the dialog answers (None when a dialog was closed). */
  function Book(l: Ledger, selected: Selection, guestName: Option<string>,
                checkIn: Option<string>, checkOut: Option<string>): (r: BookStep)
    ensures r.outcome != RoomBooked ==> r.ledger == l
    ensures r.outcome == NoSelection <==> selected.NoRow?
    ensures r.outcome == RowUnreadable <==> selected.EditedRow?
    ensures r.outcome == RoomNotAvailable <==> selected.Row? && !FirstRoomFree(l.rooms, selected.number)
    ensures r.outcome == BookingAbandoned <==>
      selected.Row? && FirstRoomFree(l.rooms, selected.number) &&
      (guestName.None? || checkIn.None? || checkOut.None?)
    ensures r.outcome == RoomBooked ==>
      selected.Row? && guestName.Some? && checkIn.Some? && checkOut.Some? &&
      FirstRoomFree(l.rooms, selected.number) &&
      SetsFirst(l.rooms, r.ledger.rooms, selected.number, false) &&
      r.ledger.reservations ==
        l.reservations + [Reservation(guestName.value, selected.number, checkIn.value, checkOut.value)]
  {
    match selected
    case NoRow => BookStep(NoSelection, l)
    case EditedRow => BookStep(RowUnreadable, l)
    case Row(roomNumber) =>
      match FirstRoom(l.rooms, roomNumber)
      case None => BookStep(RoomNotAvailable, l)
      case Some(k) =>
        if !l.rooms[k].available then BookStep(RoomNotAvailable, l)
        else if guestName.None? || checkIn.None? || checkOut.None? then BookStep(BookingAbandoned, l)
        else
          var booked := Reservation(guestName.value, roomNumber, checkIn.value, checkOut.value);
          BookStep(RoomBooked, Ledger(l.rooms[k := l.rooms[k].(available := false)], l.reservations + [booked]))
  }

  /** Cancelling: `guestName` is the answer of the name dialog (None when it
      was closed). */
  function Cancel(l: Ledger, guestName: Option<string>): (r: CancelStep)
    ensures r.outcome != ReservationCanceled ==> r.ledger == l
    ensures r.outcome == CancelAbandoned <==> guestName.None?
    ensures r.outcome == NoReservationFound <==>
      guestName.Some? &&
      forall j :: 0 <= j < |l.reservations| ==> !EqualsIgnoreCase(l.reservations[j].guestName, guestName.value)
    ensures r.outcome == ReservationCanceled ==>
      guestName.Some? && |r.ledger.reservations| == |l.reservations| - 1 &&
      exists j :: IsFirstGuest(l.reservations, guestName.value, j) &&
        r.ledger.reservations == l.reservations[..j] + l.reservations[j + 1..] &&
        SetsFirst(l.rooms, r.ledger.rooms, l.reservations[j].roomNumber, true)
  {
    if guestName.None? then CancelStep(CancelAbandoned, l)
    else
      match FirstGuest(l.reservations, guestName.value)
      case None => CancelStep(NoReservationFound, l)
      case Some(j) =>
        var found := l.reservations[j];
        var rooms := match FirstRoom(l.rooms, found.roomNumber)
          case None => l.rooms
          case Some(k) => l.rooms[k := l.rooms[k].(available := true)];
        CancelStep(ReservationCanceled, Ledger(rooms, l.reservations[..j] + l.reservations[j + 1..]))
  }

  /** Start-up seeding: an empty room list receives the four default rooms;
      the reservations are kept whatever they are. */
  function Seed(l: Ledger): (r: Ledger)
    ensures |l.rooms| > 0 ==> r == l
    ensures |l.rooms| == 0 ==>
      r.reservations == l.reservations && |r.rooms| == 4 && UniqueNumbers(r.rooms) &&
      forall k :: 0 <= k < |r.rooms| ==> r.rooms[k].available && r.rooms[k].number == 101 + k
    ensures |l.rooms| == 0 ==>
      r.rooms == [Room(101, "Single", 50.0, true), Room(102, "Double", 75.0, true),
                  Room(103, "Suite", 150.0, true), Room(104, "Single", 50.0, true)]
  {
    if |l.rooms| == 0 then Ledger(DEFAULT_ROOMS, l.reservations) else l
  }

  /** The state the application starts in: what loading produced (None when
      either list could not be read, which empties both), then seeded. */
  function Startup(loaded: Option<Ledger>): (r: Ledger)
    ensures loaded.None? ==> r == Ledger(DEFAULT_ROOMS, [])
    ensures loaded.Some? && |loaded.value.rooms| > 0 ==> r == loaded.value
    ensures loaded.Some? ==> r.reservations == loaded.value.reservations
    ensures loaded.Some? && |loaded.value.rooms| == 0 ==> r.rooms == DEFAULT_ROOMS
  {
    Seed(if loaded.None? then Ledger([], []) else loaded.value)
  }

  /** The number read from a selected table row always finds a room, at that
      very row when room numbers are unique. */
  lemma SelectedRowIsFound(rooms: seq<Room>, row: nat)
    requires row < |rooms|
    ensures FirstRoom(rooms, rooms[row].number).Some?
    ensures FirstRoom(rooms, rooms[row].number).value <= row
    ensures UniqueNumbers(rooms) ==> FirstRoom(rooms, rooms[row].number) == Some(row)
  {
  }

  /** Booking then cancelling under the same name gives back the exact state
      from before the booking, provided no earlier reservation is held under
      a name that matches. */
  lemma BookThenCancelRestores(l: Ledger, number: int, guestName: string, checkIn: string, checkOut: string)
    requires Book(l, Row(number), Some(guestName), Some(checkIn), Some(checkOut)).outcome == RoomBooked
    requires forall j :: 0 <= j < |l.reservations| ==> !EqualsIgnoreCase(l.reservations[j].guestName, guestName)
    ensures Cancel(Book(l, Row(number), Some(guestName), Some(checkIn), Some(checkOut)).ledger, Some(guestName))
            == CancelStep(ReservationCanceled, l)
  {
    var booked := Book(l, Row(number), Some(guestName), Some(checkIn), Some(checkOut)).ledger;
    var n := |l.reservations|;
    EqualsIgnoreCaseIsEquivalence(guestName, guestName, guestName);
    assert IsFirstGuest(booked.reservations, guestName, n);
    assert FirstGuest(booked.reservations, guestName) == Some(n);
    assert booked.reservations[..n] + booked.reservations[n + 1..] == l.reservations;
    var k := FirstRoom(l.rooms, number).value;
    assert IsFirstRoom(booked.rooms, number, k);
    assert FirstRoom(booked.rooms, number) == Some(k);
    assert booked.rooms[k := booked.rooms[k].(available := true)] == l.rooms;
  }

  /** From a fresh installation, booking room 102 for Alice marks it taken
      and records her reservation. */
  lemma FreshBookingScenario()
    ensures Book(Startup(None), Row(102), Some("Alice"), Some("01/01/2024"), Some("03/01/2024"))
            == BookStep(RoomBooked, Ledger(DEFAULT_ROOMS[1 := Room(102, "Double", 75.0, false)],
                                           [Reservation("Alice", 102, "01/01/2024", "03/01/2024")]))
  {
    assert FirstRoom(DEFAULT_ROOMS, 102) == Some(1);
  }

  /** Cancelling "alice" after that booking gives the fresh state back. */
  lemma FreshCancelScenario()
    ensures Cancel(Ledger(DEFAULT_ROOMS[1 := Room(102, "Double", 75.0, false)],
                          [Reservation("Alice", 102, "01/01/2024", "03/01/2024")]),
                   Some("alice"))
            == CancelStep(ReservationCanceled, Startup(None))
  {
    var rooms := DEFAULT_ROOMS[1 := Room(102, "Double", 75.0, false)];
    assert EqualsIgnoreCase("Alice", "alice");
    assert FirstGuest([Reservation("Alice", 102, "01/01/2024", "03/01/2024")], "alice") == Some(0);
    assert FirstRoom(rooms, 102) == Some(1);
    assert rooms[1 := rooms[1].(available := true)] == DEFAULT_ROOMS;
  }

  /** Booking a number that no room carries fails and changes nothing. */
  lemma FreshMissingRoomScenario()
    ensures Book(Startup(None), Row(999), Some("Bob"), Some("x"), Some("y"))
            == BookStep(RoomNotAvailable, Startup(None))
  {
    assert !HasRoom(DEFAULT_ROOMS, 999);
  }
}
