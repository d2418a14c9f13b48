/** The cross-list invariant of the booking service: a room is taken exactly
    when one reservation refers to it, and every reservation refers to an
    existing room. Booking, cancelling and seeding all keep it, as long as
    room numbers are unique. */
module Consistency {
  import opened Records
  import opened Booking

  /** How many reservations refer to this room number. */
  function CountRefs(reservations: seq<Reservation>, number: int): nat
  {
    if reservations == [] then 0
    else (if reservations[0].roomNumber == number then 1 else 0) + CountRefs(reservations[1..], number)
  }

  predicate Consistent(l: Ledger)
  {
    UniqueNumbers(l.rooms) &&
    (forall j :: 0 <= j < |l.reservations| ==> HasRoom(l.rooms, l.reservations[j].roomNumber)) &&
    forall k :: 0 <= k < |l.rooms| ==>
      CountRefs(l.reservations, l.rooms[k].number) == if l.rooms[k].available then 0 else 1
  }

  lemma {:induction false} CountRefsConcat(a: seq<Reservation>, b: seq<Reservation>, number: int)
    ensures CountRefs(a + b, number) == CountRefs(a, number) + CountRefs(b, number)
  {
    if a == [] {
      assert a + b == b;
    } else {
      assert (a + b)[1..] == a[1..] + b;
      CountRefsConcat(a[1..], b, number);
    }
  }

  /** A number is counted exactly when some reservation refers to it. */
  lemma {:induction false} CountRefsPositive(reservations: seq<Reservation>, number: int)
    ensures CountRefs(reservations, number) >= 1 <==>
      exists j :: 0 <= j < |reservations| && reservations[j].roomNumber == number
  {
    if reservations != [] {
      CountRefsPositive(reservations[1..], number);
      if exists j :: 0 <= j < |reservations| && reservations[j].roomNumber == number {
        var j :| 0 <= j < |reservations| && reservations[j].roomNumber == number;
        if j > 0 {
          assert reservations[1..][j - 1].roomNumber == number;
        }
      }
      if exists j :: 0 <= j < |reservations[1..]| && reservations[1..][j].roomNumber == number {
        var j :| 0 <= j < |reservations[1..]| && reservations[1..][j].roomNumber == number;
        assert reservations[j + 1].roomNumber == number;
      }
    }
  }

  /** Removing the reservation at `j` lowers the count of its own room
      number by one and leaves every other count alone. */
  lemma CountRefsRemove(reservations: seq<Reservation>, j: nat, number: int)
    requires j < |reservations|
    ensures CountRefs(reservations[..j] + reservations[j + 1..], number)
            == CountRefs(reservations, number) - (if reservations[j].roomNumber == number then 1 else 0)
  {
    var before, after := reservations[..j], reservations[j + 1..];
    assert reservations == before + ([reservations[j]] + after);
    CountRefsConcat(before, [reservations[j]] + after, number);
    CountRefsConcat([reservations[j]], after, number);
    CountRefsConcat(before, after, number);
    assert ([reservations[j]] + after)[1..] == after;
  }

  lemma BookPreservesConsistency(l: Ledger, selected: Selection, guestName: Option<string>,
                                 checkIn: Option<string>, checkOut: Option<string>)
    requires Consistent(l)
    ensures Consistent(Book(l, selected, guestName, checkIn, checkOut).ledger)
  {
    var r := Book(l, selected, guestName, checkIn, checkOut);
    if r.outcome == RoomBooked {
      var n := selected.number;
      var k := FirstRoom(l.rooms, n).value;
      var added := Reservation(guestName.value, n, checkIn.value, checkOut.value);
      var after := r.ledger;
      assert after.rooms == l.rooms[k := l.rooms[k].(available := false)];
      forall j | 0 <= j < |after.reservations|
        ensures HasRoom(after.rooms, after.reservations[j].roomNumber)
      {
        if j < |l.reservations| {
          var i :| 0 <= i < |l.rooms| && l.rooms[i].number == l.reservations[j].roomNumber;
          assert after.rooms[i].number == after.reservations[j].roomNumber;
        } else {
          assert after.rooms[k].number == after.reservations[j].roomNumber;
        }
      }
      forall i | 0 <= i < |after.rooms|
        ensures CountRefs(after.reservations, after.rooms[i].number) == if after.rooms[i].available then 0 else 1
      {
        CountRefsConcat(l.reservations, [added], l.rooms[i].number);
        assert CountRefs([added], l.rooms[i].number) == if i == k then 1 else 0;
      }
    }
  }

  /** Removing the reservation at `j` and freeing the room it refers to
      keeps the invariant. */
  lemma ReleaseKeepsConsistency(l: Ledger, j: nat, k: nat)
    requires Consistent(l) && j < |l.reservations| && k < |l.rooms|
    requires l.rooms[k].number == l.reservations[j].roomNumber
    ensures Consistent(Ledger(l.rooms[k := l.rooms[k].(available := true)],
                              l.reservations[..j] + l.reservations[j + 1..]))
  {
    var rooms := l.rooms[k := l.rooms[k].(available := true)];
    var kept := l.reservations[..j] + l.reservations[j + 1..];
    forall i | 0 <= i < |kept|
      ensures HasRoom(rooms, kept[i].roomNumber)
    {
      var src := if i < j then i else i + 1;
      assert kept[i] == l.reservations[src];
      var m :| 0 <= m < |l.rooms| && l.rooms[m].number == l.reservations[src].roomNumber;
      assert rooms[m].number == kept[i].roomNumber;
    }
    CountRefsPositive(l.reservations, l.rooms[k].number);
    forall i | 0 <= i < |rooms|
      ensures CountRefs(kept, rooms[i].number) == if rooms[i].available then 0 else 1
    {
      CountRefsRemove(l.reservations, j, l.rooms[i].number);
    }
  }

  /** Cancelling keeps the invariant; under it, the room of the reservation
      being cancelled exists and is taken. */
  lemma CancelPreservesConsistency(l: Ledger, guestName: Option<string>)
    requires Consistent(l)
    ensures Consistent(Cancel(l, guestName).ledger)
    ensures guestName.Some? && FirstGuest(l.reservations, guestName.value).Some? ==>
      var j := FirstGuest(l.reservations, guestName.value).value;
      exists k :: 0 <= k < |l.rooms| && l.rooms[k].number == l.reservations[j].roomNumber && !l.rooms[k].available
  {
    if guestName.Some? && FirstGuest(l.reservations, guestName.value).Some? {
      var j := FirstGuest(l.reservations, guestName.value).value;
      var k :| 0 <= k < |l.rooms| && l.rooms[k].number == l.reservations[j].roomNumber;
      CountRefsPositive(l.reservations, l.rooms[k].number);
      SelectedRowIsFound(l.rooms, k);
      ReleaseKeepsConsistency(l, j, k);
    }
  }

  lemma SeedPreservesConsistency(l: Ledger)
    requires Consistent(l)
    ensures Consistent(Seed(l))
  {
    if |l.reservations| > 0 {
      // a reservation needs a room, so an empty room list has none
      assert HasRoom(l.rooms, l.reservations[0].roomNumber);
    }
  }

  /** A fresh installation, and any consistent saved state, starts
      consistent. */
  lemma StartupConsistent(loaded: Option<Ledger>)
    requires loaded.Some? ==> Consistent(loaded.value)
    ensures Consistent(Startup(loaded))
  {
    var l := if loaded.None? then Ledger([], []) else loaded.value;
    SeedPreservesConsistency(l);
  }

  /** Under the invariant a room is taken exactly when some reservation
      refers to it, and then by exactly one. */
  lemma TakenMeansReserved(l: Ledger, k: nat)
    requires Consistent(l) && k < |l.rooms|
    ensures !l.rooms[k].available <==>
      exists j :: 0 <= j < |l.reservations| && l.reservations[j].roomNumber == l.rooms[k].number
    ensures !l.rooms[k].available ==> CountRefs(l.reservations, l.rooms[k].number) == 1
  {
    CountRefsPositive(l.reservations, l.rooms[k].number);
  }
}
