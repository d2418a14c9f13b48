# Hotel reservation desk — a Dafny model of its booking logic

The application is a small desktop program for a hotel. It keeps two lists in memory:
- the rooms, each with a number, a type, a nightly price and an availability flag;
- the reservations, each with a guest name, a room number and check-in and check-out dates as free text.

The user can book the room in the selected table row, cancel a reservation by guest name, or exit. On start-up an empty room list is seeded with four default rooms.

This project models that booking logic in four modules:

- `Records` (`records.dfy`) holds the `Room` and `Reservation` records. It also holds the case-insensitive name comparison that cancellation uses.
- `Booking` (`booking.dfy`) describes booking, cancelling, seeding and start-up as functions on a `Ledger`, the pair of lists. Each function also returns what the user is told (`BookOutcome`, `CancelOutcome`). Their contracts state the success conditions, the no-op failure cases and the first-match searches.
- `Consistency` (`consistency.dfy`) defines the cross-list invariant `Consistent`:
  - room numbers are unique;
  - every reservation refers to an existing room;
  - a room is taken exactly when one reservation refers to it.

  It proves that booking, cancelling, seeding and start-up keep this invariant.
- `Desk` (`desk.dfy`) holds the class `HotelDesk`. The class owns the two lists as fields and updates them in place. It runs the same linear scans with early exit as the program does. The two scans, `FindRoom` and `FindReservation`, are proved to return exactly the index that `Booking.FirstRoom` and `Booking.FirstGuest` give. The constructor, `SeedIfEmpty`, `BookRoom` and `CancelReservation` are each proved to produce exactly the state and outcome that the matching `Booking` function gives, and to keep `Consistent`.

The window, the table and the dialogs are not modelled:
- a dialog answer is an `Option<string>`, with `None` for a closed dialog;
- the selected row is a `Selection`: `NoRow` for no selection, `Row(n)` for the room number `n` read from its first column, and `EditedRow` for a row whose number cell the user has edited.

The table's cells are editable. An edited cell holds text, so the cast to `int` at HotelReservationGUI.java:101 throws, and `bookRoom` stops before changing anything or showing a message. `Booking.Book` models this as the outcome `RowUnreadable`, with both lists unchanged.

`refreshTable` writes one row per room in list order. So row `i` holds `rooms[i].number` unless the user has edited the cell, and `Booking.SelectedRowIsFound` proves that this number always finds a room.

## Model

| member | source | states |
|---|---|---|
| `Records.Lower` | HotelReservationGUI.java:133 | the result is never an upper-case ASCII letter; exactly the upper-case letters change, each to the lower-case letter at the same alphabet position |
| `Records.LowerIdempotent` | HotelReservationGUI.java:133 | folding a folded character changes nothing |
| `Records.Folded` | HotelReservationGUI.java:133 | the folded string has the same length, and each character is the fold of the original one |
| `Records.EqualsIgnoreCase` | HotelReservationGUI.java:133 | two names match exactly when they have the same length and equal characters after ASCII lower-casing, that is, when their folded strings are equal |
| `Records.EqualsIgnoreCaseIsEquivalence` | HotelReservationGUI.java:133 | the guest-name comparison is reflexive, symmetric and transitive |
| `Booking.FirstRoom` | HotelReservationGUI.java:103-108 | the result is the index of the first room with the number, with no earlier room carrying it; None exactly when no room has that number |
| `Booking.FirstGuest` | HotelReservationGUI.java:132-137 | the result is the lowest index whose guest name matches ignoring case; None exactly when no reservation matches |
| `Booking.Book` | HotelReservationGUI.java:94-125 | no selection, an edited number cell, a missing or taken first room, or a closed dialog: both lists unchanged and the matching outcome, each case as an if-and-only-if. On success the first room with the number was free and is now taken, every other room is unchanged, and exactly the new reservation is appended |
| `Booking.Cancel` | HotelReservationGUI.java:127-153 | a closed dialog or a name matching no reservation leaves both lists unchanged (if-and-only-if). On success, exactly the lowest-index reservation matching ignoring case is removed. The others keep their order and the list shrinks by one. Only the first room with that reservation's number becomes available, and no room changes if none has it |
| `Booking.Seed` | HotelReservationGUI.java:77-81 | a non-empty room list is left alone. An empty one becomes exactly 101 "Single" 50.0, 102 "Double" 75.0, 103 "Suite" 150.0, 104 "Single" 50.0, in that order, all available and with unique numbers. Reservations are kept |
| `Booking.Startup` | HotelReservationGUI.java:165-174 | a failed load starts from the four default rooms and no reservations. Loaded reservations are always kept. A loaded non-empty room list is kept as loaded, and a loaded empty one is replaced by the four default rooms |
| `Booking.SelectedRowIsFound` | HotelReservationGUI.java:87-108 | the number shown in any table row finds a room at or before that row, and at that very row when numbers are unique |
| `Booking.BookThenCancelRestores` | HotelReservationGUI.java:110-146 | a successful booking followed by a cancellation under the same name gives back the exact earlier state, when no earlier reservation matches that name |
| `Booking.FreshBookingScenario` | HotelReservationGUI.java:77-125 | from a fresh start, booking room 102 for Alice marks 102 taken and records exactly her reservation |
| `Booking.FreshCancelScenario` | HotelReservationGUI.java:127-153 | cancelling "alice" after that booking restores the fresh state, the name matching regardless of case |
| `Booking.FreshMissingRoomScenario` | HotelReservationGUI.java:103-124 | from a fresh start, booking room 999, which no room carries, fails and changes nothing |
| `Consistency.BookPreservesConsistency` | HotelReservationGUI.java:110-117 | booking keeps the invariant: it adds a reference only to a free room and marks that room taken |
| `Consistency.ReleaseKeepsConsistency` | HotelReservationGUI.java:139-146 | removing one reservation and freeing its room keeps the invariant |
| `Consistency.CancelPreservesConsistency` | HotelReservationGUI.java:127-153 | cancelling keeps the invariant; under it, the cancelled reservation's room exists and was taken |
| `Consistency.SeedPreservesConsistency` | HotelReservationGUI.java:77-81 | seeding keeps the invariant, because a consistent state with no rooms has no reservations |
| `Consistency.StartupConsistent` | HotelReservationGUI.java:165-174 | start-up from a failed load, or from a consistent saved state, is consistent |
| `Consistency.TakenMeansReserved` | HotelReservationGUI.java:115-117 | under the invariant a room is taken if and only if some reservation refers to it, and a taken room is referred to by exactly one |
| `Consistency.CountRefsRemove` | HotelReservationGUI.java:146 | removing one reservation lowers the reference count of its own room number by one and leaves every other count alone |
| `Desk.HotelDesk.constructor` | HotelReservationGUI.java:45-84 | the start state is that of `Startup` for the load result; it is consistent when the load failed or gave a consistent state |
| `Desk.HotelDesk.SeedIfEmpty` | HotelReservationGUI.java:77-81 | the new state is the seeded old state; it keeps the invariant |
| `Desk.HotelDesk.FindRoom` | HotelReservationGUI.java:103-108 | the loop stops at the first room with the number, or reports that no room has it; its result is exactly `Booking.FirstRoom` |
| `Desk.HotelDesk.FindReservation` | HotelReservationGUI.java:132-137 | the loop stops at the first reservation whose name matches ignoring case, or reports that none matches; its result is exactly `Booking.FirstGuest` |
| `Desk.HotelDesk.BookRoom` | HotelReservationGUI.java:94-125 | the in-place update leaves exactly the state, and reports exactly the outcome, that `Booking.Book` gives; it keeps the invariant |
| `Desk.HotelDesk.CancelReservation` | HotelReservationGUI.java:127-153 | the in-place update leaves exactly the state, and reports exactly the outcome, that `Booking.Cancel` gives; it keeps the invariant |

## Left out

- The Swing window, table model, buttons, message dialogs and `refreshTable` rendering (HotelReservationGUI.java:45-75, 87-92) are user interface only. Dialog answers and what the selected row yields are parameters; the message shown is the returned outcome. The `ClassCastException` that an edited number cell raises at HotelReservationGUI.java:101 is not modelled as an exception; it is the outcome `RowUnreadable`, which, like the exception, changes nothing.
- `saveData` (HotelReservationGUI.java:155-163) writes both lists to files with Java object serialization, after every successful booking or cancellation and at start-up seeding. File output is not modelled.
- `loadData` (HotelReservationGUI.java:165-174) is modelled only by its result: either both lists as read, or two empty lists when anything fails. It becomes the constructor's `Option<Ledger>` parameter.
- `saveAndExit` and `main` (HotelReservationGUI.java:176-183) are process exit and event-thread start-up plumbing.
- Records.EqualsIgnoreCase: Java's `equalsIgnoreCase` folds case with the full Unicode tables. The model folds ASCII letters only, so names that differ in non-ASCII case are treated as different.
- The price is a `real` that is only carried, as in the program, which never computes with it. Java's `double` rounding and 32-bit `int` room numbers are not modelled, since no arithmetic is done on either.
- A room is a value inside the `rooms` sequence, and setting its flag replaces that element. The program mutates the shared `Room` object in place. No list entry is aliased elsewhere, so the two agree.
- `ArrayList.remove(found)` removes the first element identical to `found`. This is the first name match, because an earlier identical element would have matched first. The model removes that index.
- The program does not check the invariant when it loads saved data. A saved state with no rooms but some reservations is seeded with free rooms that those reservations may refer to, which is inconsistent. `Consistency.StartupConsistent` therefore assumes a consistent saved state.
