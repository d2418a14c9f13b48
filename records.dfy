/** The two record types of the hotel system and the case-insensitive
    comparison that cancellation uses to find a guest. */
module Records {

  datatype Option<+T> = None | Some(value: T)

  /** A room: its number, its category label, its nightly price and whether
      it can be booked. Only `available` ever changes. The price is carried
      and displayed, never computed with. */
  datatype Room = Room(number: int, roomType: string, price: real, available: bool)

  /** A guest's booking of one room; the dates are free text, never parsed. */
  datatype Reservation = Reservation(guestName: string, roomNumber: int, checkIn: string, checkOut: string)

  /** ASCII lower-casing of one character; other characters are left alone. */
  function Lower(c: char): (d: char)
    ensures !('A' <= d <= 'Z')
    ensures d != c <==> 'A' <= c <= 'Z'
    ensures 'A' <= c <= 'Z' ==> d as int - 'a' as int == c as int - 'A' as int
  {
    if 'A' <= c <= 'Z' then (c as int + 32) as char else c
  }

  /** Folding twice is folding once. */
  lemma LowerIdempotent(c: char)
    ensures Lower(Lower(c)) == Lower(c)
  {
  }

  /** A whole string folded to lower case, character by character. */
  function Folded(s: string): (t: string)
    ensures |t| == |s|
    ensures forall i :: 0 <= i < |s| ==> t[i] == Lower(s[i])
  {
    if s == [] then [] else [Lower(s[0])] + Folded(s[1..])
  }

  /** Case-insensitive string equality: same length and the same characters
      once upper-case ASCII letters are folded to lower case. It agrees with
      comparing the two folded strings. */
  predicate EqualsIgnoreCase(a: string, b: string)
    ensures EqualsIgnoreCase(a, b) <==> Folded(a) == Folded(b)
  {
    |a| == |b| && forall i :: 0 <= i < |a| ==> Lower(a[i]) == Lower(b[i])
  }

  /** The comparison is an equivalence, so which side is the stored name and
      which the typed one does not matter. */
  lemma EqualsIgnoreCaseIsEquivalence(a: string, b: string, c: string)
    ensures EqualsIgnoreCase(a, a)
    ensures EqualsIgnoreCase(a, b) ==> EqualsIgnoreCase(b, a)
    ensures EqualsIgnoreCase(a, b) && EqualsIgnoreCase(b, c) ==> EqualsIgnoreCase(a, c)
  {
  }

  /** Two strings that differ only in the case of ASCII letters compare equal;
      strings of different lengths never do. */
  lemma EqualsIgnoreCaseExamples()
    ensures EqualsIgnoreCase("Alice", "aLICE")
    ensures !EqualsIgnoreCase("Alice", "Alicia")
    ensures !EqualsIgnoreCase("Al", "Bl")
  {
    assert Lower("Al"[0]) == 'a' && Lower("Bl"[0]) == 'b';
  }
}
