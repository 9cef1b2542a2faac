/** The order that protects time-based authenticated variables against replay. */
module TimeStamp {
  import opened Bytes

  /** The fields of EFI_TIME that take part in the comparison. */
  datatype Time = Time(year: uint16, month: byte, day: byte, hour: byte, minute: byte, second: byte)

  const ZERO := Time(0, 0, 0, 0, 0, 0)

  /** AuthServiceInternalCompareTimeStamp: the first time is not later than the second. */
  predicate NotLater(a: Time, b: Time) {
    if a.year != b.year then a.year < b.year
    else if a.month != b.month then a.month < b.month
    else if a.day != b.day then a.day < b.day
    else if a.hour != b.hour then a.hour < b.hour
    else if a.minute != b.minute then a.minute < b.minute
    else a.second <= b.second
  }

  /** A time as one number, the year first: each field has the range of its width. */
  function Stamp(t: Time): nat {
    t.second + 0x100 * (t.minute + 0x100 * (t.hour + 0x100 * (t.day + 0x100 * (t.month + 0x100 * t.year))))
  }

  /** The order is the order of time: that of these numbers, and equal numbers are equal times. */
  lemma NotLaterIsOrderOfTime(a: Time, b: Time)
    ensures NotLater(a, b) <==> Stamp(a) <= Stamp(b)
    ensures Stamp(a) == Stamp(b) <==> a == b
  {
    DigitsCompare(a.month + 0x100 * a.year, b.month + 0x100 * b.year, a.day, b.day);
    var x, y := a.day + 0x100 * (a.month + 0x100 * a.year), b.day + 0x100 * (b.month + 0x100 * b.year);
    DigitsCompare(x, y, a.hour, b.hour);
  }

  lemma DigitsCompare(x: int, y: int, low: byte, low': byte)
    ensures low + 0x100 * x <= low' + 0x100 * y <==> x < y || (x == y && low <= low')
  {
  }

  /** The comparison is a total order: reflexive, antisymmetric, transitive, and any two times compare. */
  lemma NotLaterIsTotalOrder(a: Time, b: Time, c: Time)
    ensures NotLater(a, a)
    ensures NotLater(a, b) && NotLater(b, a) ==> a == b
    ensures NotLater(a, b) && NotLater(b, c) ==> NotLater(a, c)
    ensures NotLater(a, b) || NotLater(b, a)
  {
  }

  /** The timestamps a variable goes through while every update is checked against the stored one. */
  predicate AcceptedRun(times: seq<Time>) {
    forall i :: 0 < i < |times| ==> !NotLater(times[i], times[i - 1])
  }

  /** Over a run of accepted updates the stored timestamp strictly increases, so an update that was
      accepted once is refused at every later point of the run. */
  lemma {:induction false} NoReplay(times: seq<Time>, early: nat, late: nat)
    requires AcceptedRun(times) && early < late < |times|
    ensures !NotLater(times[late], times[early])
    ensures NotLater(times[early], times[late])
    decreases late - early
  {
    if early + 1 < late {
      NoReplay(times, early, late - 1);
      NotLaterIsTotalOrder(times[late], times[early], times[late - 1]);
      NotLaterIsTotalOrder(times[late - 1], times[late], times[early]);
    } else {
      NotLaterIsTotalOrder(times[late], times[early], times[early]);
    }
  }
}
