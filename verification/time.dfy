/** Wall-clock instants of the scheduler, abstracted to whole minutes.
    The source works on naive local datetimes; only their order, their
    difference in minutes and their calendar date matter to the core. */
module Time {

  /** An instant, in minutes since a fixed local epoch. */
  type Minute = int

  const MinutesPerDay: int := 1440

  /** The calendar day an instant falls on (the source's `.date()`),
      as a day number since the epoch. Division by a positive constant
      rounds down, as a date does for instants before the epoch. */
  function DateOf(t: Minute): int {
    t / MinutesPerDay
  }
}
