/** Instants and stretches of time, in microseconds, as coverage, alarms, sessions and
    counters share them. */
module Instants {

  const MICROS := 1_000_000

  /** A coverage gap, as events that run through one are flagged with. */
  datatype GapInterval = GapInterval(start: int, end: int) {
    predicate Overlaps(from: int, to: int) {
      !(end <= from || start >= to)
    }
  }

  function AtLeastZero(x: int): int {
    if x > 0 then x else 0
  }

  /** The order observations are sorted into: by time, then by sequence. */
  predicate NoLater(time: int, sequence: int, otherTime: int, otherSequence: int) {
    time < otherTime || (time == otherTime && sequence <= otherSequence)
  }

  ghost predicate Increasing(s: seq<int>) {
    forall i, j :: 0 <= i < j < |s| ==> s[i] < s[j]
  }
}
