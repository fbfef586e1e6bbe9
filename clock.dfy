/** The wall clock the service stamps records with. */
module WallClock {
  import opened Model

  class Clock {
    /** The latest reading handed out. */
    var time: Time

    constructor (start: Time)
      ensures time == start
    {
      time := start;
    }

    /** A fresh reading; the model's readings never go backwards (a real wall clock can repeat or go back). */
    method Now() returns (t: Time)
      modifies this
      ensures old(time) <= t && time == t
    {
      time := time + 1;
      t := time;
    }
  }
}
