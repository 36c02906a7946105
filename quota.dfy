/** The daily upload quota of upload.py: a running total of uploaded video
    length that, on reaching five minutes, makes the daemon sleep for a day
    and start counting again from zero. Durations are whole microseconds,
    the resolution of Python's timedelta. */
module Quota {

  /** timedelta(minutes=5) in microseconds. */
  const FiveMinutes: nat := 300_000_000

  /** The pause taken when the quota is reached, `sleep(86400)`, in seconds. */
  const DaySeconds: nat := 86400

  /** The total after one file and whether the daemon sleeps for a day. */
  datatype Step = Step(total: nat, sleeps: bool)

  /** One file's effect on the quota: its length is added, and a total of
      five minutes or more triggers the day-long sleep and a reset to zero. */
  function QuotaStep(total: nat, duration: nat): (r: Step)
    ensures r.sleeps <==> total + duration >= FiveMinutes
    ensures !r.sleeps ==> r.total == total + duration
    ensures r.sleeps ==> r.total == 0
    ensures r.total < FiveMinutes
  {
    var added := total + duration;
    if added >= FiveMinutes then Step(0, true) else Step(added, false)
  }

  /** The `daily_upload_time` variable of the daemon. */
  class DailyQuota {
    var uploaded: nat

    /** Between files the total is always below the limit. */
    ghost predicate Valid()
      reads this
    {
      uploaded < FiveMinutes
    }

    /** `timedelta(milliseconds=0)`: nothing uploaded yet. */
    constructor ()
      ensures Valid() && uploaded == 0
    {
      uploaded := 0;
    }

    /** Adds one file's length and reports whether the daemon must sleep
        for a day, in which case the total is reset. */
    method Add(duration: nat) returns (mustSleep: bool)
      modifies this
      ensures Valid()
      ensures Step(uploaded, mustSleep) == QuotaStep(old(uploaded), duration)
    {
      uploaded := uploaded + duration;
      mustSleep := uploaded >= FiveMinutes;
      if mustSleep {
        uploaded := 0;
      }
    }
  }

  /** Total length of a sequence of files. */
  function Sum(ds: seq<nat>): nat {
    if ds == [] then 0 else ds[0] + Sum(ds[1..])
  }

  /** The quota total and the number of day-long sleeps after a sequence of
      files. */
  datatype Tally = Tally(total: nat, sleeps: nat)

  /** The quota after the files `ds` are handled in order from `total`. */
  function Run(total: nat, ds: seq<nat>): Tally
    decreases |ds|
  {
    if ds == [] then Tally(total, 0)
    else
      var s := QuotaStep(total, ds[0]);
      var rest := Run(s.total, ds[1..]);
      Tally(rest.total, rest.sleeps + if s.sleeps then 1 else 0)
  }

  /** Starting from a valid total, the total stays below the limit after
      any number of files. */
  lemma {:induction false} RunStaysBelowLimit(total: nat, ds: seq<nat>)
    requires total < FiveMinutes
    ensures Run(total, ds).total < FiveMinutes
    decreases |ds|
  {
    if ds != [] {
      RunStaysBelowLimit(QuotaStep(total, ds[0]).total, ds[1..]);
    }
  }

  /** While the accumulated length stays below five minutes nothing is
      reset: the total is the start plus every file's length, and the
      daemon never sleeps. */
  lemma {:induction false} RunBelowLimitAccumulates(total: nat, ds: seq<nat>)
    requires total + Sum(ds) < FiveMinutes
    ensures Run(total, ds) == Tally(total + Sum(ds), 0)
    decreases |ds|
  {
    if ds != [] {
      RunBelowLimitAccumulates(total + ds[0], ds[1..]);
    }
  }

  /** The total only ever grows by the files' lengths, and every sleep
      accounts for at least five minutes of uploaded video. */
  lemma {:induction false} RunSleepsBounded(total: nat, ds: seq<nat>)
    ensures Run(total, ds).sleeps * FiveMinutes + Run(total, ds).total <= total + Sum(ds)
    decreases |ds|
  {
    if ds != [] {
      var s := QuotaStep(total, ds[0]);
      RunSleepsBounded(s.total, ds[1..]);
    }
  }

  /** Conversely, a run in which the daemon never sleeps kept every file's
      length: its total is the whole sum, which stayed below the limit
      (unless there were no files and the start was already over it). */
  lemma {:induction false} RunWithoutSleepIsSum(total: nat, ds: seq<nat>)
    requires Run(total, ds).sleeps == 0
    ensures Run(total, ds).total == total + Sum(ds)
    ensures total + Sum(ds) < FiveMinutes || (ds == [] && total >= FiveMinutes)
    decreases |ds|
  {
    if ds != [] {
      var s := QuotaStep(total, ds[0]);
      assert !s.sleeps;
      RunWithoutSleepIsSum(s.total, ds[1..]);
    }
  }
}
