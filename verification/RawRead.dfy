/** The read of libraw that charges the time it waits to the caller's timeout. */
module RawRead {
  import opened Bytes

  const NANOS_PER_SECOND := 1_000_000_000
  const NANOS_PER_MILLI := 1_000_000
  const MTU := 1514

  // ---- timespec.h ---------------------------------------------------------------------------

  class Timespec {
    var sec: int
    var nsec: int

    ghost predicate Normal()
      reads this
    {
      0 <= nsec < NANOS_PER_SECOND
    }

    function Nanos(): int
      reads this
    {
      sec * NANOS_PER_SECOND + nsec
    }

    constructor ()
      ensures Normal() && Nanos() == 0
    {
      sec, nsec := 0, 0;
    }

    /** A clock reading: the clock delivers normalised values. */
    method Set(nanos: int)
      modifies this
      ensures Normal() && Nanos() == nanos
    {
      sec, nsec := nanos / NANOS_PER_SECOND, nanos % NANOS_PER_SECOND;
    }

    /** `timespecsub`: one borrow is enough to keep the difference normalised. */
    method Sub(u: Timespec)
      requires Normal() && u.Normal()
      modifies this
      ensures Normal() && Nanos() == old(Nanos()) - old(u.Nanos())
    {
      sec := sec - u.sec;
      nsec := nsec - u.nsec;
      if nsec < 0 {
        sec := sec - 1;
        nsec := nsec + NANOS_PER_SECOND;
      }
    }

    /** `timespecmset`. */
    method MSet(msec: nat)
      modifies this
      ensures Normal() && Nanos() == msec * NANOS_PER_MILLI
    {
      sec := msec / 1000;
      nsec := (msec - sec * 1000) * NANOS_PER_MILLI;
    }
  }

  // ---- Milliseconds left --------------------------------------------------------------------

  /** What the read stores in the caller's unsigned timeout when so many nanoseconds are left. */
  function MillisLeft(nanos: int): (ms: nat)
    ensures ms < TWO32
  {
    nanos / NANOS_PER_MILLI % TWO32
  }

  lemma MillisOfTimespec(sec: int, nsec: int)
    requires 0 <= nsec < NANOS_PER_SECOND
    ensures sec * 1000 + nsec / NANOS_PER_MILLI == (sec * NANOS_PER_SECOND + nsec) / NANOS_PER_MILLI
  {
  }

  /** Without an overrun the stored value is the time left, rounded down. */
  lemma MillisLeftExact(ms: nat, nanos: nat)
    requires ms < TWO32 && nanos <= ms * NANOS_PER_MILLI
    ensures MillisLeft(nanos) == nanos / NANOS_PER_MILLI <= ms
    ensures nanos < ms * NANOS_PER_MILLI ==> MillisLeft(nanos) < ms
    ensures nanos - (NANOS_PER_MILLI - 1) <= MillisLeft(nanos) * NANOS_PER_MILLI <= nanos
  {
    assert nanos / NANOS_PER_MILLI <= ms;
  }

  /** Setting a timeout and reading it back loses nothing. */
  lemma MillisRoundTrip(ms: nat)
    requires ms < TWO32
    ensures MillisLeft(ms * NANOS_PER_MILLI) == ms
  {
  }

  /**
   The timeout shrinks exactly when the wait stayed within its budget: after an overrun
   the unsigned value wraps around to more than the caller had.
   */
  lemma TimeoutShrinksIff(ms: nat, elapsed: nat)
    requires 0 < elapsed < TWO32 * NANOS_PER_MILLI
    requires ms < TWO32
    ensures MillisLeft(ms * NANOS_PER_MILLI - elapsed) < ms <==> elapsed <= ms * NANOS_PER_MILLI
  {
    var nanos := ms * NANOS_PER_MILLI - elapsed;
    var q := nanos / NANOS_PER_MILLI;
    if nanos >= 0 {
      MillisLeftExact(ms, nanos);
    } else {
      assert ms - TWO32 <= q < 0;
      assert MillisLeft(nanos) == q + TWO32;
    }
  }

  // ---- The kernel ---------------------------------------------------------------------------

  /** What `pselect` comes back with: data, the end of its time, a signal, or another error. */
  datatype Selected = Ready | Expired | Signalled | Broken

  datatype Delivery = Data(octets: seq<byte>) | Interrupted | Failed

  /** One `pselect`, the clock around it, and the `read` that follows if it was ready. */
  datatype Wait = Wait(before: int, after: int, selected: Selected, delivery: Delivery) {
    function Elapsed(): int {
      after - before
    }
  }

  /** A kernel answers the n-th wait, given the nanoseconds it may take. */
  type Waits = (nat, int) -> Wait

  /**
   The clock does not run backwards, and advances when a wait is interrupted; a negative
   time to wait is an error; data fits the buffer.
   */
  ghost predicate Ticking(waits: Waits) {
    forall i: nat, budget: int :: TickingWait(waits(i, budget), budget)
  }

  predicate TickingWait(w: Wait, budget: int) {
    && w.Elapsed() >= (if w.selected.Signalled? || (w.selected.Ready? && w.delivery.Interrupted?) then 1 else 0)
    && (budget < 0 ==> w.selected.Broken?)
    && (w.delivery.Data? ==> |w.delivery.octets| <= 1514)
  }

  /** Every wait takes measurable time. */
  ghost predicate TakesTime(waits: Waits) {
    forall i: nat, budget: int :: waits(i, budget).Elapsed() >= 1
  }

  /** Besides, a wait that finds data does not exceed its budget, and no signal ends a wait. */
  ghost predicate Punctual(waits: Waits) {
    Ticking(waits) && TakesTime(waits) && forall i: nat, budget: int :: PunctualWait(waits(i, budget), budget)
  }

  predicate PunctualWait(w: Wait, budget: int) {
    !w.selected.Signalled? && (w.selected.Ready? ==> w.Elapsed() <= budget)
  }

  class Kernel {
    const waits: Waits
    var calls: nat

    constructor (waits: Waits)
      ensures this.waits == waits && calls == 0
    {
      this.waits := waits;
      calls := 0;
    }

    method Select(budget: int) returns (w: Wait)
      modifies this`calls
      ensures w == waits(old(calls), budget) && calls == old(calls) + 1
    {
      w := waits(calls, budget);
      calls := calls + 1;
    }
  }

  // ---- One read -----------------------------------------------------------------------------

  /** How a read ends; `Unset` where the loop condition looks at a length that nothing has set. */
  datatype Outcome = Received(octets: seq<byte>) | TimedOut | Died | Unset

  /** A read: how many waits have been used, the nanoseconds left and spent, and the outcome. */
  datatype Reading = Reading(calls: nat, left: int, elapsed: nat, outcome: Outcome)

  /** What a budget that may be negative still allows. */
  function Patience(budget: int): nat {
    if budget < 0 then 0 else budget + 1
  }

  /** What one wait means for the read; `interrupted` if an earlier `read` of the same call was. */
  datatype Turn = Ends(outcome: Outcome) | Again

  function TurnOf(w: Wait, interrupted: bool): Turn {
    match w.selected
    case Broken => Ends(Died)
    case Expired => Ends(TimedOut)
    case Signalled => if interrupted then Again else Ends(Unset)
    case Ready =>
      match w.delivery
      case Data(octets) => Ends(Received(octets))
      case Failed => Ends(Died)
      case Interrupted => Again
  }

  /**
   A read with so many nanoseconds to spend: waits repeat while the `read` is interrupted,
   and once that has happened, while `pselect` is.
   */
  ghost function ReadWith(waits: Waits, calls: nat, budget: int, interrupted: bool): (r: Reading)
    requires Ticking(waits)
    ensures r.calls > calls && r.left == budget - r.elapsed
    ensures r.outcome.Received? ==> |r.outcome.octets| <= MTU
    decreases Patience(budget)
  {
    var w := waits(calls, budget);
    assert TickingWait(w, budget);
    match TurnOf(w, interrupted)
    case Ends(outcome) => Reading(calls + 1, budget - w.Elapsed(), w.Elapsed(), outcome)
    case Again =>
      var r := ReadWith(waits, calls + 1, budget - w.Elapsed(), true);
      r.(elapsed := w.Elapsed() + r.elapsed)
  }

  /** Two readings that a caller cannot tell apart. */
  predicate Alike(r: Reading, q: Reading) {
    r.outcome == q.outcome && r.calls == q.calls && r.left == q.left
  }

  lemma ReadStep(waits: Waits, calls: nat, budget: int, interrupted: bool)
    requires Ticking(waits)
    ensures var w, r := waits(calls, budget), ReadWith(waits, calls, budget, interrupted);
            var left := budget - w.Elapsed();
            match TurnOf(w, interrupted)
            case Ends(outcome) => Alike(r, Reading(calls + 1, left, r.elapsed, outcome))
            case Again => Patience(left) < Patience(budget) && Alike(r, ReadWith(waits, calls + 1, left, true))
  {
    assert TickingWait(waits(calls, budget), budget);
  }

  /** Where every wait takes time, so does every read. */
  lemma ReadLasts(waits: Waits, calls: nat, budget: int, interrupted: bool)
    requires Ticking(waits) && TakesTime(waits)
    ensures ReadWith(waits, calls, budget, interrupted).elapsed >= 1
  {
    assert waits(calls, budget).Elapsed() >= 1;
  }

  /** The read makes its wait number `c`, with this budget. */
  ghost predicate MakesWait(waits: Waits, calls: nat, budget: int, interrupted: bool, c: nat, b: int): (made: bool)
    requires Ticking(waits)
    ensures made ==> c >= calls
    decreases Patience(budget)
  {
    var w := waits(calls, budget);
    assert TickingWait(w, budget);
    (c == calls && b == budget)
    || (TurnOf(w, interrupted).Again? && MakesWait(waits, calls + 1, budget - w.Elapsed(), true, c, b))
  }

  /** What a wait must come to for the read to end so; `first` if no `read` has been made before it. */
  predicate Causes(w: Wait, first: bool, outcome: Outcome) {
    match outcome
    case Received(octets) => w.selected.Ready? && w.delivery == Data(octets)
    case TimedOut => w.selected.Expired?
    case Died => w.selected.Broken? || (w.selected.Ready? && w.delivery.Failed?)
    case Unset => w.selected.Signalled? && first
  }

  /** However a read ends, one of the waits it makes is the cause. */
  lemma {:induction false} ReadCaused(waits: Waits, calls: nat, budget: int, interrupted: bool) returns (c: nat, b: int)
    requires Ticking(waits)
    ensures MakesWait(waits, calls, budget, interrupted, c, b)
    ensures var r := ReadWith(waits, calls, budget, interrupted);
            Causes(waits(c, b), !interrupted && c == calls, r.outcome) && r.left == b - waits(c, b).Elapsed()
    decreases Patience(budget)
  {
    var w := waits(calls, budget);
    assert TickingWait(w, budget);
    c, b := calls, budget;
    if TurnOf(w, interrupted).Again? {
      c, b := ReadCaused(waits, calls + 1, budget - w.Elapsed(), true);
    }
  }

  /** And a wait that is a cause for an end, among those it makes, ends it so. */
  lemma {:induction false} CauseEndsRead(waits: Waits, calls: nat, budget: int, interrupted: bool, c: nat, b: int,
                                         outcome: Outcome)
    requires Ticking(waits) && MakesWait(waits, calls, budget, interrupted, c, b)
    requires Causes(waits(c, b), !interrupted && c == calls, outcome)
    ensures var r := ReadWith(waits, calls, budget, interrupted);
            r.outcome == outcome && r.left == b - waits(c, b).Elapsed()
    decreases Patience(budget)
  {
    var w := waits(calls, budget);
    assert TickingWait(w, budget);
    if TurnOf(w, interrupted).Again? {
      CauseEndsRead(waits, calls + 1, budget - w.Elapsed(), true, c, b, outcome);
    }
  }

  /** A punctual kernel's read keeps its budget and never meets an unset length. */
  lemma {:induction false} PunctualRead(waits: Waits, calls: nat, budget: int, interrupted: bool)
    requires Punctual(waits)
    ensures Ticking(waits)
    ensures var r := ReadWith(waits, calls, budget, interrupted);
            && !r.outcome.Unset?
            && (r.outcome.Received? ==> 0 <= r.left < budget)
    decreases Patience(budget)
  {
    var w := waits(calls, budget);
    assert TickingWait(w, budget) && PunctualWait(w, budget) && w.Elapsed() >= 1;
    if w.selected.Ready? && w.delivery.Interrupted? {
      PunctualRead(waits, calls + 1, budget - w.Elapsed(), true);
    }
  }

  /** The mutable timeout that a caller shares between reads. */
  class Timeout {
    var timeout: nat

    constructor (milliseconds: nat)
      ensures timeout == milliseconds
    {
      timeout := milliseconds;
    }
  }

  /** One turn of the wait loop: its time is taken from `time` and the rest is stored. */
  method WaitOnce(kernel: Kernel, time: Timespec, timeout: Timeout) returns (w: Wait)
    requires time.Normal()
    modifies kernel`calls, time, timeout
    ensures w == kernel.waits(old(kernel.calls), old(time.Nanos())) && kernel.calls == old(kernel.calls) + 1
    ensures time.Normal() && time.Nanos() == old(time.Nanos()) - w.Elapsed()
    ensures timeout.timeout == MillisLeft(time.Nanos())
  {
    var before := new Timespec();
    var after := new Timespec();
    w := kernel.Select(time.Nanos());
    before.Set(w.before);
    after.Set(w.after);
    after.Sub(before);
    time.Sub(after);
    MillisOfTimespec(time.sec, time.nsec);
    timeout.timeout := (time.sec * 1000 + time.nsec / NANOS_PER_MILLI) % TWO32;
  }

  /**
   The read. The timeout ends as the whole milliseconds that are left of it after all
   waits of this read together, interrupted ones included, in the unsigned arithmetic that
   wraps after an overrun; and as zero on a timeout.
   */
  method GrnvsRead(kernel: Kernel, timeout: Timeout) returns (outcome: Outcome)
    requires Ticking(kernel.waits)
    requires timeout.timeout < TWO32
    modifies kernel`calls, timeout
    ensures timeout.timeout < TWO32
    ensures old(timeout.timeout) == 0 ==>
              outcome == TimedOut && timeout.timeout == 0 && kernel.calls == old(kernel.calls)
    ensures old(timeout.timeout) > 0 ==>
              var r := ReadWith(kernel.waits, old(kernel.calls), old(timeout.timeout) * NANOS_PER_MILLI, false);
              && outcome == r.outcome && kernel.calls == r.calls
              && timeout.timeout == if outcome == TimedOut then 0 else MillisLeft(r.left)
  {
    hide Ticking, MillisLeft, ReadWith, Patience;
    if timeout.timeout <= 0 {
      return TimedOut;
    }
    var time := new Timespec();
    time.MSet(timeout.timeout);
    ghost var whole := ReadWith(kernel.waits, kernel.calls, time.Nanos(), false);
    // Whether the length is set; it is then negative.
    var interrupted := false;
    while true
      invariant time.Normal()
      invariant Alike(whole, ReadWith(kernel.waits, kernel.calls, time.Nanos(), interrupted))
      decreases Patience(time.Nanos())
    {
      ReadStep(kernel.waits, kernel.calls, time.Nanos(), interrupted);
      var w := WaitOnce(kernel, time, timeout);
      match w.selected {
        case Broken => return Died;
        case Expired =>
          timeout.timeout := 0;
          return TimedOut;
        case Signalled =>
          if !interrupted {
            return Unset;
          }
        case Ready =>
          match w.delivery {
            case Data(octets) => return Received(octets);
            case Failed => return Died;
            case Interrupted => interrupted := true;
          }
      }
    }
  }

  // ---- Many reads on one timeout ------------------------------------------------------------

  /** Reads that share a timeout, as long as each of them delivers data without an overrun. */
  datatype Run = Run(calls: nat, ms: nat, elapsed: nat) | Over

  ghost function ReadAgain(waits: Waits, calls: nat, ms: nat, k: nat): Run
    requires Ticking(waits)
    decreases k
  {
    if k == 0 then Run(calls, ms, 0)
    else if ms == 0 then Over
    else
      var r := ReadWith(waits, calls, ms * NANOS_PER_MILLI, false);
      if !r.outcome.Received? || r.left < 0 then Over
      else
        match ReadAgain(waits, r.calls, MillisLeft(r.left), k - 1)
        case Over => Over
        case Run(c, m, e) => Run(c, m, r.elapsed + e)
  }

  /**
   Conservation: k reads that share a timeout spend exactly the time that passed, up to
   the part of a millisecond that each of them rounds away; and where every wait takes
   time, each read uses up at least one millisecond.
   */
  lemma {:induction false} TimeoutConserved(waits: Waits, calls: nat, ms: nat, k: nat)
    requires Ticking(waits) && ms < TWO32
    ensures var run := ReadAgain(waits, calls, ms, k);
            run.Run? ==>
              && ms * NANOS_PER_MILLI - run.elapsed - k * (NANOS_PER_MILLI - 1)
                 <= run.ms * NANOS_PER_MILLI
                 <= ms * NANOS_PER_MILLI - run.elapsed
              && (TakesTime(waits) ==> run.ms + k <= ms)
    decreases k
  {
    if k > 0 && ms > 0 {
      var r := ReadWith(waits, calls, ms * NANOS_PER_MILLI, false);
      if r.outcome.Received? && r.left >= 0 {
        MillisLeftExact(ms, r.left);
        if TakesTime(waits) {
          ReadLasts(waits, calls, ms * NANOS_PER_MILLI, false);
        }
        TimeoutConserved(waits, r.calls, MillisLeft(r.left), k - 1);
      }
    }
  }

  /** So a timeout of M milliseconds admits at most M reads that deliver data. */
  lemma ReadsBounded(waits: Waits, calls: nat, ms: nat, k: nat)
    requires Ticking(waits) && TakesTime(waits) && ms < TWO32
    requires ReadAgain(waits, calls, ms, k).Run?
    ensures k <= ms
  {
    TimeoutConserved(waits, calls, ms, k);
  }
}
