/** What attempts, hops and runs of the traceroute come to, and which packets decide it. */
module Tracing {
  import opened Bytes
  import opened Checksum
  import opened HeaderWalk
  import opened RawRead
  import opened Responses

  /** What is printed for an attempt. */
  datatype Cell = Star | Host(address: seq<byte>)

  /** Normal completion, `System.exit`, an exception that nothing catches, or a loop without end. */
  datatype Flow<+T> = Normal(value: T) | Exited | Uncaught(exception: Exception) | Endless {
    predicate IsFailure() { !Normal? }
    function PropagateFailure<U>(): Flow<U>
      requires !Normal?
    {
      match this
      case Exited => Exited
      case Uncaught(e) => Uncaught(e)
      case Endless => Endless
    }
    function Extract(): T
      requires Normal?
    {
      value
    }
  }

  /** The kernel's waits, the result of the n-th write, the timeout of an attempt and our address. */
  datatype World = World(waits: Waits, writes: nat -> int, ms: nat, myIp: seq<byte>) {
    ghost predicate Valid() {
      Punctual(waits) && ms < TWO32
    }
  }

  // ---- Attempts -----------------------------------------------------------------------------

  datatype Await = Await(flow: Flow<Cell>, calls: nat, readCount: nat)

  /** Reading with what is left of a timeout until it expires or a reply arrives. */
  ghost function Awaited(waits: Waits, calls: nat, ms: nat, myIp: seq<byte>): (w: Await)
    requires Punctual(waits) && ms < TWO32
    ensures w.readCount <= ms + 1
    decreases ms
  {
    if ms == 0 then Await(Normal(Star), calls, 1)
    else
      PunctualRead(waits, calls, ms * NANOS_PER_MILLI, false);
      var r := ReadWith(waits, calls, ms * NANOS_PER_MILLI, false);
      if r.outcome.Died? then Await(Exited, r.calls, 1)
      else if r.outcome.TimedOut? || r.outcome.octets == [] then Await(Normal(Star), r.calls, 1)
      else
        match Judge(r.outcome.octets, myIp)
        case Thrown(e) => Await(Uncaught(e), r.calls, 1)
        case Ok(NoAnswer) => Await(Endless, r.calls, 1)
        case Ok(Reply(source)) => Await(Normal(Host(source)), r.calls, 1)
        case Ok(Ignored) =>
          MillisLeftExact(ms, r.left);
          var w := Awaited(waits, r.calls, MillisLeft(r.left), myIp);
          w.(readCount := w.readCount + 1)
  }

  /** How an attempt ends, how many waits have been made by then, and how many probes sent. */
  datatype Tried = Tried(flow: Flow<Cell>, calls: nat, probes: nat)

  /** An attempt after `n` probes: unless the write fails, one more probe and the wait for its reply. */
  ghost function AttemptTrace(w: World, calls: nat, n: nat): Tried
    requires w.Valid()
  {
    if w.writes(n) <= 0 then Tried(Exited, calls, n)
    else
      var a := Awaited(w.waits, calls, w.ms, w.myIp);
      Tried(a.flow, a.calls, n + 1)
  }

  // ---- Hops and runs ------------------------------------------------------------------------

  /** What has been printed, how it ended, and the waits made and probes sent by then. */
  datatype Trace<T> = Trace(printed: seq<T>, flow: Flow<()>, calls: nat, probes: nat)

  /** Up to `a` attempts of a hop; the first that does not end normally is the last. */
  ghost function HopTrace(w: World, calls: nat, n: nat, a: nat): (t: Trace<Cell>)
    requires w.Valid()
    ensures t.flow.Normal? ==> |t.printed| == a && t.probes == n + a
    ensures !t.flow.Normal? ==> |t.printed| < a && n + |t.printed| <= t.probes <= n + |t.printed| + 1
    decreases a
  {
    if a == 0 then Trace([], Normal(()), calls, n)
    else
      var t := HopTrace(w, calls, n, a - 1);
      if !t.flow.Normal? then t
      else
        var r := AttemptTrace(w, t.calls, t.probes);
        if r.flow.Normal? then Trace(t.printed + [r.flow.value], Normal(()), r.calls, r.probes)
        else Trace(t.printed, r.flow.PropagateFailure(), r.calls, r.probes)
  }

  predicate HasHost(row: seq<Cell>) {
    exists i :: 0 <= i < |row| && row[i].Host?
  }

  /** The last row printed shows an address. */
  predicate Arrived(rows: seq<seq<Cell>>) {
    rows != [] && HasHost(rows[|rows| - 1])
  }

  /** Up to `h` hops; a row with an address, or a hop that does not end normally, is the last. */
  ghost function RunTrace(w: World, calls: nat, n: nat, attempts: nat, h: nat): (t: Trace<seq<Cell>>)
    requires w.Valid()
    ensures |t.printed| <= h
    decreases h
  {
    if h == 0 then Trace([], Normal(()), calls, n)
    else
      var t := RunTrace(w, calls, n, attempts, h - 1);
      if !t.flow.Normal? || Arrived(t.printed) then t
      else
        var r := HopTrace(w, t.calls, t.probes, attempts);
        Trace(t.printed + [r.printed], r.flow, r.calls, r.probes)
  }

  lemma RunStep(w: World, calls: nat, n: nat, attempts: nat, h: nat)
    requires w.Valid()
    ensures RunTrace(w, calls, n, attempts, 0) == Trace([], Normal(()), calls, n) && !Arrived([])
    ensures var t := RunTrace(w, calls, n, attempts, h);
            t.flow.Normal? && !Arrived(t.printed) ==>
              var r := HopTrace(w, t.calls, t.probes, attempts);
              && RunTrace(w, calls, n, attempts, h + 1) == Trace(t.printed + [r.printed], r.flow, r.calls, r.probes)
              && (Arrived(t.printed + [r.printed]) <==> HasHost(r.printed))
  {
    hide HopTrace, HasHost;
  }

  /** What has failed stays failed. */
  lemma {:induction false} HopStays(w: World, calls: nat, n: nat, a: nat, b: nat)
    requires w.Valid() && a <= b && !HopTrace(w, calls, n, a).flow.Normal?
    ensures HopTrace(w, calls, n, b) == HopTrace(w, calls, n, a)
    decreases b
  {
    if a < b {
      HopStays(w, calls, n, a, b - 1);
    }
  }

  /** A run that has failed or arrived goes no further. */
  lemma {:induction false} RunStays(w: World, calls: nat, n: nat, attempts: nat, h: nat, k: nat)
    requires w.Valid() && h <= k
    requires !RunTrace(w, calls, n, attempts, h).flow.Normal? || Arrived(RunTrace(w, calls, n, attempts, h).printed)
    ensures RunTrace(w, calls, n, attempts, k) == RunTrace(w, calls, n, attempts, h)
    decreases k
  {
    if h < k {
      RunStays(w, calls, n, attempts, h, k - 1);
    }
  }

  /** All rows but the last are whole and without an address. */
  predicate WholeBefore(rows: seq<seq<Cell>>, attempts: nat) {
    forall i :: 0 <= i < |rows| - 1 ==> |rows[i]| == attempts && !HasHost(rows[i])
  }

  /** How many attempts the rows show, if all but the last are whole. */
  function Shown(rows: seq<seq<Cell>>, attempts: nat): nat {
    if rows == [] then 0 else (|rows| - 1) * attempts + |rows[|rows| - 1]|
  }

  /** One probe for each attempt shown, and at most one more if the last attempt broke off. */
  predicate Shaped(t: Trace<seq<Cell>>, n: nat, attempts: nat, h: nat) {
    && WholeBefore(t.printed, attempts) && |t.printed| <= h
    && (t.flow.Normal? ==>
          && (|t.printed| < h ==> Arrived(t.printed))
          && (t.printed != [] ==> |t.printed[|t.printed| - 1]| == attempts)
          && t.probes == n + Shown(t.printed, attempts))
    && (!t.flow.Normal? ==>
          && t.printed != [] && |t.printed[|t.printed| - 1]| < attempts
          && n + Shown(t.printed, attempts) <= t.probes <= n + Shown(t.printed, attempts) + 1)
  }

  lemma ShapeStep(t: Trace<seq<Cell>>, r: Trace<Cell>, n: nat, attempts: nat, h: nat)
    requires Shaped(t, n, attempts, h) && t.flow.Normal? && !Arrived(t.printed) && |t.printed| == h
    requires r.flow.Normal? ==> |r.printed| == attempts && r.probes == t.probes + attempts
    requires !r.flow.Normal? ==> |r.printed| < attempts && |r.printed| <= r.probes - t.probes <= |r.printed| + 1
    ensures Shaped(Trace(t.printed + [r.printed], r.flow, r.calls, r.probes), n, attempts, h + 1)
  {
    hide HasHost;
    var rows := t.printed + [r.printed];
    assert Shown(t.printed, attempts) == |t.printed| * attempts by {
      if h > 0 {
        assert h * attempts == (h - 1) * attempts + attempts;
      }
    }
    assert Shown(rows, attempts) == |t.printed| * attempts + |r.printed|;
  }

  /**
   The shape of a run. All rows but the last are whole and without an address; the last one
   is whole if the run completes, and then only the hop limit or an address ended the run.
   */
  lemma {:induction false} RunShape(w: World, calls: nat, n: nat, attempts: nat, h: nat)
    requires w.Valid()
    ensures Shaped(RunTrace(w, calls, n, attempts, h), n, attempts, h)
    decreases h
  {
    hide HopTrace, Arrived, HasHost;
    if h > 0 {
      RunShape(w, calls, n, attempts, h - 1);
      var t := RunTrace(w, calls, n, attempts, h - 1);
      if t.flow.Normal? && !Arrived(t.printed) {
        ShapeStep(t, HopTrace(w, t.calls, t.probes, attempts), n, attempts, h - 1);
      }
    }
  }

  // ---- The waits that are made --------------------------------------------------------------

  /** Waiting for a reply makes wait number `c`, with this budget. */
  ghost predicate AttemptMakes(w: World, calls: nat, ms: nat, c: nat, b: int)
    requires Punctual(w.waits) && ms < TWO32
    decreases ms
  {
    ms > 0 &&
    (PunctualRead(w.waits, calls, ms * NANOS_PER_MILLI, false);
     var r := ReadWith(w.waits, calls, ms * NANOS_PER_MILLI, false);
     MakesWait(w.waits, calls, ms * NANOS_PER_MILLI, false, c, b)
     || (r.outcome.Received? && r.outcome.octets != [] && Judge(r.outcome.octets, w.myIp) == Ok(Ignored)
         && (MillisLeftExact(ms, r.left); AttemptMakes(w, r.calls, MillisLeft(r.left), c, b))))
  }

  ghost predicate HopMakes(w: World, calls: nat, n: nat, a: nat, c: nat, b: int)
    requires w.Valid()
    decreases a
  {
    a > 0 &&
    (HopMakes(w, calls, n, a - 1, c, b)
     || (var t := HopTrace(w, calls, n, a - 1);
         t.flow.Normal? && w.writes(t.probes) > 0 && AttemptMakes(w, t.calls, w.ms, c, b)))
  }

  /** A run makes wait number `c`, with this budget. */
  ghost predicate RunMakes(w: World, calls: nat, n: nat, attempts: nat, h: nat, c: nat, b: int)
    requires w.Valid()
    decreases h
  {
    h > 0 &&
    (RunMakes(w, calls, n, attempts, h - 1, c, b)
     || (var t := RunTrace(w, calls, n, attempts, h - 1);
         t.flow.Normal? && !Arrived(t.printed) && HopMakes(w, t.calls, t.probes, attempts, c, b)))
  }

  // ---- What decides a run -------------------------------------------------------------------

  /** What ends the wait for a reply: a packet, the death of the program, or silence. */
  datatype Ending = Judged(j: Result<Answer>) | Death | Silence

  /** A wait with this budget brings that ending about; of silence, also by leaving no millisecond. */
  ghost predicate Brings(w: Wait, b: int, myIp: seq<byte>, o: Ending) {
    match o
    case Judged(j) =>
      w.selected.Ready? && w.delivery.Data? && w.delivery.octets != [] && Judge(w.delivery.octets, myIp) == j
    case Death => w.selected.Broken? || (w.selected.Ready? && w.delivery.Failed?)
    case Silence =>
      || w.selected.Expired?
      || (w.selected.Ready? && w.delivery.Data?
          && (w.delivery.octets == []
              || (Judge(w.delivery.octets, myIp) == Ok(Ignored) && b - w.Elapsed() < 1_000_000)))
  }

  /** An attempt shows its ending by what it prints or by the way it fails. */
  predicate AttemptShows(flow: Flow<Cell>, o: Ending) {
    match o
    case Judged(Thrown(e)) => flow == Uncaught(e)
    case Judged(Ok(NoAnswer)) => flow == Endless
    case Judged(Ok(Reply(source))) => flow == Normal(Host(source))
    case Judged(Ok(Ignored)) => false
    case Death => flow == Exited
    case Silence => flow == Normal(Star)
  }

  /** A hop that started after `n` probes shows the endings of its attempts. */
  predicate HopShows(t: Trace<Cell>, n: nat, o: Ending) {
    match o
    case Judged(Thrown(e)) => t.flow == Uncaught(e)
    case Judged(Ok(NoAnswer)) => t.flow == Endless
    case Judged(Ok(Reply(source))) => Host(source) in t.printed
    case Judged(Ok(Ignored)) => false
    case Death => t.flow == Exited && t.probes == n + |t.printed| + 1
    case Silence => Star in t.printed
  }

  predicate InSome(cell: Cell, rows: seq<seq<Cell>>) {
    exists i :: 0 <= i < |rows| && cell in rows[i]
  }

  predicate RunShows(t: Trace<seq<Cell>>, n: nat, attempts: nat, o: Ending) {
    match o
    case Judged(Thrown(e)) => t.flow == Uncaught(e)
    case Judged(Ok(NoAnswer)) => t.flow == Endless
    case Judged(Ok(Reply(source))) => InSome(Host(source), t.printed)
    case Judged(Ok(Ignored)) => false
    case Death => t.flow == Exited && t.probes == n + Shown(t.printed, attempts) + 1
    case Silence => InSome(Star, t.printed)
  }

  lemma {:induction false} AttemptBrought(w: World, calls: nat, ms: nat, o: Ending) returns (c: nat, b: int)
    requires Punctual(w.waits) && ms < TWO32 && (o == Silence ==> ms > 0)
    requires AttemptShows(Awaited(w.waits, calls, ms, w.myIp).flow, o)
    ensures AttemptMakes(w, calls, ms, c, b) && Brings(w.waits(c, b), b, w.myIp, o)
    decreases ms
  {
    hide Judge, MillisLeft, ReadWith, Ticking, TakesTime;
    if ms == 0 {
      return;
    }
    PunctualRead(w.waits, calls, ms * NANOS_PER_MILLI, false);
    var r := ReadWith(w.waits, calls, ms * NANOS_PER_MILLI, false);
    c, b := ReadCaused(w.waits, calls, ms * NANOS_PER_MILLI, false);
    if r.outcome.Received? && r.outcome.octets != [] && Judge(r.outcome.octets, w.myIp) == Ok(Ignored) {
      MillisLeftExact(ms, r.left);
      if MillisLeft(r.left) > 0 {
        c, b := AttemptBrought(w, r.calls, MillisLeft(r.left), o);
      }
    }
  }

  /** A wait that brings an ending about is the cause of the read's outcome. */
  function OutcomeOf(w: Wait, o: Ending): Outcome
  {
    if o == Death then Died
    else if w.selected.Ready? && w.delivery.Data? then Received(w.delivery.octets)
    else TimedOut
  }

  lemma {:induction false} BringingShown(w: World, calls: nat, ms: nat, o: Ending, c: nat, b: int)
    requires Punctual(w.waits) && ms < TWO32 && o != Judged(Ok(Ignored))
    requires AttemptMakes(w, calls, ms, c, b) && Brings(w.waits(c, b), b, w.myIp, o)
    ensures AttemptShows(Awaited(w.waits, calls, ms, w.myIp).flow, o)
    decreases ms
  {
    hide Judge, MillisLeft, ReadWith, Ticking, TakesTime;
    PunctualRead(w.waits, calls, ms * NANOS_PER_MILLI, false);
    var r := ReadWith(w.waits, calls, ms * NANOS_PER_MILLI, false);
    if MakesWait(w.waits, calls, ms * NANOS_PER_MILLI, false, c, b) {
      CauseEndsRead(w.waits, calls, ms * NANOS_PER_MILLI, false, c, b, OutcomeOf(w.waits(c, b), o));
      if r.outcome.Received? {
        MillisLeftExact(ms, r.left);
      }
    } else {
      MillisLeftExact(ms, r.left);
      BringingShown(w, r.calls, MillisLeft(r.left), o, c, b);
    }
  }

  /** What an attempt adds to what a hop shows. */
  lemma HopGrows(w: World, calls: nat, n: nat, a: nat, o: Ending)
    requires w.Valid() && a > 0
    ensures var t := HopTrace(w, calls, n, a - 1);
            HopShows(HopTrace(w, calls, n, a), n, o)
            <==> || HopShows(t, n, o)
                 || (t.flow.Normal? && w.writes(t.probes) > 0
                     && AttemptShows(Awaited(w.waits, t.calls, w.ms, w.myIp).flow, o))
  {
    hide Awaited;
  }

  lemma {:induction false} HopBrought(w: World, calls: nat, n: nat, a: nat, o: Ending) returns (c: nat, b: int)
    requires w.Valid() && (o == Silence ==> w.ms > 0) && HopShows(HopTrace(w, calls, n, a), n, o)
    ensures HopMakes(w, calls, n, a, c, b) && Brings(w.waits(c, b), b, w.myIp, o)
    decreases a
  {
    hide Brings, Awaited, AttemptShows;
    if a > 0 {
      HopGrows(w, calls, n, a, o);
      var t := HopTrace(w, calls, n, a - 1);
      if HopShows(t, n, o) {
        c, b := HopBrought(w, calls, n, a - 1, o);
      } else {
        c, b := AttemptBrought(w, t.calls, w.ms, o);
      }
    }
  }

  lemma {:induction false} HopBringingShown(w: World, calls: nat, n: nat, a: nat, o: Ending, c: nat, b: int)
    requires w.Valid() && o != Judged(Ok(Ignored))
    requires HopMakes(w, calls, n, a, c, b) && Brings(w.waits(c, b), b, w.myIp, o)
    ensures HopShows(HopTrace(w, calls, n, a), n, o)
    decreases a
  {
    hide Brings, Awaited, AttemptShows, HopShows;
    HopGrows(w, calls, n, a, o);
    if HopMakes(w, calls, n, a - 1, c, b) {
      HopBringingShown(w, calls, n, a - 1, o, c, b);
    } else {
      BringingShown(w, HopTrace(w, calls, n, a - 1).calls, w.ms, o, c, b);
    }
  }

  /** What a hop adds to what a run shows. */
  lemma RunGrows(w: World, calls: nat, n: nat, attempts: nat, h: nat, o: Ending)
    requires w.Valid() && h > 0
    ensures var t := RunTrace(w, calls, n, attempts, h - 1);
            RunShows(RunTrace(w, calls, n, attempts, h), n, attempts, o)
            <==> || RunShows(t, n, attempts, o)
                 || (t.flow.Normal? && !Arrived(t.printed)
                     && HopShows(HopTrace(w, t.calls, t.probes, attempts), t.probes, o))
  {
    hide HopTrace, Arrived, InSome, HasHost, Shown;
    var t := RunTrace(w, calls, n, attempts, h - 1);
    if t.flow.Normal? && !Arrived(t.printed) {
      var r := HopTrace(w, t.calls, t.probes, attempts);
      RunShape(w, calls, n, attempts, h - 1);
      ShownAppended(t.printed, r.printed, attempts);
      RowAdded(t.printed, r.printed);
    }
  }

  lemma ShownAppended(rows: seq<seq<Cell>>, row: seq<Cell>, attempts: nat)
    requires rows != [] ==> |rows[|rows| - 1]| == attempts
    ensures Shown(rows + [row], attempts) == Shown(rows, attempts) + |row|
  {
    if rows != [] {
      assert |rows| * attempts == (|rows| - 1) * attempts + attempts;
    }
  }

  lemma RowAdded(rows: seq<seq<Cell>>, row: seq<Cell>)
    ensures forall cell :: InSome(cell, rows + [row]) <==> InSome(cell, rows) || cell in row
  {
    var more := rows + [row];
    forall cell
      ensures InSome(cell, more) <==> InSome(cell, rows) || cell in row
    {
      if i :| 0 <= i < |rows| && cell in rows[i] {
        assert cell in more[i];
      }
      if cell in row {
        assert cell in more[|rows|];
      }
    }
  }

  lemma {:induction false} RunBrought(w: World, calls: nat, n: nat, attempts: nat, h: nat, o: Ending)
    returns (c: nat, b: int)
    requires w.Valid() && (o == Silence ==> w.ms > 0)
    requires RunShows(RunTrace(w, calls, n, attempts, h), n, attempts, o)
    ensures RunMakes(w, calls, n, attempts, h, c, b) && Brings(w.waits(c, b), b, w.myIp, o)
    decreases h
  {
    hide Brings, HopTrace, Arrived, HopShows;
    if h > 0 {
      RunGrows(w, calls, n, attempts, h, o);
      var t := RunTrace(w, calls, n, attempts, h - 1);
      if RunShows(t, n, attempts, o) {
        c, b := RunBrought(w, calls, n, attempts, h - 1, o);
      } else {
        c, b := HopBrought(w, t.calls, t.probes, attempts, o);
      }
    }
  }

  lemma {:induction false} RunBringingShown(w: World, calls: nat, n: nat, attempts: nat, h: nat, o: Ending,
                                            c: nat, b: int)
    requires w.Valid() && o != Judged(Ok(Ignored))
    requires RunMakes(w, calls, n, attempts, h, c, b) && Brings(w.waits(c, b), b, w.myIp, o)
    ensures RunShows(RunTrace(w, calls, n, attempts, h), n, attempts, o)
    decreases h
  {
    hide Brings, HopTrace, Arrived, HopShows, RunShows;
    RunGrows(w, calls, n, attempts, h, o);
    if RunMakes(w, calls, n, attempts, h - 1, c, b) {
      RunBringingShown(w, calls, n, attempts, h - 1, o, c, b);
    } else {
      var t := RunTrace(w, calls, n, attempts, h - 1);
      HopBringingShown(w, t.calls, t.probes, attempts, o, c, b);
    }
  }

  ghost predicate Brought(w: World, calls: nat, n: nat, attempts: nat, h: nat, o: Ending)
    requires w.Valid()
  {
    exists c: nat, b: int :: RunMakes(w, calls, n, attempts, h, c, b) && Brings(w.waits(c, b), b, w.myIp, o)
  }

  /**
   What a run with a timeout shows, exactly: the endings that the waits it makes bring
   about. The addresses are from the replies, the stars from silence; an exception, a loop
   without end, and an exit after a probe each from a wait that causes it.
   */
  lemma RunShowsIff(w: World, calls: nat, n: nat, attempts: nat, h: nat, o: Ending)
    requires w.Valid() && (o == Silence ==> w.ms > 0) && o != Judged(Ok(Ignored))
    ensures RunShows(RunTrace(w, calls, n, attempts, h), n, attempts, o) <==> Brought(w, calls, n, attempts, h, o)
  {
    hide RunShows, RunTrace, RunMakes, Brings;
    if RunShows(RunTrace(w, calls, n, attempts, h), n, attempts, o) {
      var c, b := RunBrought(w, calls, n, attempts, h, o);
    }
    if Brought(w, calls, n, attempts, h, o) {
      var c: nat, b: int :| RunMakes(w, calls, n, attempts, h, c, b) && Brings(w.waits(c, b), b, w.myIp, o);
      RunBringingShown(w, calls, n, attempts, h, o, c, b);
    }
  }

  /** An exit without a probe for the last attempt comes from a write that failed. */
  lemma {:induction false} HopExits(w: World, calls: nat, n: nat, a: nat)
    requires w.Valid()
    ensures var t := HopTrace(w, calls, n, a);
            && (!t.flow.Normal? && t.probes == n + |t.printed| ==> t.flow == Exited && w.writes(t.probes) <= 0)
            && (forall i :: n <= i < t.probes ==> w.writes(i) > 0)
    decreases a
  {
    hide Awaited;
    if a > 0 {
      HopExits(w, calls, n, a - 1);
    }
  }

  /** The writes of a run: all that sent a probe succeeded; a run exits without one only if the next one failed. */
  lemma {:induction false} RunExits(w: World, calls: nat, n: nat, attempts: nat, h: nat)
    requires w.Valid()
    ensures var t := RunTrace(w, calls, n, attempts, h);
            && (!t.flow.Normal? && t.probes == n + Shown(t.printed, attempts) ==>
                  t.flow == Exited && w.writes(t.probes) <= 0)
            && (forall i :: n <= i < t.probes ==> w.writes(i) > 0)
    decreases h
  {
    hide HopTrace, Arrived, HasHost, Shown;
    if h > 0 {
      RunExits(w, calls, n, attempts, h - 1);
      RunShape(w, calls, n, attempts, h - 1);
      var t := RunTrace(w, calls, n, attempts, h - 1);
      HopExits(w, t.calls, t.probes, attempts);
      if t.flow.Normal? {
        ShownAppended(t.printed, HopTrace(w, t.calls, t.probes, attempts).printed, attempts);
      }
    }
  }

  /** The first wait of every attempt that sends its probe has all of the timeout, in nanoseconds. */
  lemma {:induction false} FirstWait(w: World, calls: nat, n: nat, attempts: nat, h: nat, i: nat, j: nat)
    requires w.Valid() && w.ms > 0 && i < h && j < attempts
    requires var t := RunTrace(w, calls, n, attempts, i); t.flow.Normal? && !Arrived(t.printed)
    requires var t := RunTrace(w, calls, n, attempts, i);
             var u := HopTrace(w, t.calls, t.probes, j); u.flow.Normal? && w.writes(u.probes) > 0
    ensures var t := RunTrace(w, calls, n, attempts, i);
            var u := HopTrace(w, t.calls, t.probes, j);
            RunMakes(w, calls, n, attempts, h, u.calls, 1_000_000 * w.ms)
    decreases h
  {
    hide RunTrace, HopTrace, Arrived, HopMakes;
    if i < h - 1 {
      FirstWait(w, calls, n, attempts, h - 1, i, j);
    } else {
      var t := RunTrace(w, calls, n, attempts, i);
      HopFirstWait(w, t.calls, t.probes, attempts, j);
    }
  }

  lemma {:induction false} HopFirstWait(w: World, calls: nat, n: nat, a: nat, j: nat)
    requires w.Valid() && w.ms > 0 && j < a
    requires var u := HopTrace(w, calls, n, j); u.flow.Normal? && w.writes(u.probes) > 0
    ensures HopMakes(w, calls, n, a, HopTrace(w, calls, n, j).calls, 1_000_000 * w.ms)
    decreases a
  {
    hide HopTrace;
    if j < a - 1 {
      HopFirstWait(w, calls, n, a - 1, j);
    } else {
      AttemptFirstWait(w, HopTrace(w, calls, n, j).calls);
    }
  }

  lemma AttemptFirstWait(w: World, calls: nat)
    requires w.Valid() && w.ms > 0
    ensures AttemptMakes(w, calls, w.ms, calls, 1_000_000 * w.ms)
  {
    PunctualRead(w.waits, calls, w.ms * NANOS_PER_MILLI, false);
    assert MakesWait(w.waits, calls, w.ms * NANOS_PER_MILLI, false, calls, 1_000_000 * w.ms);
  }

  // ---- In terms of the packets --------------------------------------------------------------

  /** A packet to us on which the header walk never ends. */
  ghost predicate EndlessPacket(b: seq<byte>, myIp: seq<byte>) {
    |b| >= IPV6_HEADER && b[0] == VERSION_IPV6 && b[24..40] == myIp && !Halts(b)
  }

  lemma NoAnswerIff(b: seq<byte>, myIp: seq<byte>)
    ensures Judge(b, myIp) == Ok(NoAnswer) <==> EndlessPacket(b, myIp)
  {
    hide JudgeMessage, EndOfWalk, Halts;
    HaltsIff(b);
    if EndOfWalk(b).Some? && EndOfWalk(b).value.At? {
      MessageAnswered(b, EndOfWalk(b).value.pos + EndOfWalk(b).value.skip);
    }
  }

  /** A packet that is answered with this address: a genuine reply, or one the header walk misreads. */
  predicate ReplyPacket(b: seq<byte>, myIp: seq<byte>, source: seq<byte>) {
    || (GenuineReply(b, myIp) && source == b[8..24])
    || (MisreadReply(b, myIp) && Judge(b, myIp) == Ok(Reply(source)))
  }

  lemma ReplyIff(b: seq<byte>, myIp: seq<byte>, source: seq<byte>)
    ensures Judge(b, myIp) == Ok(Reply(source)) <==> ReplyPacket(b, myIp, source)
  {
    hide Judge, GenuineReply, MisreadReply;
    AnswersIff(b, myIp);
    GenuineIsLong(b, myIp);
  }

  lemma GenuineIsLong(b: seq<byte>, myIp: seq<byte>)
    ensures GenuineReply(b, myIp) ==> |b| >= IPV6_HEADER
  {
  }

  datatype Kind = Throws | NeverEnds | Answers(source: seq<byte>)

  /** A wait delivers a packet of this kind. */
  ghost predicate Carries(w: Wait, myIp: seq<byte>, kind: Kind) {
    && w.selected.Ready? && w.delivery.Data? && w.delivery.octets != []
    && match kind
       case Throws => ThrowingPacket(w.delivery.octets, myIp)
       case NeverEnds => EndlessPacket(w.delivery.octets, myIp)
       case Answers(source) => ReplyPacket(w.delivery.octets, myIp, source)
  }

  /** One of the waits that a run makes delivers a packet of this kind. */
  ghost predicate Carried(w: World, calls: nat, n: nat, attempts: nat, h: nat, kind: Kind)
    requires w.Valid()
  {
    exists c: nat, b: int :: RunMakes(w, calls, n, attempts, h, c, b) && Carries(w.waits(c, b), w.myIp, kind)
  }

  lemma CarriesIff(w: Wait, b: int, myIp: seq<byte>)
    ensures Carries(w, myIp, Throws) <==> exists e :: Brings(w, b, myIp, Judged(Thrown(e)))
    ensures Carries(w, myIp, NeverEnds) <==> Brings(w, b, myIp, Judged(Ok(NoAnswer)))
    ensures forall source :: Carries(w, myIp, Answers(source)) <==> Brings(w, b, myIp, Judged(Ok(Reply(source))))
  {
    hide Judge, ThrowingPacket, EndlessPacket, ReplyPacket;
    if w.delivery.Data? {
      var p := w.delivery.octets;
      ThrowsIff(p, myIp);
      NoAnswerIff(p, myIp);
      forall source
        ensures Judge(p, myIp) == Ok(Reply(source)) <==> ReplyPacket(p, myIp, source)
      {
        ReplyIff(p, myIp, source);
      }
      if Judge(p, myIp).Thrown? {
        assert Brings(w, b, myIp, Judged(Thrown(Judge(p, myIp).exception))) <==> w.selected.Ready? && p != [];
      }
    }
  }

  /** A run ends with an exception if and only if one of the waits it makes delivers a packet that throws. */
  lemma RunThrowsIff(w: World, calls: nat, n: nat, attempts: nat, h: nat)
    requires w.Valid()
    ensures RunTrace(w, calls, n, attempts, h).flow.Uncaught? <==> Carried(w, calls, n, attempts, h, Throws)
  {
    hide RunTrace, RunMakes, Brings, Carries;
    var t := RunTrace(w, calls, n, attempts, h);
    if t.flow.Uncaught? {
      var c, b := RunBrought(w, calls, n, attempts, h, Judged(Thrown(t.flow.exception)));
      CarriesIff(w.waits(c, b), b, w.myIp);
    }
    if Carried(w, calls, n, attempts, h, Throws) {
      var c: nat, b: int :| RunMakes(w, calls, n, attempts, h, c, b) && Carries(w.waits(c, b), w.myIp, Throws);
      CarriesIff(w.waits(c, b), b, w.myIp);
      var e :| Brings(w.waits(c, b), b, w.myIp, Judged(Thrown(e)));
      RunBringingShown(w, calls, n, attempts, h, Judged(Thrown(e)), c, b);
    }
  }

  /** It never ends if and only if one of them delivers a packet on which the header walk never ends. */
  lemma RunEndlessIff(w: World, calls: nat, n: nat, attempts: nat, h: nat)
    requires w.Valid()
    ensures RunTrace(w, calls, n, attempts, h).flow.Endless? <==> Carried(w, calls, n, attempts, h, NeverEnds)
  {
    hide RunTrace, RunMakes, Brings, Carries;
    RunShowsIff(w, calls, n, attempts, h, Judged(Ok(NoAnswer)));
    forall c: nat, b: int
      ensures Carries(w.waits(c, b), w.myIp, NeverEnds) <==> Brings(w.waits(c, b), b, w.myIp, Judged(Ok(NoAnswer)))
    {
      CarriesIff(w.waits(c, b), b, w.myIp);
    }
  }

  /**
   An address is printed if and only if one of the waits that the run makes delivers a
   genuine reply from it, or a packet that the header walk misreads as one.
   */
  lemma PrintedHostReplied(w: World, calls: nat, n: nat, attempts: nat, h: nat, source: seq<byte>)
    requires w.Valid()
    ensures var rows := RunTrace(w, calls, n, attempts, h).printed;
            InSome(Host(source), rows) <==> Carried(w, calls, n, attempts, h, Answers(source))
  {
    hide RunTrace, RunMakes, Brings, Carries;
    RunShowsIff(w, calls, n, attempts, h, Judged(Ok(Reply(source))));
    forall c: nat, b: int
      ensures Carries(w.waits(c, b), w.myIp, Answers(source))
              <==> Brings(w.waits(c, b), b, w.myIp, Judged(Ok(Reply(source))))
    {
      CarriesIff(w.waits(c, b), b, w.myIp);
    }
  }
}
