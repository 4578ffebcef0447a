/** The polling loop of models/continue_read_worker.py. Each pass reads the
    serial model's reader once and emits the value, and then waits out the
    interval in short slices that watch the `running` flag. A missing reader
    or a read that raises emits one error and ends the loop, which never
    retries; `finished` follows on every exit.

    Timing is not modelled. What the device and the controlling thread do is
    an oracle: `ticks[i]` says whether the serial model still holds a reader
    at the `i`-th pass and, if so, what that reader's `read_value` returned or
    raised; `stop_reading` lands during the wait after the last of them (with
    no ticks, before the loop first tests the flag). The 1 ms polling of the
    wait is folded into one step per pass: only whether the flag was lowered
    before the wait ran out matters. Runs in which the stop lands during a pass
    that then ends in an error (the flag already lowered when the error is
    emitted) are not among these schedules. */
module PollWorker {
  import opened Wrappers
  import opened Reader

  datatype WorkerError = DeviceDisconnected | ReadError(fault: Fault)

  /** The signals `dataRead` (timestamp left out), `errorOccurred`, `finished`. */
  datatype Event = DataRead(value: real) | ErrorOccurred(error: WorkerError) | Finished

  datatype Worker = Worker(interval: real, running: bool)

  /** What the `i`-th pass sees: no reader attached, or the outcome of the
      attached reader's `read_value` (see `Reader.ReadValue`). */
  datatype Tick = Detached | Read(outcome: Result<real, Fault>)

  function NewWorker(interval: real): (w: Worker)
    ensures w.interval == interval && !w.running
  {
    Worker(interval, false)
  }

  /** `stop_reading`: clears the flag and nothing else. */
  function StopReading(w: Worker): (w': Worker)
    ensures !w'.running && w'.interval == w.interval
  {
    w.(running := false)
  }

  /** The events of passes `i`, `i + 1`, ... while the flag is up. */
  function Loop(ticks: seq<Tick>, i: nat): seq<Event>
    decreases |ticks| - i
  {
    if i >= |ticks| then []
    else match ticks[i]
      case Detached => [ErrorOccurred(DeviceDisconnected)]
      case Read(Err(f)) => [ErrorOccurred(ReadError(f))]
      case Read(Ok(v)) => [DataRead(v)] + Loop(ticks, i + 1)
  }

  /** Everything one `start_reading` emits. */
  function RunTrace(ticks: seq<Tick>): seq<Event> {
    Loop(ticks, 0) + [Finished]
  }

  /** A trace that ended through an error rather than through `stop_reading`. */
  predicate EndedByError(events: seq<Event>) {
    |events| >= 2 && events[|events| - 2].ErrorOccurred?
  }

  /** A trace that ended because no reader was attached: that pass issued no
      read. */
  predicate EndedDetached(events: seq<Event>) {
    |events| >= 2 && events[|events| - 2] == ErrorOccurred(DeviceDisconnected)
  }

  /** `start_reading`: raises the flag and runs the loop of `run` under one
      schedule, each wait taken as a single step. Returns the worker
      afterwards, the events and how many reads were issued. The flag is left
      raised exactly when an error ended the loop, because in these schedules
      a stop only lands during a wait. */
  method StartReading(w: Worker, ticks: seq<Tick>)
    returns (w': Worker, events: seq<Event>, issued: nat)
    ensures w'.interval == w.interval
    ensures events == RunTrace(ticks)
    ensures issued <= |ticks|
    ensures issued == |events| - (if EndedDetached(events) then 2 else 1)
    ensures w'.running <==> EndedByError(events)
  {
    w' := w.(running := true);
    if |ticks| == 0 {
      w' := StopReading(w');
    }
    events := [];
    issued := 0;
    while w'.running
      invariant issued <= |ticks|
      invariant w'.interval == w.interval
      invariant w'.running <==> issued < |ticks|
      invariant Loop(ticks, 0) == events + Loop(ticks, issued)
      invariant issued == |events|
      invariant forall k :: 0 <= k < |events| ==> events[k].DataRead?
      decreases |ticks| - issued
    {
      var tick := ticks[issued];
      if tick.Detached? {
        var e := ErrorOccurred(DeviceDisconnected);
        assert Loop(ticks, issued) == [e];
        events := events + [e];
        break;
      }
      var outcome := tick.outcome;
      if outcome.Err? {
        var e := ErrorOccurred(ReadError(outcome.error));
        assert Loop(ticks, issued) == [e];
        events := events + [e];
        issued := issued + 1;
        break;
      }
      var e := DataRead(outcome.value);
      assert Loop(ticks, issued) == [e] + Loop(ticks, issued + 1);
      events := events + [e];
      issued := issued + 1;
      if issued == |ticks| {
        // stop_reading lands during the wait; both loops see the flag down
        w' := StopReading(w');
      }
    }
    events := events + [Finished];
  }

  /** The loop never emits `finished` itself, and every event but its last is
      a `dataRead`: an error is always the loop's final event. */
  lemma {:induction false} LoopShape(ticks: seq<Tick>, i: nat)
    ensures forall k :: 0 <= k < |Loop(ticks, i)| ==> !Loop(ticks, i)[k].Finished?
    ensures forall k :: 0 <= k < |Loop(ticks, i)| - 1 ==> Loop(ticks, i)[k].DataRead?
    ensures |Loop(ticks, i)| <= |ticks| - i || (i >= |ticks| && Loop(ticks, i) == [])
    decreases |ticks| - i
  {
    if i < |ticks| && ticks[i].Read? && ticks[i].outcome.Ok? {
      LoopShape(ticks, i + 1);
    }
  }

  /** `finished` is emitted exactly once, as the last event, on every path. */
  lemma FinishedExactlyOnce(ticks: seq<Tick>)
    ensures var e := RunTrace(ticks);
            |e| >= 1 && e[|e| - 1] == Finished
            && forall k :: 0 <= k < |e| - 1 ==> !e[k].Finished?
  {
    LoopShape(ticks, 0);
  }

  /** At most one error is emitted, and only as the event just before
      `finished`. */
  lemma ErrorIsLast(ticks: seq<Tick>)
    ensures var e := RunTrace(ticks);
            forall k :: 0 <= k < |e| - 2 ==> e[k].DataRead?
  {
    LoopShape(ticks, 0);
  }

  /** With no reader attached, the first pass emits one "device disconnected"
      error and the loop ends without reading. */
  lemma DetachedReaderEndsAtOnce(ticks: seq<Tick>)
    requires |ticks| > 0 && ticks[0].Detached?
    ensures RunTrace(ticks) == [ErrorOccurred(DeviceDisconnected), Finished]
  {
  }

  /** A read that raises on pass `n`, after `n` good passes, ends the loop with
      exactly that one error: nothing is retried. */
  lemma {:induction false} FirstFailureEndsLoop(ticks: seq<Tick>, i: nat, n: nat)
    requires i <= n < |ticks|
    requires forall k :: i <= k < n ==> ticks[k].Read? && ticks[k].outcome.Ok?
    requires ticks[n].Read? && ticks[n].outcome.Err?
    ensures var e := Loop(ticks, i);
            |e| == n - i + 1 && e[n - i] == ErrorOccurred(ReadError(ticks[n].outcome.error))
    decreases n - i
  {
    if i < n {
      FirstFailureEndsLoop(ticks, i + 1, n);
    }
  }

  /** Without failures the loop reads once per tick before the stop lands,
      and emits one `dataRead` per read, carrying that read's value. */
  lemma {:induction false} StopAfterGoodReads(ticks: seq<Tick>, i: nat)
    requires i <= |ticks|
    requires forall k :: i <= k < |ticks| ==> ticks[k].Read? && ticks[k].outcome.Ok?
    ensures var e := Loop(ticks, i);
            |e| == |ticks| - i
            && forall k :: 0 <= k < |e| ==> e[k] == DataRead(ticks[i + k].outcome.value)
    decreases |ticks| - i
  {
    if i < |ticks| {
      StopAfterGoodReads(ticks, i + 1);
      var e := Loop(ticks, i);
      var rest := Loop(ticks, i + 1);
      forall k | 0 <= k < |e|
        ensures e[k] == DataRead(ticks[i + k].outcome.value)
      {
        if k > 0 {
          assert e[k] == rest[k - 1];
        }
      }
    }
  }
}
