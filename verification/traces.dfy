/** Runs of the three tasks: any interleaving of their iterations, as a
    sequence of events applied one after another to the shared state. */
module Traces {
  import opened Wrappers
  import opened AllowList
  import opened Steps

  /** One iteration of one task, with the inputs the environment chose. */
  datatype Event =
    | MonitorTick(associated: Option<Ssid>, allocOk: bool)
    | ValidatorTick(lockAcquired: bool)
    | SupervisorTick

  /** What that iteration produced. */
  datatype Report =
    | MonitorReport(outcome: MonitorOutcome)
    | ValidatorReport(verdict: Verdict)
    | SupervisorReport(refresh: bool)

  /** The report comes from the task the event belongs to. */
  predicate Answers(e: Event, rep: Report) {
    (e.MonitorTick? <==> rep.MonitorReport?) &&
    (e.ValidatorTick? <==> rep.ValidatorReport?) &&
    (e.SupervisorTick? <==> rep.SupervisorReport?)
  }

  /** Runs the iteration an event stands for. */
  function Step(s: State, e: Event): (r: (State, Report))
    ensures Answers(e, r.1)
    ensures s.Valid() ==> r.0.Valid()
  {
    match e
    case MonitorTick(associated, allocOk) =>
      var (t, o) := MonitorNext(s, associated, allocOk); (t, MonitorReport(o))
    case ValidatorTick(lockAcquired) =>
      var (t, v) := ValidatorNext(s, lockAcquired); (t, ValidatorReport(v))
    case SupervisorTick =>
      var (t, b) := SupervisorNext(s); (t, SupervisorReport(b))
  }

  /** The final state and the reports of a run, one report per event. */
  function Run(s: State, es: seq<Event>): (r: (State, seq<Report>))
    ensures |r.1| == |es|
    ensures forall i | 0 <= i < |es| :: Answers(es[i], r.1[i])
    // the queue stays within its capacity under every interleaving
    ensures s.Valid() ==> r.0.Valid()
    decreases |es|
  {
    if es == [] then (s, [])
    else
      var (t, reps) := Run(s, es[..|es| - 1]);
      var (u, rep) := Step(t, es[|es| - 1]);
      (u, reps + [rep])
  }

  /** Unfolding a run by its last event. */
  lemma RunSnoc(s: State, es: seq<Event>, e: Event)
    ensures Run(s, es + [e]).0 == Step(Run(s, es).0, e).0
    ensures Run(s, es + [e]).1 == Run(s, es).1 + [Step(Run(s, es).0, e).1]
  {
    assert (es + [e])[..|es|] == es;
  }

  /** A run of `es1 + es2` is the run of `es1` followed by the run of
      `es2` from the state `es1` left: the final state is the second run's
      and the reports are those of both runs, in order. */
  lemma {:induction false} RunAppend(s: State, es1: seq<Event>, es2: seq<Event>)
    ensures Run(s, es1 + es2).0 == Run(Run(s, es1).0, es2).0
    ensures Run(s, es1 + es2).1 == Run(s, es1).1 + Run(Run(s, es1).0, es2).1
    decreases |es2|
  {
    if es2 == [] {
      assert es1 + es2 == es1;
    } else {
      var p, e := es2[..|es2| - 1], es2[|es2| - 1];
      assert es2 == p + [e];
      assert es1 + es2 == (es1 + p) + [e];
      RunAppend(s, es1, p);
      RunSnoc(s, es1 + p, e);
      RunSnoc(Run(s, es1).0, p, e);
    }
  }

  /** The SSID a report shows entering the queue, if any. */
  function SentBy(rep: Report): seq<Ssid> {
    if rep.MonitorReport? && rep.outcome.Sent? then [rep.outcome.ssid] else []
  }

  /** The SSID a report shows leaving the queue, if any. */
  function ReceivedBy(rep: Report): seq<Ssid> {
    if rep.ValidatorReport? && rep.verdict.Classified? then [rep.verdict.ssid] else []
  }

  /** The SSIDs a run put into the queue, in the order they were sent. */
  function Enqueued(reps: seq<Report>): seq<Ssid>
    decreases |reps|
  {
    if reps == [] then [] else Enqueued(reps[..|reps| - 1]) + SentBy(reps[|reps| - 1])
  }

  /** The SSIDs the validator received during a run, in receipt order. */
  function Delivered(reps: seq<Report>): seq<Ssid>
    decreases |reps|
  {
    if reps == [] then [] else Delivered(reps[..|reps| - 1]) + ReceivedBy(reps[|reps| - 1])
  }

  /** One iteration moves at most one SSID into or out of the queue: what
      it took from the front followed by the new queue is the old queue
      followed by what it appended. */
  lemma StepIsFifo(t: State, e: Event)
    ensures ReceivedBy(Step(t, e).1) + Step(t, e).0.queue == t.queue + SentBy(Step(t, e).1)
  {
  }

  /** Appending a report appends what it sent and what it received. */
  lemma LogsSnoc(reps: seq<Report>, rep: Report)
    ensures Enqueued(reps + [rep]) == Enqueued(reps) + SentBy(rep)
    ensures Delivered(reps + [rep]) == Delivered(reps) + ReceivedBy(rep)
  {
    assert (reps + [rep])[..|reps|] == reps;
  }

  /** The bookkeeping step of the FIFO proof, on plain sequences. */
  lemma Rearrange<T>(delivered: seq<T>, received: seq<T>, after: seq<T>,
                     before: seq<T>, initial: seq<T>, enqueued: seq<T>, sent: seq<T>)
    requires delivered + before == initial + enqueued
    requires received + after == before + sent
    ensures (delivered + received) + after == initial + (enqueued + sent)
  {
    calc {
      (delivered + received) + after;
      delivered + (received + after);
      delivered + (before + sent);
      (delivered + before) + sent;
      (initial + enqueued) + sent;
    }
  }

  /** FIFO hand-off without loss inside the queue: what the validator
      received, followed by what is still queued, is exactly what was
      queued at the start followed by what the monitor sent, in order. */
  lemma {:induction false} RunIsFifo(s: State, es: seq<Event>)
    ensures Delivered(Run(s, es).1) + Run(s, es).0.queue == s.queue + Enqueued(Run(s, es).1)
    decreases |es|
  {
    if es != [] {
      var p, e := es[..|es| - 1], es[|es| - 1];
      assert es == p + [e];
      RunIsFifo(s, p);
      var before := Run(s, p);
      var step := Step(before.0, e);
      RunSnoc(s, p, e);
      StepIsFifo(before.0, e);
      LogsSnoc(before.1, step.1);
      Rearrange(Delivered(before.1), ReceivedBy(step.1), step.0.queue,
                before.0.queue, s.queue, Enqueued(before.1), SentBy(step.1));
    }
  }

  /** From an empty queue, the validator receives a prefix of the samples
      the monitor sent, in the order they were sent; the rest are still
      queued. */
  lemma DeliveredInSendOrder(s: State, es: seq<Event>)
    requires s.queue == []
    ensures Delivered(Run(s, es).1) <= Enqueued(Run(s, es).1)
    ensures Enqueued(Run(s, es).1) == Delivered(Run(s, es).1) + Run(s, es).0.queue
  {
    RunIsFifo(s, es);
  }

  /** No supervisor iteration happens in the run. */
  predicate NoSupervision(es: seq<Event>) {
    forall i | 0 <= i < |es| :: !es[i].SupervisorTick?
  }

  /** Some monitor iteration of the run set `task_monitor_ok`. */
  predicate MonitorReported(reps: seq<Report>) {
    exists i | 0 <= i < |reps| :: reps[i].MonitorReport? && SetsMonitorFlag(reps[i].outcome)
  }

  /** Some validator iteration ran (every branch of it sets its flag). */
  predicate ValidatorRan(es: seq<Event>) {
    exists i | 0 <= i < |es| :: es[i].ValidatorTick?
  }

  /** Appending a report or an event extends the progress evidence by
      what that one report or event shows. */
  lemma ProgressSnoc(reps: seq<Report>, rep: Report, es: seq<Event>, e: Event)
    ensures MonitorReported(reps + [rep]) ==
            (MonitorReported(reps) || (rep.MonitorReport? && SetsMonitorFlag(rep.outcome)))
    ensures ValidatorRan(es + [e]) == (ValidatorRan(es) || e.ValidatorTick?)
    ensures NoSupervision(es + [e]) == (NoSupervision(es) && !e.SupervisorTick?)
  {
    var all, more := reps + [rep], es + [e];
    assert all[|reps|] == rep && more[|es|] == e;
    assert forall i | 0 <= i < |reps| :: all[i] == reps[i];
    assert forall i | 0 <= i < |es| :: more[i] == es[i];
  }

  /** Between two supervisor iterations each flag is up exactly when it was
      up at the start or its task reported progress since. */
  lemma {:induction false} FlagsRecordProgress(s: State, es: seq<Event>)
    requires NoSupervision(es)
    ensures Run(s, es).0.monitorOk == (s.monitorOk || MonitorReported(Run(s, es).1))
    ensures Run(s, es).0.validatorOk == (s.validatorOk || ValidatorRan(es))
    decreases |es|
  {
    if es != [] {
      var p, e := es[..|es| - 1], es[|es| - 1];
      assert es == p + [e];
      var before := Run(s, p);
      var step := Step(before.0, e);
      ProgressSnoc(before.1, step.1, p, e);
      FlagsRecordProgress(s, p);
      RunSnoc(s, p, e);
    }
  }

  /** The supervisor's decision at the end of a supervision period: the
      watchdog is fed exactly when, since the previous supervisor
      iteration, the monitor set its flag and the validator ran. Both flags
      are down afterwards and the queue is as the period left it. */
  lemma RefreshIffBothReported(previous: State, es: seq<Event>)
    requires NoSupervision(es)
    ensures var start := SupervisorNext(previous).0;
            var r := Run(start, es + [SupervisorTick]);
            r.1[|es|] == SupervisorReport(MonitorReported(Run(start, es).1) && ValidatorRan(es)) &&
            !r.0.monitorOk && !r.0.validatorOk &&
            r.0.queue == Run(start, es).0.queue
  {
    var start := SupervisorNext(previous).0;
    FlagsRecordProgress(start, es);
    RunSnoc(start, es, SupervisorTick);
  }

  /** The same decision for the period that follows any earlier history
      ending in a supervisor iteration, read off the reports of the whole
      run: the report of the period's closing supervisor iteration is a
      refresh exactly when the monitor set its flag and the validator ran
      within the period. */
  lemma RefreshInLongerRun(s: State, history: seq<Event>, es: seq<Event>)
    requires NoSupervision(es)
    ensures var before := history + [SupervisorTick];
            var start := Run(s, before).0;
            Run(s, before + es + [SupervisorTick]).1[|before| + |es|] ==
              SupervisorReport(MonitorReported(Run(start, es).1) && ValidatorRan(es))
  {
    var before := history + [SupervisorTick];
    RunSnoc(s, history, SupervisorTick);
    var previous := Run(s, history).0;
    RefreshIffBothReported(previous, es);
    assert before + es + [SupervisorTick] == before + (es + [SupervisorTick]);
    RunAppend(s, before, es + [SupervisorTick]);
  }

  /** A period in which the validator never ran withholds the refresh,
      whatever the monitor did. */
  lemma SilentValidatorWithholdsRefresh(previous: State, es: seq<Event>)
    requires NoSupervision(es)
    requires forall i | 0 <= i < |es| :: !es[i].ValidatorTick?
    ensures Run(SupervisorNext(previous).0, es + [SupervisorTick]).1[|es|] == SupervisorReport(false)
  {
    RefreshIffBothReported(previous, es);
  }

  /** A burst of monitor iterations, each associated to the given SSID and
      each with its buffer allocated. */
  function Burst(xs: seq<Ssid>): (es: seq<Event>)
    ensures |es| == |xs|
    decreases |xs|
  {
    if xs == [] then [] else Burst(xs[..|xs| - 1]) + [MonitorTick(Some(xs[|xs| - 1]), true)]
  }

  /** What a burst `xs` from `s` leaves behind with the validator stalled,
      given the final state and the SSIDs the run queued: the oldest samples
      fill the free slots in arrival order and every later one is dropped.
      The monitor flag is up exactly when it was or at least one sample was
      accepted; the validator flag is untouched. */
  predicate BurstOutcome(s: State, xs: seq<Ssid>, final: State, queued: seq<Ssid>)
    requires s.Valid()
  {
    var kept := Kept(|xs|, QueueCapacity - |s.queue|);
    final == s.(queue := s.queue + xs[..kept], monitorOk := s.monitorOk || kept > 0) &&
    queued == xs[..kept]
  }

  /** How many samples of a burst of `n` fit into `room` free slots. */
  function Kept(n: nat, room: int): int {
    if n <= room then n else room
  }

  /** Every burst, of any length, behaves as `BurstOutcome` describes, so
      the queue never grows past its capacity whatever the input rate. */
  lemma {:induction false} BurstKeepsOldest(s: State, xs: seq<Ssid>)
    requires s.Valid()
    ensures BurstOutcome(s, xs, Run(s, Burst(xs)).0, Enqueued(Run(s, Burst(xs)).1))
    decreases |xs|
  {
    if xs != [] {
      var p, x := xs[..|xs| - 1], xs[|xs| - 1];
      assert xs == p + [x];
      BurstKeepsOldest(s, p);
      BurstSnoc(s, p, x);
      var before, after := Run(s, Burst(p)), Run(s, Burst(xs));
      BurstOneMore(s, p, x, before.0, Enqueued(before.1), after.0, Enqueued(after.1));
    }
  }

  /** The inductive step of `BurstKeepsOldest`, on the states alone. */
  lemma BurstOneMore(s: State, p: seq<Ssid>, x: Ssid,
                     before: State, queuedBefore: seq<Ssid>, after: State, queuedAfter: seq<Ssid>)
    requires s.Valid()
    requires BurstOutcome(s, p, before, queuedBefore)
    requires var free := |before.queue| < QueueCapacity;
             after == (if free then before.(queue := before.queue + [x], monitorOk := true) else before) &&
             queuedAfter == queuedBefore + (if free then [x] else [])
    ensures BurstOutcome(s, p + [x], after, queuedAfter)
  {
    var room := QueueCapacity - |s.queue|;
    var xs := p + [x];
    if |p| < room {
      assert p[..Kept(|p|, room)] == p;
      assert xs[..Kept(|xs|, room)] == xs;
      assert (s.queue + p) + [x] == s.queue + xs;
    } else {
      assert xs[..Kept(|xs|, room)] == p[..Kept(|p|, room)];
    }
  }

  /** The last sample of a burst is appended when a slot is free and
      dropped otherwise, with nothing else changing. */
  lemma BurstSnoc(s: State, p: seq<Ssid>, x: Ssid)
    ensures var before := Run(s, Burst(p));
            var after := Run(s, Burst(p + [x]));
            var free := |before.0.queue| < QueueCapacity;
            after.0 == (if free then before.0.(queue := before.0.queue + [x], monitorOk := true) else before.0) &&
            Enqueued(after.1) == Enqueued(before.1) + (if free then [x] else [])
  {
    var tick := MonitorTick(Some(x), true);
    assert (p + [x])[..|p|] == p;
    assert Burst(p + [x]) == Burst(p) + [tick];
    RunSnoc(s, Burst(p), tick);
    var before := Run(s, Burst(p));
    LogsSnoc(before.1, Step(before.0, tick).1);
  }

  /** Six rapid samples into an empty queue with a stalled validator:
      exactly the first five are queued, in order, the sixth is dropped,
      and the monitor flag is up. */
  lemma SixRapidSamples(a: Ssid, b: Ssid, c: Ssid, d: Ssid, e: Ssid, f: Ssid)
    ensures var r := Run(Initial, Burst([a, b, c, d, e, f]));
            r.0 == State([a, b, c, d, e], true, false) &&
            Enqueued(r.1) == [a, b, c, d, e]
  {
    BurstKeepsOldest(Initial, [a, b, c, d, e, f]);
    assert [a, b, c, d, e, f][..5] == [a, b, c, d, e];
  }

  /** A listed network is confirmed and an unlisted one raises the alert,
      when the validator takes the allow-list mutex. */
  lemma ConfirmAndAlert(rest: seq<Ssid>)
    ensures ValidatorNext(State(["Laboratorio_Dev"] + rest, true, false), true).1
              == Classified("Laboratorio_Dev", true)
    ensures ValidatorNext(State(["Guest-Net"] + rest, true, false), true).1
              == Classified("Guest-Net", false)
  {
    ExactMatchOnly();
    assert !Listed(SafeNetworks, "Guest-Net") by {
      forall i | 0 <= i < |SafeNetworks| ensures SafeNetworks[i] != "Guest-Net" {
        assert SafeNetworks[i][0] != 'G';
      }
    }
  }
}
