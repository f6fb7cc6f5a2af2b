/** The shared globals of the program and the bodies of the three task
    loops, one iteration per method call. Interleavings of the tasks are
    arbitrary sequences of these calls. */
module Tasks {
  import opened Wrappers
  import opened AllowList
  import opened Steps
  import opened Traces

  /** The queue `filaSSID` and the flags `task_monitor_ok` and
      `task_validator_ok`. The queue holds the SSIDs themselves: a send
      moves a sample into it and a receive moves the oldest one out. */
  class SharedState {
    var queue: seq<Ssid>
    var monitorOk: bool
    var validatorOk: bool

    /** The queue holds at most `TAMANHO_FILA` SSIDs. */
    ghost predicate Valid()
      reads this
    {
      Snapshot().Valid()
    }

    /** The shared state as a value. */
    function Snapshot(): State
      reads this
    {
      State(queue, monitorOk, validatorOk)
    }

    /** The queue is created empty and both flags start down. */
    constructor ()
      ensures Valid() && Snapshot() == Initial
    {
      queue, monitorOk, validatorOk := [], false, false;
    }

    /** Non-blocking `xQueueSend`: succeeds and appends exactly when a slot
        is free. */
    method Send(ssid: Ssid) returns (ok: bool)
      requires Valid()
      modifies this`queue
      ensures Valid()
      ensures ok <==> |old(queue)| < QueueCapacity
      ensures queue == if ok then old(queue) + [ssid] else old(queue)
    {
      ok := |queue| < QueueCapacity;
      if ok {
        queue := queue + [ssid];
      }
    }

    /** `xQueueReceive`: takes the oldest SSID if one is waiting, otherwise
        times out and leaves the queue as it is. */
    method Receive() returns (item: Option<Ssid>)
      requires Valid()
      modifies this`queue
      ensures Valid()
      ensures item.None? <==> old(queue) == []
      ensures item.None? ==> queue == old(queue)
      ensures item.Some? ==> [item.value] + queue == old(queue)
    {
      if queue == [] {
        item := None;
      } else {
        item := Some(queue[0]);
        queue := queue[1..];
      }
    }

    /** One iteration of `TaskWifiMonitor`. */
    method MonitorStep(associated: Option<Ssid>, allocOk: bool) returns (outcome: MonitorOutcome)
      requires Valid()
      modifies this`queue, this`monitorOk
      ensures Valid()
      ensures (Snapshot(), outcome) == MonitorNext(old(Snapshot()), associated, allocOk)
    {
      match associated {
        case None =>
          monitorOk := true;
          outcome := NotAssociated;
        case Some(ssid) =>
          if !allocOk {
            // skip the rest of the iteration: no flag
            outcome := AllocationFailed(ssid);
          } else {
            var ok := Send(ssid);
            if ok {
              monitorOk := true;
              outcome := Sent(ssid);
            } else {
              // the copy is freed; the flag is left as it was
              outcome := Dropped(ssid);
            }
          }
      }
    }

    /** One iteration of `TaskWifiValidator`. */
    method ValidatorStep(lockAcquired: bool) returns (verdict: Verdict)
      requires Valid()
      modifies this`queue, this`validatorOk
      ensures Valid()
      ensures (Snapshot(), verdict) == ValidatorNext(old(Snapshot()), lockAcquired)
    {
      var item := Receive();
      match item {
        case None =>
          verdict := Idle;
        case Some(ssid) =>
          var safe := false;
          if lockAcquired {
            ghost var compared;
            CountCoversList();
            safe, compared := Scan(SafeNetworks, NumSafeNetworks, ssid);
          } else {
            safe := false;
          }
          verdict := Classified(ssid, safe);
      }
      validatorOk := true;
    }

    /** One iteration of `TaskSupervisor`; `refresh` is whether the
        watchdog is fed in this iteration. */
    method SupervisorStep() returns (refresh: bool)
      requires Valid()
      modifies this`monitorOk, this`validatorOk
      ensures Valid()
      ensures (Snapshot(), refresh) == SupervisorNext(old(Snapshot()))
    {
      refresh := monitorOk && validatorOk;
      monitorOk := false;
      validatorOk := false;
    }

    /** The three tasks interleaved as `es` says, one iteration per event:
        the state reached and the reports are those of the run. */
    method Execute(es: seq<Event>) returns (reps: seq<Report>)
      requires Valid()
      modifies this`queue, this`monitorOk, this`validatorOk
      ensures Valid()
      ensures (Snapshot(), reps) == Run(old(Snapshot()), es)
    {
      ghost var start := Snapshot();
      reps := [];
      for i := 0 to |es|
        invariant Valid()
        invariant (Snapshot(), reps) == Run(start, es[..i])
      {
        assert es[..i + 1] == es[..i] + [es[i]];
        RunSnoc(start, es[..i], es[i]);
        var rep: Report;
        match es[i] {
          case MonitorTick(associated, allocOk) =>
            var outcome := MonitorStep(associated, allocOk);
            rep := MonitorReport(outcome);
          case ValidatorTick(lockAcquired) =>
            var verdict := ValidatorStep(lockAcquired);
            rep := ValidatorReport(verdict);
          case SupervisorTick =>
            var refresh := SupervisorStep();
            rep := SupervisorReport(refresh);
        }
        reps := reps + [rep];
      }
      assert es[..|es|] == es;
    }
  }
}
