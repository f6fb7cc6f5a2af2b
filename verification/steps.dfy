/** One iteration of each of the three task loops, as a pure function from
    the shared state before the iteration to the shared state after it. */
module Steps {
  import opened Wrappers
  import opened AllowList

  /** `TAMANHO_FILA`: capacity of the SSID hand-off queue `filaSSID`. */
  const QueueCapacity: nat := 5

  /** The state the three tasks share: the queue contents, oldest first,
      and the liveness flags `task_monitor_ok` and `task_validator_ok`. */
  datatype State = State(queue: seq<Ssid>, monitorOk: bool, validatorOk: bool)
  {
    /** The queue never holds more than its capacity. */
    predicate Valid() {
      |queue| <= QueueCapacity
    }
  }

  /** Empty queue, both flags down, as at start-up. */
  const Initial: State := State([], false, false)

  /** Which branch a monitor iteration took. */
  datatype MonitorOutcome =
    | NotAssociated
    | AllocationFailed(ssid: Ssid)
    | Sent(ssid: Ssid)
    | Dropped(ssid: Ssid)

  /** What a validator iteration decided: nothing arrived before the
      receive timeout, or a received SSID was classified. */
  datatype Verdict = Idle | Classified(ssid: Ssid, authorized: bool)

  /** A monitor iteration that set `task_monitor_ok`. */
  predicate SetsMonitorFlag(o: MonitorOutcome) {
    o.NotAssociated? || o.Sent?
  }

  /** Monitor iteration: `associated` is the SSID of the access point the
      station is joined to, if any; `allocOk` is whether the copy buffer
      could be allocated. The send never waits. */
  function MonitorNext(s: State, associated: Option<Ssid>, allocOk: bool): (r: (State, MonitorOutcome))
    ensures s.Valid() ==> r.0.Valid()
    ensures r.0.validatorOk == s.validatorOk
    // not associated: queue untouched, the task reports itself alive
    ensures associated.None? ==> r.0 == s.(monitorOk := true) && r.1 == NotAssociated
    // associated, buffer and a free slot: appended at the back, flag set
    ensures associated.Some? && allocOk && |s.queue| < QueueCapacity ==>
      r.0.queue == s.queue + [associated.value] && |r.0.queue| == |s.queue| + 1 &&
      r.0.monitorOk && r.1 == Sent(associated.value)
    // associated but no buffer, or a full queue: nothing at all changes
    ensures associated.Some? && (!allocOk || QueueCapacity <= |s.queue|) ==> r.0 == s
    ensures associated.Some? && allocOk && QueueCapacity <= |s.queue| ==> r.1 == Dropped(associated.value)
    ensures associated.Some? && !allocOk ==> r.1 == AllocationFailed(associated.value)
    ensures r.0.monitorOk == (s.monitorOk || SetsMonitorFlag(r.1))
  {
    match associated
    case None => (s.(monitorOk := true), NotAssociated)
    case Some(ssid) =>
      if !allocOk then (s, AllocationFailed(ssid))
      else if |s.queue| < QueueCapacity then (s.(queue := s.queue + [ssid], monitorOk := true), Sent(ssid))
      else (s, Dropped(ssid))
  }

  /** Validator iteration: the receive succeeds exactly when an SSID is
      waiting; `lockAcquired` is whether the allow-list mutex was taken
      before its timeout. */
  function ValidatorNext(s: State, lockAcquired: bool): (r: (State, Verdict))
    ensures s.Valid() ==> r.0.Valid()
    ensures r.0.validatorOk && r.0.monitorOk == s.monitorOk
    // receive timeout: nothing to classify, queue untouched
    ensures s.queue == [] <==> r.1 == Idle
    ensures s.queue == [] ==> r.0.queue == s.queue
    // receipt: exactly the oldest SSID leaves the queue and is classified
    ensures r.1.Classified? ==> [r.1.ssid] + r.0.queue == s.queue
    ensures r.1.Classified? ==>
      (r.1.authorized <==> lockAcquired && Listed(SafeNetworks, r.1.ssid))
    // fail-closed when the mutex is not taken
    ensures !lockAcquired && r.1.Classified? ==> !r.1.authorized
  {
    if s.queue == [] then (s.(validatorOk := true), Idle)
    else
      var ssid := s.queue[0];
      (s.(queue := s.queue[1..], validatorOk := true),
       Classified(ssid, lockAcquired && Listed(SafeNetworks, ssid)))
  }

  /** Supervisor iteration: `refresh` is whether the watchdog is fed. */
  function SupervisorNext(s: State): (r: (State, bool))
    ensures r.1 <==> s.monitorOk && s.validatorOk
    ensures !r.0.monitorOk && !r.0.validatorOk
    ensures r.0.queue == s.queue
  {
    (s.(monitorOk := false, validatorOk := false), s.monitorOk && s.validatorOk)
  }
}
