# Wi-Fi network-compliance monitor: task pipeline model

This project models the core of a FreeRTOS/ESP-IDF firmware (`GS2_STR.c`).
The firmware checks that the station is joined to an authorized Wi-Fi network.
It runs three tasks that share state:

- `TaskWifiMonitor` samples the SSID of the current access point. It hands the
  SSID to the validator through the queue `filaSSID` (capacity `TAMANHO_FILA` = 5)
  with a non-blocking send, and drops the SSID when the queue is full.
- `TaskWifiValidator` takes the oldest SSID from the queue. It classifies it
  against the fixed allow-list `listaRedesSeguras`, using a linear scan under
  the mutex `mutexListaSegura`. If the mutex is not acquired, the SSID is
  classified as unauthorized (fail-closed).
- `TaskSupervisor` feeds the watchdog only when both liveness flags
  (`task_monitor_ok`, `task_validator_ok`) are up. It then clears both flags.

One iteration of a task loop is one atomic step. Any interleaving of the tasks
is an arbitrary sequence of steps.

- `wrappers.dfy`: `Option`.
- `allow_list.dfy` (module `AllowList`): the `Ssid` type, the allow-list, the
  whole-string membership predicate `Listed` and `Scan`. `Scan` is the
  validator's `for` loop with its early `break`, proved equal to `Listed`.
  `Ssid` is a string of at most 32 characters, one character per octet, with
  no NUL. That is the SSID element of section 9.4.2.2 of IEEE 802.11-2016,
  copied with `strcpy` into a 33-byte buffer. For such strings, `strcmp(a, b) == 0` is exactly `a == b`.
- `steps.dfy` (module `Steps`): the shared state as a value. `MonitorNext`,
  `ValidatorNext` and `SupervisorNext` are pure step functions that state
  each branch's effect.
- `tasks.dfy` (module `Tasks`): class `SharedState` holds the queue as a
  `seq<Ssid>` and the two flags as `bool` fields. Its step methods update them
  in place. The postconditions of `MonitorStep`, `ValidatorStep` and
  `SupervisorStep` tie the new state and the result to the matching pure step
  function. `Send` and `Receive` state the new queue in terms of the old one.
  `Execute` runs a whole interleaving and is tied to `Run`.
- `traces.dfy` (module `Traces`): runs are sequences of events, and a run
  splits over concatenated event sequences (`RunAppend`). Over every
  interleaving, the model proves the queue bound, FIFO hand-off, the "refresh
  iff both tasks reported since the last check" rule, and the drop-on-full
  burst behaviour.

Environment inputs become parameters:

- whether the station is associated, and to which SSID (`esp_wifi_sta_get_ap_info`);
- whether `malloc` of the copy buffer succeeded;
- whether the mutex was taken before its timeout.

The watchdog refresh is returned as a `bool`.

The receive is not a free input. An `xQueueReceive` step succeeds exactly when
an SSID is waiting, because the validator is the only consumer. An SSID that
arrives while the validator waits is a monitor step placed just before the
validator step.

On a full-queue drop the monitor does not set `task_monitor_ok`
(`GS2_STR.c:69-72`). Only a successful send or "not associated" sets it, so
the flag records a queued sample or an idle loop, not every iteration.
`MonitorNext`, `BurstKeepsOldest` and `FlagsRecordProgress` state this.

## Model

| member | source | states |
|---|---|---|
| `AllowList.Scan` | GS2_STR.c:93-102 | the loop answers authorized exactly when some of the first `numRedesSeguras` entries equals the SSID as a whole, case-sensitive string; it stops at the first equal entry (all earlier entries differ) and otherwise compares every entry |
| `AllowList.CountCoversList` | GS2_STR.c:27-34 | `numRedesSeguras` is the length of the allow-list, so the scan covers every entry |
| `AllowList.ExactMatchOnly` | GS2_STR.c:98 | an exact listed name is authorized; a case variant, a proper prefix and the network the station is configured to join are not |
| `Steps.MonitorNext` | GS2_STR.c:53-77 | not associated: queue unchanged, monitor flag set; associated, buffer allocated and fewer than 5 queued: SSID appended at the back, length grows by one, flag set; associated with a full queue or a failed allocation: the whole state is unchanged (flag included); the validator flag is never touched; the bound of 5 is preserved |
| `Steps.ValidatorNext` | GS2_STR.c:89-125 | empty queue: receive times out, queue unchanged; otherwise exactly the front SSID is removed and classified authorized iff the mutex was taken and the SSID is listed, unauthorized on mutex timeout; every branch sets the validator flag and leaves the monitor flag |
| `Steps.SupervisorNext` | GS2_STR.c:141-148 | refresh iff both flags are up; afterwards both flags are down and the queue is untouched |
| `Tasks.SharedState.constructor` | GS2_STR.c:42-43 | the queue starts empty and both liveness flags start down |
| `Tasks.SharedState.Send` | GS2_STR.c:66 | non-blocking send succeeds iff fewer than 5 SSIDs are queued, appending at the back; on failure the queue is unchanged |
| `Tasks.SharedState.Receive` | GS2_STR.c:90 | receive yields the front SSID and removes it, or times out exactly when the queue is empty and leaves it unchanged |
| `Tasks.SharedState.MonitorStep` | GS2_STR.c:53-80 | the in-place monitor iteration yields exactly the state and outcome of `MonitorNext`, touching only the queue and the monitor flag |
| `Tasks.SharedState.ValidatorStep` | GS2_STR.c:89-128 | the in-place validator iteration, with its scan loop, yields exactly the state and verdict of `ValidatorNext`, touching only the queue and the validator flag |
| `Tasks.SharedState.SupervisorStep` | GS2_STR.c:134-151 | the in-place supervisor iteration yields exactly the state and decision of `SupervisorNext`, touching only the two flags |
| `Tasks.SharedState.Execute` | GS2_STR.c:192-194 | performing the task iterations in place in the order of any event sequence reaches exactly the state and reports of `Run` over that sequence, and keeps the queue bound |
| `Traces.Step` | GS2_STR.c:192-194 | each event runs one iteration of its own task and preserves the queue bound |
| `Traces.Run` | GS2_STR.c:179 | under every interleaving of the three tasks the queue never holds more than 5 SSIDs, and each event gets one report from its own task |
| `Traces.RunAppend` | GS2_STR.c:192-194 | running two interleavings one after the other is running their concatenation: the same final state and the two report sequences joined |
| `Traces.StepIsFifo` | GS2_STR.c:66-90 | one iteration removes at most the front SSID and appends at most one SSID at the back |
| `Traces.RunIsFifo` | GS2_STR.c:66-90 | over any run, the SSIDs received followed by those still queued are the initially queued ones followed by those sent, in order: no reordering and no loss inside the queue |
| `Traces.DeliveredInSendOrder` | GS2_STR.c:66-90 | from an empty queue the validator receives a prefix of the sent SSIDs, in send order; the rest are still queued |
| `Traces.FlagsRecordProgress` | GS2_STR.c:68-124 | between supervisor iterations the monitor flag is up iff it was up or some monitor iteration sent or found no association, and the validator flag is up iff it was up or some validator iteration ran |
| `Traces.RefreshIffBothReported` | GS2_STR.c:141-148 | in each supervision period the watchdog is refreshed iff the monitor set its flag and the validator ran since the previous supervisor iteration; both flags are down afterwards and the queue is untouched |
| `Traces.RefreshInLongerRun` | GS2_STR.c:141-148 | after any history ending in a supervisor iteration, the report of the next supervisor iteration in the whole run is a refresh iff the monitor set its flag and the validator ran within that period |
| `Traces.SilentValidatorWithholdsRefresh` | GS2_STR.c:141-145 | a period without any validator iteration never refreshes the watchdog |
| `Traces.BurstKeepsOldest` | GS2_STR.c:66-72 | with the validator stalled, a burst of samples fills the free slots with the oldest samples in arrival order and drops every later one; the monitor flag goes up iff at least one was accepted |
| `Traces.SixRapidSamples` | GS2_STR.c:20 | six rapid samples into an empty queue: the first five are queued in order, the sixth is dropped, the monitor flag is up |
| `Traces.ConfirmAndAlert` | GS2_STR.c:97-117 | with the mutex taken, a listed SSID is confirmed and an unlisted one is classified unauthorized |

## Left out

- Task creation, scheduling, preemption and priorities (`GS2_STR.c:192-194`). Each loop iteration is one atomic step, and interleavings are arbitrary event sequences. A flag set between the supervisor's read and its clear is therefore not modelled.
- Blocking and the millisecond timeouts of the queue, the mutex and the task delays (`GS2_STR.c:21-25`, `GS2_STR.c:60`, `GS2_STR.c:80`, `GS2_STR.c:150`). Mutex acquisition is a boolean input. The receive succeeds iff an SSID is waiting at the step.
- The mutex object itself (`GS2_STR.c:37`, `GS2_STR.c:185-189`, `GS2_STR.c:103`). Only the validator takes it, and always releases it after the scan.
- `malloc`, `strcpy` and `free` (`GS2_STR.c:56-71`, `GS2_STR.c:119`). Ownership is modelled by moving SSID values into and out of the queue sequence. Allocation success is an input.
- All `printf` diagnostics and alert banners (`GS2_STR.c:59`, `GS2_STR.c:67`, `GS2_STR.c:70`, `GS2_STR.c:75`, `GS2_STR.c:92`, `GS2_STR.c:106`, `GS2_STR.c:110-117`, `GS2_STR.c:123`, `GS2_STR.c:135-139`, `GS2_STR.c:144`). The model returns the branch taken (`MonitorOutcome`), the classification (`Verdict`) and the refresh decision instead.
- Watchdog registration, the per-task `esp_task_wdt_reset` calls and the watchdog configuration (`GS2_STR.c:49`, `GS2_STR.c:79`, `GS2_STR.c:85`, `GS2_STR.c:127`, `GS2_STR.c:132`, `GS2_STR.c:169-176`). Only the supervisor's refresh decision is modelled, as a returned `bool`. The model therefore does not capture that an allocation failure also skips the monitor's own watchdog reset.
- `app_main`'s storage and Wi-Fi bring-up, `wifi_init_sta`, `event_handler`, the restart on a failed queue or mutex creation, and `esp_wifi_sta_get_ap_info` (`GS2_STR.c:154-246`, `GS2_STR.c:54`). These are I/O and SDK calls. The association result is an optional-SSID input.
- The raw 33-byte `ap_info.ssid` buffer. An SSID is modelled as the C string `strcpy` copies out of it, so an SSID with an embedded NUL is seen only up to that NUL.
