/** The plain timer every implementation is measured against: a map id -> deadline. */
module TimerSpec {
  import opened Common
  import opened WheelPlacement

  /** One callback run: the timer, its deadline, and the time value of the iteration that ran it. */
  datatype Fired = Fired(id: nat, deadline: nat, at: nat)

  const INT32_MAX := 0x7fff_ffff

  /** `m` is the earliest pending deadline, or `NO_DEADLINE` when nothing is pending. */
  ghost predicate IsMinDeadline(pending: map<nat, nat>, m: nat) {
    && (forall id :: id in pending ==> m <= pending[id])
    && (if pending == map[] then m == NO_DEADLINE else exists id :: id in pending && pending[id] == m)
  }

  /** The pending timers a run up to `now` leaves in place. */
  function Later(pending: map<nat, nat>, now: nat): map<nat, nat> {
    map id | id in pending && now < pending[id] :: pending[id]
  }

  ghost predicate Logged(fired: seq<Fired>, id: nat) {
    exists i :: 0 <= i < |fired| && fired[i].id == id
  }

  ghost predicate OncePerId(fired: seq<Fired>) {
    forall i, j :: 0 <= i < j < |fired| ==> fired[i].id != fired[j].id
  }

  ghost predicate InDeadlineOrder(fired: seq<Fired>) {
    forall i, j :: 0 <= i <= j < |fired| ==> fired[i].deadline <= fired[j].deadline
  }

  /** `fired` runs exactly the timers due by `now`, each once and in deadline order. */
  ghost predicate RunsDue(fired: seq<Fired>, pending: map<nat, nat>, now: nat) {
    && OncePerId(fired)
    && InDeadlineOrder(fired)
    && (forall i :: 0 <= i < |fired| ==>
          && fired[i].id in pending && fired[i].deadline == pending[fired[i].id] && fired[i].deadline <= now)
    && (forall id :: id in pending && pending[id] <= now ==> Logged(fired, id))
  }

  /** What `MinTime` is to answer: -1 when idle, 0 when overdue, else the clamped distance. */
  function TimeUntil(m: nat, now: nat): int {
    if m <= now then 0 else if m - now > INT32_MAX then INT32_MAX else m - now
  }
}
