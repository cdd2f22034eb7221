/** Whole runs of timer calls: what fires, and that the wheel and the sorted map stay in step. */
module TimerRuns {
  import opened Common
  import opened WheelPlacement
  import opened WheelState
  import opened TimerSpec
  import opened WheelOps
  import opened WheelMin
  import opened TimingWheel
  import TreeMap

  datatype Op = Add(delay: nat, now: nat) | Remove(id: nat) | Run(now: nat) | Min(now: nat)

  predicate Timed(op: Op) {
    op.Remove? || 0 < op.now < NO_DEADLINE
  }

  ghost function LoggedIds(fired: seq<Fired>): set<nat> {
    set i | 0 <= i < |fired| :: fired[i].id
  }

  function Deadlines(fired: seq<Fired>): (r: seq<nat>)
    ensures |r| == |fired| && forall i :: 0 <= i < |fired| ==> r[i] == fired[i].deadline
  {
    seq(|fired|, i requires 0 <= i < |fired| => fired[i].deadline)
  }

  lemma {:induction false} LoggedCount(fired: seq<Fired>)
    requires OncePerId(fired)
    ensures |LoggedIds(fired)| == |fired|
  {
    if fired != [] {
      var n := |fired| - 1;
      LoggedCount(fired[..n]);
      assert LoggedIds(fired) == LoggedIds(fired[..n]) + {fired[n].id};
    }
  }

  lemma SubsetCount(a: set<nat>, b: set<nat>)
    requires a <= b
    ensures |a| <= |b|
  {
    assert b == a + (b - a);
  }

  /** Two logs that run the same due timers in deadline order have the same deadline at every position. */
  lemma SameSchedule(a: seq<Fired>, b: seq<Fired>, pending: map<nat, nat>, now: nat)
    requires RunsDue(a, pending, now) && RunsDue(b, pending, now)
    ensures LoggedIds(a) == LoggedIds(b)
    ensures Deadlines(a) == Deadlines(b)
  {
    LoggedSame(a, b, pending, now);
    LoggedSame(b, a, pending, now);
    assert LoggedIds(a) == LoggedIds(b);
    LoggedCount(a);
    LoggedCount(b);
    forall i | 0 <= i < |a| ensures a[i].deadline == b[i].deadline {
      NotEarlier(a, b, pending, now, i);
      NotEarlier(b, a, pending, now, i);
    }
  }

  lemma LoggedSame(a: seq<Fired>, b: seq<Fired>, pending: map<nat, nat>, now: nat)
    requires RunsDue(a, pending, now) && RunsDue(b, pending, now)
    ensures LoggedIds(a) <= LoggedIds(b)
  {
  }

  lemma EarlierIsBefore(b: seq<Fired>, k: nat, i: nat)
    requires InDeadlineOrder(b) && k < |b| && i < |b| && b[k].deadline < b[i].deadline
    ensures k < i
  {
  }

  /** Position `i` cannot come later in `b` than in `a`: fewer than `i + 1` timers would be due by then. */
  lemma NotEarlier(a: seq<Fired>, b: seq<Fired>, pending: map<nat, nat>, now: nat, i: nat)
    requires RunsDue(a, pending, now) && RunsDue(b, pending, now) && i < |a| == |b|
    ensures a[i].deadline >= b[i].deadline
  {
    var x := a[i].deadline;
    var due := set id | id in pending && pending[id] <= x;
    LoggedCount(a[..i + 1]);
    LoggedCount(b[..i]);
    forall id | id in LoggedIds(a[..i + 1]) ensures id in due {
      var k :| 0 <= k < |a[..i + 1]| && a[..i + 1][k].id == id;
      assert a[k].deadline <= a[i].deadline;
    }
    SubsetCount(LoggedIds(a[..i + 1]), due);
    if x < b[i].deadline {
      forall id | id in due ensures id in LoggedIds(b[..i]) {
        assert Logged(b, id);
        var k :| 0 <= k < |b| && b[k].id == id;
        EarlierIsBefore(b, k, i);
        assert b[..i][k].id == id;
      }
      SubsetCount(due, LoggedIds(b[..i]));
      assert false;
    }
  }

  /** The fate of every timer so far: still pending, removed, or run exactly once in the iteration of its
      own deadline. Timers run in deadline order over the whole history. */
  ghost predicate History(added: map<nat, nat>, removed: set<nat>, log: seq<Fired>,
                          pending: map<nat, nat>, current: nat) {
    && OncePerId(log) && InDeadlineOrder(log)
    && (forall f {:trigger RanOnTime(f, added, removed, pending, current)} ::
          f in log ==> RanOnTime(f, added, removed, pending, current))
    && (forall id {:trigger Ahead(id, added, removed, pending, current)} ::
          id in pending ==> Ahead(id, added, removed, pending, current))
    && (forall id {:trigger Logged(log, id)} :: id in added && id !in pending && id !in removed ==> Logged(log, id))
    && removed <= added.Keys
  }

  ghost predicate RanOnTime(f: Fired, added: map<nat, nat>, removed: set<nat>, pending: map<nat, nat>, current: nat) {
    && f.id in added && f.id !in removed && f.id !in pending
    && f.at == f.deadline == added[f.id] && f.deadline < current
  }

  ghost predicate Ahead(id: nat, added: map<nat, nat>, removed: set<nat>, pending: map<nat, nat>, current: nat)
    requires id in pending
  {
    id in added && id !in removed && pending[id] == added[id] && current <= pending[id]
  }

  lemma HistoryAdd(added: map<nat, nat>, removed: set<nat>, log: seq<Fired>, pending: map<nat, nat>, current: nat,
                   id: nat, deadline: nat)
    requires History(added, removed, log, pending, current) && id !in added && current <= deadline
    ensures History(added[id := deadline], removed, log, pending[id := deadline], current)
  {
    var added', pending' := added[id := deadline], pending[id := deadline];
    forall f | f in log ensures RanOnTime(f, added', removed, pending', current) {
      assert RanOnTime(f, added, removed, pending, current);
    }
    forall k | k in pending' ensures Ahead(k, added', removed, pending', current) {
      if k != id { assert Ahead(k, added, removed, pending, current); }
    }
  }

  lemma HistoryRemove(added: map<nat, nat>, removed: set<nat>, log: seq<Fired>, pending: map<nat, nat>, current: nat,
                      id: nat)
    requires History(added, removed, log, pending, current)
    ensures id in pending ==> id in added && pending[id] == added[id]
    ensures History(added, if id in pending then removed + {id} else removed, log, pending - {id}, current)
    ensures id !in pending ==> pending - {id} == pending
  {
    var removed', pending' := if id in pending then removed + {id} else removed, pending - {id};
    if id in pending { assert Ahead(id, added, removed, pending, current); }
    if id !in pending { assert pending - {id} == pending; }
    forall f | f in log ensures RanOnTime(f, added, removed', pending', current) {
      assert RanOnTime(f, added, removed, pending, current);
    }
    forall k | k in pending' ensures Ahead(k, added, removed', pending', current) {
      assert Ahead(k, added, removed, pending, current);
    }
  }

  lemma HistoryRun(added: map<nat, nat>, removed: set<nat>, log: seq<Fired>, pending: map<nat, nat>, current: nat,
                   fired: seq<Fired>, now: nat, current': nat)
    requires History(added, removed, log, pending, current) && RunsDue(fired, pending, now)
    requires forall i :: 0 <= i < |fired| ==> fired[i].at == fired[i].deadline
    requires current <= current' && now < current' && (current' == now + 1 || current' == current)
    ensures History(added, removed, log + fired, Later(pending, now), current')
  {
    var log', pending' := log + fired, Later(pending, now);
    forall f | f in fired
      ensures f.id in pending && f.deadline == pending[f.id] <= now && f.at == f.deadline
      ensures current <= f.deadline && RanOnTime(f, added, removed, pending', current')
    {
      var i :| 0 <= i < |fired| && fired[i] == f;
      assert Ahead(f.id, added, removed, pending, current);
    }
    forall f | f in log ensures f.deadline < current && RanOnTime(f, added, removed, pending', current') {
      assert RanOnTime(f, added, removed, pending, current);
    }
    forall f, g | f in log && g in fired ensures f.id != g.id {
      assert RanOnTime(f, added, removed, pending, current);
    }
    forall k | k in pending' ensures Ahead(k, added, removed, pending', current') {
      assert Ahead(k, added, removed, pending, current);
    }
    forall i, j | 0 <= i < j < |log'| ensures log'[i].id != log'[j].id {
      if i < |log| <= j { assert log[i] in log && fired[j - |log|] in fired; }
    }
    forall i, j | 0 <= i <= j < |log'| ensures log'[i].deadline <= log'[j].deadline {
      if i < |log| <= j { assert log[i] in log && fired[j - |log|] in fired; }
    }
    forall id | id in added && id !in pending' && id !in removed ensures Logged(log', id) {
      if id in pending {
        assert Logged(fired, id);
        var i :| 0 <= i < |fired| && fired[i].id == id;
        assert log'[|log| + i].id == id;
      } else {
        assert Logged(log, id);
        var i :| 0 <= i < |log| && log[i].id == id;
        assert log'[i].id == id;
      }
    }
  }

  lemma MinUnique(pending: map<nat, nat>, m: nat, n: nat)
    requires IsMinDeadline(pending, m) && IsMinDeadline(pending, n)
    ensures m == n
  {
  }

  /** The specified timer: the pending map and the clock, driven by the calls alone. */
  datatype Sim = Sim(pending: map<nat, nat>, added: map<nat, nat>, removed: set<nat>,
                     current: nat, started: bool, nextId: nat, admissible: bool)

  function SimStep(s: Sim, op: Op): Sim {
    match op
    case Add(delay, now) =>
      var deadline, current := (now + delay) % UINT64, if s.started then s.current else now;
      Sim(s.pending[s.nextId + 1 := deadline], s.added[s.nextId + 1 := deadline], s.removed, current, true,
          s.nextId + 1, s.admissible && OnTime(Classify(deadline, now), deadline, current))
    case Remove(id) =>
      s.(pending := s.pending - {id}, removed := if id in s.pending then s.removed + {id} else s.removed)
    case Run(now) =>
      s.(pending := Later(s.pending, now), started := true,
         current := AfterRun(s.current, s.started, now))
    case Min(_) => s
  }

  function SimRun(ops: seq<Op>): Sim {
    if ops == [] then Sim(map[], map[], {}, 0, false, 0, true)
    else SimStep(SimRun(ops[..|ops| - 1]), ops[|ops| - 1])
  }

  /** What a run has seen. `added` are the handles callers hold (id -> deadline). `admissible` is what a caller
      can check before each call: every timer added so far was on time when added. */
  datatype Book = Book(added: map<nat, nat>, removed: set<nat>, log: seq<Fired>, admissible: bool)

  /** What the two timers return to one call. */
  datatype Answer =
    | Added(id: nat) | Removed(ok: bool) | Runs(wheel: seq<Fired>, tree: seq<Fired>) | Wait(wheelMs: int, treeMs: int)

  /** The answers the specified timer calls for: both implementations run exactly the due timers, on the same
      schedule, and report the same waiting time exactly when 32 bits can express it. */
  ghost predicate Expected(s: Sim, op: Op, a: Answer) {
    match op
    case Add(_, _) => a == Added(s.nextId + 1)
    case Remove(id) => a == Removed(id in s.pending)
    case Run(now) =>
      && a.Runs? && RunsDue(a.wheel, s.pending, now) && RunsDue(a.tree, s.pending, now)
      && LoggedIds(a.wheel) == LoggedIds(a.tree) && Deadlines(a.wheel) == Deadlines(a.tree)
    case Min(now) =>
      && a.Wait?
      && if s.pending == map[] then a.wheelMs == a.treeMs == -1
         else exists m :: IsMinDeadline(s.pending, m) && Waits(m, now, a.wheelMs, a.treeMs)
  }

  predicate Waits(m: nat, now: nat, wheel: int, tree: int) {
    && wheel == TimeUntil(m, now) && tree == TreeMap.ClampedMin(m, now)
    && (wheel == tree <==> TreeMap.Expressible(m, now))
  }

  /** All timers the wheel ran, in order. */
  function WheelLog(answers: seq<Answer>): seq<Fired> {
    if answers == [] then []
    else
      var last := answers[|answers| - 1];
      WheelLog(answers[..|answers| - 1]) + if last.Runs? then last.wheel else []
  }

  ghost predicate BookOk(book: Book, wheel: map<nat, nat>, tree: map<nat, nat>, current: nat, started: bool,
                         nextId: nat) {
    && wheel.Keys <= book.added.Keys && (forall id :: id in book.added ==> id <= nextId)
    && (!started ==> book.added == map[] && book.log == [] && book.removed == {})
    && (book.admissible ==> wheel == tree && History(book.added, book.removed, book.log, wheel, current))
  }

  /** The wheel and the sorted map after the same calls. */
  ghost predicate Linked(wheel: TimingWheelTimer, tree: TreeMap.TreeMapTimer, book: Book)
    reads wheel, tree
  {
    && wheel.Valid() && tree.Valid() && (book.admissible ==> wheel.Punctual())
    && BookOk(book, wheel.pending, tree.pending, wheel.currentMs, wheel.initialized, tree.nextId)
  }

  /** The pair has followed the specified timer (on the pending timers, as long as the calls were admissible). */
  ghost predicate Tracks(wheel: TimingWheelTimer, tree: TreeMap.TreeMapTimer, book: Book, sim: Sim)
    reads wheel, tree
  {
    && Linked(wheel, tree, book)
    && book.added == sim.added && book.admissible == sim.admissible
    && wheel.currentMs == sim.current && wheel.initialized == sim.started && tree.nextId == sim.nextId
    && (sim.admissible ==> wheel.pending == sim.pending && book.removed == sim.removed)
  }

  method StepAdd(wheel: TimingWheelTimer, tree: TreeMap.TreeMapTimer, book: Book, ghost sim: Sim, delay: nat, now: nat)
    returns (book': Book, answer: Answer)
    requires Tracks(wheel, tree, book, sim) && 0 < now < NO_DEADLINE
    modifies wheel, tree
    ensures Tracks(wheel, tree, book', SimStep(sim, Add(delay, now))) && Logs(book, book', answer)
    ensures Expected(sim, Add(delay, now), answer)
  {
    var id, onTime;
    book', id, onTime := LinkedAdd(wheel, tree, book, (now + delay) % UINT64, delay, now);
    answer := Added(id);
  }

  method LinkedAdd(wheel: TimingWheelTimer, tree: TreeMap.TreeMapTimer, book: Book, deadline: nat, delay: nat, now: nat)
    returns (book': Book, id: nat, onTime: bool)
    requires Linked(wheel, tree, book) && now != 0 && deadline == (now + delay) % UINT64
    modifies wheel, tree
    ensures Linked(wheel, tree, book') && id == tree.nextId == old(tree.nextId) + 1
    ensures book' == book.(added := book.added[id := deadline], admissible := book.admissible && onTime)
    ensures wheel.pending == old(wheel.pending)[id := deadline]
    ensures wheel.initialized && wheel.currentMs == if old(wheel.initialized) then old(wheel.currentMs) else now
    ensures onTime == OnTime(Classify(deadline, now), deadline, wheel.currentMs)
  {
    ghost var w, t, c, started, nextId := wheel.pending, tree.pending, wheel.currentMs, wheel.initialized, tree.nextId;
    id, onTime := AddToBoth(wheel, tree, deadline, delay, now);
    book' := book.(added := book.added[id := deadline], admissible := book.admissible && onTime);
    BookAdd(book, w, t, c, started, nextId, deadline, onTime, book', wheel.pending, tree.pending, wheel.currentMs,
            wheel.initialized, tree.nextId);
  }

  method AddToBoth(wheel: TimingWheelTimer, tree: TreeMap.TreeMapTimer, deadline: nat, delay: nat, now: nat)
    returns (id: nat, onTime: bool)
    requires wheel.Valid() && tree.Valid() && tree.nextId + 1 !in wheel.pending
    requires now != 0 && deadline == (now + delay) % UINT64
    modifies wheel, tree
    ensures wheel.Valid() && tree.Valid() && id == tree.nextId == old(tree.nextId) + 1
    ensures wheel.pending == old(wheel.pending)[id := deadline] && tree.pending == old(tree.pending)[id := deadline]
    ensures wheel.initialized && wheel.currentMs == if old(wheel.initialized) then old(wheel.currentMs) else now
    ensures onTime == OnTime(Classify(deadline, now), deadline, wheel.currentMs) && (onTime ==>
        wheel.currentMs <= deadline)
    ensures old(wheel.Punctual()) && onTime ==> wheel.Punctual()
  {
    id := tree.AddTimer(delay, now, now);
    var _ := wheel.AddTimer(id, delay, now, now);
    onTime := OnTime(Classify(deadline, now), deadline, wheel.currentMs);
    if onTime { OnTimeNotPast(Classify(deadline, now), deadline, wheel.currentMs); }
  }

  lemma BookAdd(book: Book, wheel: map<nat, nat>, tree: map<nat, nat>, current: nat, started: bool, nextId: nat,
                deadline: nat, onTime: bool, book': Book, wheel': map<nat, nat>, tree': map<nat, nat>, current': nat,
                started': bool, id: nat)
    requires BookOk(book, wheel, tree, current, started, nextId) && (!started ==> wheel == map[])
    requires id == nextId + 1 && wheel' == wheel[id := deadline] && tree' == tree[id := deadline] && started'
    requires (started ==> current' == current) && (onTime ==> current' <= deadline)
    requires book' == book.(added := book.added[id := deadline], admissible := book.admissible && onTime)
    ensures BookOk(book', wheel', tree', current', started', id)
  {
    if book.admissible && onTime {
      HistoryAdd(book.added, book.removed, book.log, wheel, current', id, deadline);
    }
  }

  method StepRemove(wheel: TimingWheelTimer, tree: TreeMap.TreeMapTimer, book: Book, ghost sim: Sim, id: nat)
    returns (book': Book, answer: Answer)
    requires Tracks(wheel, tree, book, sim)
    modifies wheel, tree
    ensures Tracks(wheel, tree, book', SimStep(sim, Remove(id))) && Logs(book, book', answer)
    ensures sim.admissible ==> Expected(sim, Remove(id), answer)
  {
    BookRemove(book, wheel.pending, tree.pending, wheel.currentMs, wheel.initialized, tree.nextId, id);
    var ok := RemoveFromBoth(wheel, tree, book.added, id);
    book' := book.(removed := if ok then book.removed + {id} else book.removed);
    answer := Removed(ok);
  }

  lemma BookRemove(book: Book, wheel: map<nat, nat>, tree: map<nat, nat>, current: nat, started: bool, nextId: nat,
                   id: nat)
    requires BookOk(book, wheel, tree, current, started, nextId) && (!started ==> wheel == map[])
    ensures book.admissible && id in tree ==> id in book.added && tree[id] == book.added[id]
    ensures var book' := book.(removed := if id in wheel then book.removed + {id} else book.removed);
      && (book.admissible ==> BookOk(book', wheel - {id}, tree - {id}, current, started, nextId))
      && (!book.admissible ==> forall t :: BookOk(book', wheel - {id}, t, current, started, nextId))
  {
    if book.admissible {
      HistoryRemove(book.added, book.removed, book.log, wheel, current, id);
    }
  }

  /** Both removals, the sorted map being asked with the deadline the caller's handle carries. */
  method RemoveFromBoth(wheel: TimingWheelTimer, tree: TreeMap.TreeMapTimer, added: map<nat, nat>, id: nat)
    returns (ok: bool)
    requires wheel.Valid() && tree.Valid()
    modifies wheel, tree
    ensures wheel.Valid() && tree.Valid() && tree.nextId == old(tree.nextId)
    ensures wheel.pending == old(wheel.pending) - {id} && (ok <==> id in old(wheel.pending))
    ensures wheel.currentMs == old(wheel.currentMs) && wheel.initialized == old(wheel.initialized)
    ensures old(wheel.Punctual()) ==> wheel.Punctual()
    ensures (id in old(tree.pending) ==> id in added && old(tree.pending)[id] == added[id]) ==>
      tree.pending == old(tree.pending) - {id}
  {
    ok := wheel.RemoveTimer(id);
    assert id !in tree.pending ==> tree.pending - {id} == tree.pending;
    if id in added {
      var _ := tree.RemoveTimer(id, added[id]);
    }
  }

  method StepRun(wheel: TimingWheelTimer, tree: TreeMap.TreeMapTimer, book: Book, ghost sim: Sim, now: nat)
    returns (book': Book, answer: Answer)
    requires Tracks(wheel, tree, book, sim) && 0 < now < NO_DEADLINE
    modifies wheel, tree
    ensures Tracks(wheel, tree, book', SimStep(sim, Run(now))) && Logs(book, book', answer)
    ensures sim.admissible ==> Expected(sim, Run(now), answer)
  {
    var a, b := RunBoth(wheel, tree, now);
    BookRun(book, old(wheel.pending), old(tree.pending), old(wheel.currentMs), old(wheel.initialized), tree.nextId,
            wheel.pending, wheel.currentMs, a, now);
    if book.admissible {
      SameSchedule(a, b, old(wheel.pending), now);
    }
    book' := book.(log := book.log + a);
    answer := Runs(a, b);
  }

  method RunBoth(wheel: TimingWheelTimer, tree: TreeMap.TreeMapTimer, now: nat) returns (a: seq<Fired>, b: seq<Fired>)
    requires wheel.Valid() && tree.Valid() && 0 < now < NO_DEADLINE
    modifies wheel, tree
    ensures wheel.Valid() && tree.Valid() && tree.nextId == old(tree.nextId) && wheel.initialized
    ensures wheel.pending.Keys <= old(wheel.pending).Keys
    ensures wheel.currentMs == AfterRun(old(wheel.currentMs), old(wheel.initialized), now)
    ensures !old(wheel.initialized) ==> a == []
    ensures old(wheel.Punctual()) ==> wheel.Punctual() && RanDue(a, old(wheel.pending), wheel.pending, now)
    ensures RunsDue(b, old(tree.pending), now) && tree.pending == Later(old(tree.pending), now)
  {
    a := wheel.TimerRun(now, now);
    b := tree.TimerRun(now, now);
  }

  function AfterRun(current: nat, started: bool, now: nat): nat {
    if !started then now else if current <= now then now + 1 else current
  }

  lemma BookRun(book: Book, wheel: map<nat, nat>, tree: map<nat, nat>, current: nat, started: bool, nextId: nat,
                wheel': map<nat, nat>, current': nat, fired: seq<Fired>, now: nat)
    requires BookOk(book, wheel, tree, current, started, nextId) && wheel'.Keys <= wheel.Keys
    requires !started ==> wheel == map[] && fired == []
    requires current' == AfterRun(current, started, now)
    requires book.admissible ==> RanDue(fired, wheel, wheel', now)
    ensures BookOk(book.(log := book.log + fired), wheel', Later(tree, now), current', true, nextId)
  {
    if book.admissible && started {
      HistoryRun(book.added, book.removed, book.log, wheel, current, fired, now, current');
    }
  }

  method StepMin(wheel: TimingWheelTimer, tree: TreeMap.TreeMapTimer, book: Book, ghost sim: Sim, now: nat)
    returns (answer: Answer)
    requires Tracks(wheel, tree, book, sim) && 0 < now < NO_DEADLINE
    modifies wheel, tree
    ensures Tracks(wheel, tree, book, SimStep(sim, Min(now))) && !answer.Runs?
    ensures sim.admissible ==> Expected(sim, Min(now), answer)
  {
    var a := wheel.MinTime(now, now);
    var b := tree.MinTime(now, now);
    if sim.admissible && sim.pending != map[] {
      MinAgreement(wheel.store, wheel.pending, now, a, b);
    }
    answer := Wait(a, b);
  }

  lemma MinAgreement(st: Store, pending: map<nat, nat>, now: nat, a: int, b: int)
    requires Agrees(st, pending) && pending != map[] && now < UINT64
    requires exists k :: IsMinDeadline(pending, k) && a == TimeUntil(k, now)
    requires exists k :: IsMinDeadline(pending, k) && b == TreeMap.ClampedMin(k, now)
    ensures exists m :: IsMinDeadline(pending, m) && Waits(m, now, a, b)
  {
    var k :| IsMinDeadline(pending, k) && a == TimeUntil(k, now);
    var l :| IsMinDeadline(pending, l) && b == TreeMap.ClampedMin(l, now);
    MinUnique(pending, k, l);
    var id :| id in pending && pending[id] == k;
    Occupied(st, pending, id);
    TreeMap.MinTimeAgreesIff(k, now);
    assert Waits(k, now, a, b);
  }

  ghost predicate Logs(book: Book, book': Book, answer: Answer) {
    book'.log == book.log + if answer.Runs? then answer.wheel else []
  }

  method StepOne(wheel: TimingWheelTimer, tree: TreeMap.TreeMapTimer, book: Book, ghost sim: Sim, op: Op)
    returns (book': Book, answer: Answer)
    requires Tracks(wheel, tree, book, sim) && Timed(op)
    modifies wheel, tree
    ensures Tracks(wheel, tree, book', SimStep(sim, op)) && Logs(book, book', answer)
    ensures sim.admissible ==> Expected(sim, op, answer)
  {
    match op {
      case Add(delay, now) => book', answer := StepAdd(wheel, tree, book, sim, delay, now);
      case Remove(id) => book', answer := StepRemove(wheel, tree, book, sim, id);
      case Run(now) => book', answer := StepRun(wheel, tree, book, sim, now);
      case Min(now) => answer := StepMin(wheel, tree, book, sim, now); book' := book;
    }
  }

  /** Each call was answered as specified, as long as the timers added before it were admissible. */
  ghost predicate AllExpected(ops: seq<Op>, answers: seq<Answer>) {
    |answers| == |ops| && forall n {:trigger ExpectedAt(ops, answers, n)} :: 0 <= n < |ops| ==>
        ExpectedAt(ops, answers, n)
  }

  ghost predicate ExpectedAt(ops: seq<Op>, answers: seq<Answer>, n: nat)
    requires n < |ops| == |answers|
  {
    var sim := SimRun(ops[..n]);
    sim.admissible ==> Expected(sim, ops[n], answers[n])
  }

  lemma ExpectedNext(ops: seq<Op>, answers: seq<Answer>, op: Op, answer: Answer)
    requires AllExpected(ops, answers) && (SimRun(ops).admissible ==> Expected(SimRun(ops), op, answer))
    ensures AllExpected(ops + [op], answers + [answer])
    ensures SimRun(ops + [op]) == SimStep(SimRun(ops), op)
    ensures WheelLog(answers + [answer]) == WheelLog(answers) + if answer.Runs? then answer.wheel else []
  {
    var ops', answers' := ops + [op], answers + [answer];
    assert ops'[..|ops|] == ops && answers'[..|answers|] == answers;
    forall n | 0 <= n < |ops'| ensures ExpectedAt(ops', answers', n) {
      if n < |ops| {
        assert ops'[..n] == ops[..n] && ExpectedAt(ops, answers, n);
      }
    }
  }

  /** Every run: each call gets the specified answer from both timers, and the wheel's log is a history in which
      every timer meets its specified fate. */
  method Drive(ops: seq<Op>) returns (answers: seq<Answer>)
    requires forall op :: op in ops ==> Timed(op)
    ensures AllExpected(ops, answers)
    ensures var sim := SimRun(ops);
      sim.admissible ==> History(sim.added, sim.removed, WheelLog(answers), sim.pending, sim.current)
  {
    var wheel := new TimingWheelTimer();
    var tree := new TreeMap.TreeMapTimer();
    var book := Book(map[], {}, [], true);
    answers := [];
    for n := 0 to |ops|
      invariant fresh(wheel) && fresh(tree) && Tracks(wheel, tree, book, SimRun(ops[..n]))
      invariant AllExpected(ops[..n], answers) && book.log == WheelLog(answers)
    {
      assert ops[n] in ops && ops[..n + 1] == ops[..n] + [ops[n]];
      var answer;
      book, answer := StepOne(wheel, tree, book, SimRun(ops[..n]), ops[n]);
      ExpectedNext(ops[..n], answers, ops[n], answer);
      answers := answers + [answer];
    }
    assert ops[..|ops|] == ops;
  }

  /** A wheel at time 1001 that was given timer 7 with no delay in millisecond 1000, and timer 8 for 5000. */
  method LateTimerSetup(wheel: TimingWheelTimer)
    requires wheel.Valid() && !wheel.initialized && wheel.minDeadlineCache == NO_DEADLINE && !wheel.cacheDirty
    modifies wheel
    ensures wheel.Valid() && wheel.initialized && wheel.currentMs == 1001
    ensures wheel.pending == map[7 := 1000, 8 := 5000]
    ensures wheel.store.location == map[7 := L0(232), 8 := L1(19)]
    ensures wheel.minDeadlineCache == 1000 && !wheel.cacheDirty
  {
    AddSeven(wheel);
    WitnessPlaces();
    var _ := wheel.AddTimer(8, 4000, 1000, 1000);
  }

  method AddSeven(wheel: TimingWheelTimer)
    requires wheel.Valid() && !wheel.initialized && wheel.minDeadlineCache == NO_DEADLINE && !wheel.cacheDirty
    modifies wheel
    ensures wheel.Valid() && wheel.initialized && wheel.currentMs == 1001
    ensures wheel.pending == map[7 := 1000] && wheel.store.location == map[7 := L0(232)]
    ensures wheel.minDeadlineCache == 1000 && !wheel.cacheDirty
  {
    ReachMillisecond(wheel, 1000);
    WitnessPlaces();
    var _ := wheel.AddTimer(7, 0, 1000, 1000);
  }

  /** Start an empty wheel and process its first millisecond. */
  method ReachMillisecond(wheel: TimingWheelTimer, now: nat)
    requires wheel.Valid() && !wheel.initialized && 0 < now < NO_DEADLINE
    modifies wheel
    ensures wheel.Valid() && wheel.initialized && wheel.currentMs == now + 1
    ensures wheel.pending == map[] && wheel.store.location == map[]
    ensures wheel.minDeadlineCache == old(wheel.minDeadlineCache) && wheel.cacheDirty == old(wheel.cacheDirty)
  {
    var _ := wheel.TimerRun(now, now);
    ghost var location := wheel.store.location;
    var fired := wheel.TimerRun(now, now);
    RanEmpty(location, now, wheel.pending, wheel.store.location, now + 1, fired);
    assert wheel.store.location.Keys == {};
  }

  lemma RanEmpty(location: map<nat, Loc>, start: nat, pending': map<nat, nat>, location': map<nat, Loc>,
                 current: nat, fired: seq<Fired>)
    requires Ran(map[], location, start, pending', location', current, fired)
    ensures fired == [] && pending' == map[]
  {
    assert forall f :: f in fired ==> LogEntry(f, map[], location, start, pending', current);
    assert forall i :: 0 <= i < |fired| ==> fired[i] in fired;
    assert LoggedIds(fired) == {};
    LoggedCount(fired);
  }

  method LateRun(wheel: TimingWheelTimer) returns (late: seq<Fired>)
    requires wheel.Valid() && wheel.initialized && wheel.currentMs == 1001 && wheel.minDeadlineCache == 1000
    requires wheel.pending == map[7 := 1000, 8 := 5000] && wheel.store.location == map[7 := L0(232), 8 := L1(19)]
    modifies wheel
    ensures wheel.Valid() && wheel.pending == map[8 := 5000] && late == [Fired(7, 1000, 1256)]
    ensures wheel.minDeadlineCache == 1000 && wheel.cacheDirty == old(wheel.cacheDirty)
  {
    late := wheel.TimerRun(1300, 1300);
    WitnessRun(wheel.pending, wheel.store.location, late);
  }

  /** The zero-delay timer misses its deadline by one revolution, and the cached minimum it leaves behind hides
      the true one (5000, still pending) behind an answer of 0. */
  method LateTimerWitness(wheel: TimingWheelTimer) returns (late: seq<Fired>, wait: int)
    requires wheel.Valid() && !wheel.initialized && wheel.minDeadlineCache == NO_DEADLINE && !wheel.cacheDirty
    modifies wheel
    ensures late == [Fired(7, 1000, 1256)]
    ensures wait == 0 && wheel.pending == map[8 := 5000]
  {
    LateTimerSetup(wheel);
    late := LateRun(wheel);
    wait := wheel.MinTime(1300, 1300);
  }

  lemma WitnessPlaces()
    ensures Classify(1000, 1000) == L0(232) && Classify(5000, 1000) == L1(19)
    ensures (1000 + 0) % UINT64 == 1000 && (1000 + 4000) % UINT64 == 5000
  {
  }

  lemma WitnessRun(pending': map<nat, nat>, location': map<nat, Loc>, fired: seq<Fired>)
    requires Ran(map[7 := 1000, 8 := 5000], map[7 := L0(232), 8 := L1(19)], 1001, pending', location', 1301, fired)
    ensures fired == [Fired(7, 1000, 1256)] && pending' == map[8 := 5000]
  {
    var pending, location := map[7 := 1000, 8 := 5000], map[7 := L0(232), 8 := L1(19)];
    WitnessPlaces();
    forall at: nat ensures FiresAt(L0(232), 1000, 1001, at) <==> at == 1256 {
      Level0FiresAt(1000, 1001, at);
    }
    FiresAtDeadlineIff(L1(19), 5000, 1001);
    forall f | f in fired ensures f == Fired(7, 1000, 1256) {
      assert LogEntry(f, pending, location, 1001, pending', 1301);
      if f.id == 8 { FiresOnce(L1(19), 5000, 1001, f.at, 5000); }
    }
    assert FiresAt(L0(232), 1000, 1001, 1256);
    assert 7 in pending' ==> Waiting(7, pending, location, 1001, pending', location', 1301);
    assert Logged(fired, 7);
    assert forall i :: 0 <= i < |fired| ==> fired[i] in fired;
    assert !Logged(fired, 8);
    assert Waiting(8, pending, location, 1001, pending', location', 1301);
    LoggedCount(fired);
    SubsetCount(LoggedIds(fired), {7});
  }
}
