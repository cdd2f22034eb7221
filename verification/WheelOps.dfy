/** The wheel's internal operations on its stored state: insert, erase, cascade and sweep. */
module WheelOps {
  import opened Bits
  import opened Common
  import opened WheelPlacement
  import opened WheelState
  import opened TimerSpec
  import opened WheelOrder

  /** All placement state of the wheel: the slots and every index over them. */
  datatype Store = Store(slots: Slots, occ: Occupancy, mins: SlotMins, location: map<nat, Loc>, total: nat)

  ghost predicate Indexed(st: Store, pending: map<nat, nat>) {
    Consistent(st.slots, st.occ, st.mins, st.location, pending)
  }

  /** The store holds exactly the timers of `pending`. */
  ghost predicate Agrees(st: Store, pending: map<nat, nat>) {
    Indexed(st, pending) && st.location.Keys == pending.Keys && st.total == |pending|
  }

  function EmptyStore(): (st: Store)
    ensures Agrees(st, map[])
  {
    var none: Slot := [];
    Store(Slots(seq(256, i => none), seq(64, i => none), seq(64, i => none), none),
          Occupancy([ZERO, ZERO, ZERO, ZERO], ZERO, ZERO, false),
          SlotMins(seq(64, i => NO_DEADLINE), seq(64, i => NO_DEADLINE), NO_DEADLINE), map[], 0)
  }

  /** `Insert`: append to the slot chosen from `reference`, record the location, mark the bit, lower the minimum. */
  function Insert(st: Store, t: Task, reference: nat): Store
    requires st.slots.Shape() && st.occ.Shape() && st.mins.Shape()
  {
    var loc := Classify(t.time, reference);
    Store(Appended(st.slots, loc, t), st.occ.Mark(loc), st.mins.Lower(loc, t.time),
          st.location[t.id := loc], st.total)
  }

  lemma InsertKeeps(st: Store, pending: map<nat, nat>, t: Task, reference: nat)
    requires Indexed(st, pending) && t.id !in pending && t.time < UINT64
    ensures Indexed(Insert(st, t, reference), pending[t.id := t.time])
  {
    PlaceKeeps(st.slots, st.occ, st.mins, st.location, pending, t, Classify(t.time, reference));
  }

  lemma AddAgrees(st: Store, pending: map<nat, nat>, t: Task, reference: nat)
    requires Agrees(st, pending) && t.id !in pending && t.time < UINT64
    ensures var st' := Insert(st, t, reference).(total := st.total + 1);
      Agrees(st', pending[t.id := t.time]) && st'.location == st.location[t.id := Classify(t.time, reference)]
  {
    InsertKeeps(st, pending, t, reference);
    assert pending[t.id := t.time].Keys == pending.Keys + {t.id};
    assert |pending[t.id := t.time].Keys| == |pending.Keys| + 1;
  }

  /** `ScanSlotMin` */
  method ScanSlotMin(slot: Slot) returns (m: nat)
    requires forall t :: t in slot ==> t.time < UINT64
    ensures IsSlotMin(slot, m)
  {
    m := NO_DEADLINE;
    for i := 0 to |slot|
      invariant IsSlotMin(slot[..i], m)
    {
      AppendMin(slot[..i], m, slot[i]);
      assert slot[..i + 1] == slot[..i] + [slot[i]];
      if slot[i].time < m { m := slot[i].time; }
    }
    assert slot[..|slot|] == slot;
  }

  /** `RemoveTimer` up to the cache: unlink the node, then refresh the bit and the minimum of its slot. */
  method Erase(st: Store, ghost pending: map<nat, nat>, id: nat) returns (st': Store, oldTime: nat)
    requires Agrees(st, pending) && id in st.location
    ensures Agrees(st', pending - {id}) && st'.location == st.location - {id}
    ensures var loc := st.location[id]; InRange(loc) && st'.slots == Unlinked(st.slots, loc, id)
    ensures oldTime == pending[id] < UINT64
  {
    assert Homed(id, st.slots, st.location, pending);
    var loc := st.location[id];
    var slot := st.slots.At(loc);
    var slot' := Without(slot, id);
    oldTime := TimeOf(slot, id);
    var occ, mins := st.occ, st.mins;
    assert SlotSound(slot, loc, st.location, pending) && SlotIndexed(slot, loc, occ, mins);
    ErasedMin(slot, id, oldTime, mins.At(loc), loc);
    if slot' == [] {
      occ := occ.Unmark(loc);
      mins := mins.With(loc, NO_DEADLINE);
    } else if !loc.L0? && oldTime == mins.At(loc) {
      forall t | t in slot' ensures t.time < UINT64 {
        WithoutMember(slot, id, t);
        assert Homed(t.id, st.slots, st.location, pending);
      }
      var m := ScanSlotMin(slot');
      mins := mins.With(loc, m);
    }
    EraseKeeps(st.slots, st.occ, st.mins, st.location, pending, id, loc, occ, mins);
    RemovedCount(pending, id);
    st' := Store(st.slots.With(loc, slot'), occ, mins, st.location - {id}, st.total - 1);
  }

  /** `Cascade`: re-insert every task of a higher-level slot, measured from time `c`. */
  method Cascade(st: Store, ghost pending: map<nat, nat>, loc: Loc, c: nat) returns (st': Store)
    requires Agrees(st, pending) && InRange(loc)
    ensures Agrees(st', pending)
    ensures Moved(pending, st.location, st'.location, loc, c, {})
    ensures st'.slots == CascadeSlot(st.slots, loc, c)
  {
    var local := st.slots.At(loc);
    TakeKeeps(st.slots, st.occ, st.mins, st.location, pending, loc);
    st' := st.(slots := st.slots.With(loc, []), occ := st.occ.Unmark(loc), mins := st.mins.With(loc, NO_DEADLINE));
    ghost var emptied := st'.slots;
    assert local[0..] == local && local[|local|..] == [] && local[..|local|] == local;
    for i := 0 to |local|
      invariant st'.slots == Dealt(emptied, local[..i], c)
      invariant Indexed(st', pending - Ids(local[i..])) && st'.total == st.total
      invariant Moved(pending, st.location, st'.location, loc, c, Ids(local[i..]))
    {
      CascadeOne(st, st', pending, loc, c, i);
      DealtNext(emptied, local, c, i);
      st' := st'.(total := st'.total - 1);
      st' := Insert(st', local[i], c);
      st' := st'.(total := st'.total + 1);
    }
    assert pending - Ids([]) == pending;
  }

  lemma CascadeOne(st: Store, st': Store, pending: map<nat, nat>, loc: Loc, c: nat, i: nat)
    requires Agrees(st, pending) && InRange(loc) && i < |st.slots.At(loc)|
    requires Indexed(st', pending - Ids(st.slots.At(loc)[i..]))
    requires Moved(pending, st.location, st'.location, loc, c, Ids(st.slots.At(loc)[i..]))
    ensures var local := st.slots.At(loc);
      && pending != map[]
      && Indexed(Insert(st', local[i], c), pending - Ids(local[i + 1..]))
      && Moved(pending, st.location, Insert(st', local[i], c).location, loc, c, Ids(local[i + 1..]))
  {
    var local := st.slots.At(loc);
    var t := local[i];
    assert SlotSound(local, loc, st.location, pending) && t in local;
    assert Homed(t.id, st.slots, st.location, pending);
    ReturnTask(pending, local, i);
    MoveOne(pending, st.location, st'.location, loc, c, local, i);
    InsertKeeps(st', pending - Ids(local[i..]), t, c);
  }

  /** The cascades `Tick` makes at time `c`, at epoch boundaries only. */
  method CascadeBoundaries(st: Store, ghost pending: map<nat, nat>, c: nat) returns (st': Store)
    requires Agrees(st, pending)
    ensures Agrees(st', pending)
    ensures forall id :: id in pending ==> st'.location[id] == AfterCascade(st.location[id], pending[id], c)
    ensures st'.slots == Cascaded(st.slots, c)
  {
    var c0, c1, c2 := Cursor0(c), Cursor1(c), Cursor2(c);
    CursorsZero(c);
    st' := st;
    if c0 == 0 {
      if c1 == 0 {
        if c2 == 0 {
          st' := Cascade(st', pending, Overflow, c);
        }
        st' := Cascade(st', pending, L2(c2), c);
      }
      st' := Cascade(st', pending, L1(c1), c);
    }
  }

  /** One iteration of `Tick` on the store: cascade, swap out the current level-0 slot, forget its tasks. */
  method Sweep(st: Store, ghost pending: map<nat, nat>, c: nat)
    returns (st': Store, fired: Slot)
    requires Agrees(st, pending)
    ensures Agrees(st', pending - Ids(fired))
    ensures Stepped(pending, st.location, pending - Ids(fired), st'.location, c, fired)
    ensures fired == Batch(st.slots, c) && st'.slots == Swept(st.slots, c)
  {
    var settled := CascadeBoundaries(st, pending, c);
    var s := Cursor0(c);
    FireKeeps(settled.slots, settled.occ, settled.mins, settled.location, pending, s);
    fired := settled.slots.At(L0(s));
    StepFromParts(pending, st.location, settled.location, c, fired);
    st' := settled.(slots := settled.slots.With(L0(s), []));
    if fired != [] {
      st' := st'.(occ := st'.occ.Unmark(L0(s)));
    }
    var location, total := Forget(settled.location, settled.total, fired);
    st' := st'.(location := location, total := total);
  }

  /** The bookkeeping of the firing loop: one location and one count per task run. */
  method Forget(location: map<nat, Loc>, total: nat, fired: Slot) returns (location': map<nat, Loc>, total': nat)
    requires |fired| <= total
    ensures location' == location - Ids(fired) && total' == total - |fired|
  {
    location', total' := location, total;
    for i := 0 to |fired|
      invariant location' == location - Ids(fired[..i])
      invariant total' == total - i
    {
      total' := total' - 1;
      location' := location' - {fired[i].id};
      IdsPrefix(fired, i);
    }
    assert fired[..|fired|] == fired;
  }

  /** The deadline held by the list node of `id`. */
  function TimeOf(slot: Slot, id: nat): (time: nat)
    requires exists t :: t in slot && t.id == id
    ensures Task(id, time) in slot
  {
    if slot[0].id == id then slot[0].time else
      assert exists t :: t in slot[1..] && t.id == id by {
        var t :| t in slot && t.id == id;
        assert slot == [slot[0]] + slot[1..];
      }
      TimeOf(slot[1..], id)
  }

  /** Removing a task that did not hold the slot's minimum leaves the minimum right. */
  lemma ErasedMin(slot: Slot, id: nat, time: nat, m: nat, loc: Loc)
    requires DistinctIds(slot) && Task(id, time) in slot
    requires !loc.L0? ==> IsSlotMin(slot, m)
    ensures Without(slot, id) == [] ==> IsSlotMin(Without(slot, id), NO_DEADLINE)
    ensures !loc.L0? && time != m ==> IsSlotMin(Without(slot, id), m)
  {
    if !loc.L0? && time != m {
      forall t | t in Without(slot, id) ensures m <= t.time { WithoutMember(slot, id, t); }
      if m != NO_DEADLINE {
        var u :| u in slot && u.time == m;
        if u.id == id { SameTask(slot, u, Task(id, time)); }
        WithoutMember(slot, id, u);
      }
    }
  }

  lemma SameTask(slot: Slot, t: Task, u: Task)
    requires DistinctIds(slot) && t in slot && u in slot && t.id == u.id
    ensures t == u
  {
    AllDiffer(slot);
  }

  /** Every pending task is reached in time by a wheel about to process `c`. */
  ghost predicate OnTimeFor(pending: map<nat, nat>, location: map<nat, Loc>, c: nat) {
    forall id {:trigger location[id]} {:trigger pending[id]} ::
      id in pending ==> id in location && OnTime(location[id], pending[id], c)
  }

  /** A clean cache is the true minimum; a dirty one holds the sentinel. */
  ghost predicate CacheFor(pending: map<nat, nat>, m: nat, dirty: bool) {
    if dirty then m == NO_DEADLINE else IsMinDeadline(pending, m)
  }

  /** The effect of one iteration at time `c` on every task. */
  ghost predicate Stepped(pending: map<nat, nat>, location: map<nat, Loc>,
                          pending': map<nat, nat>, location': map<nat, Loc>, c: nat, fired: Slot) {
    && DistinctIds(fired)
    && pending'.Keys <= pending.Keys <= location.Keys
    && (forall t :: t in fired ==> t.id in pending && pending[t.id] == t.time && t.id !in pending')
    && (forall id :: id in pending ==>
          if FiresIn(location[id], pending[id], c) then Task(id, pending[id]) in fired
          else && id in pending' && pending'[id] == pending[id]
               && id in location' && location'[id] == AfterCascade(location[id], pending[id], c))
  }

  /** Emptying a level-0 slot and forgetting its tasks keeps all indexes in agreement. */
  lemma FireKeeps(slots: Slots, occ: Occupancy, mins: SlotMins, location: map<nat, Loc>, pending: map<nat, nat>, s: nat)
    requires Consistent(slots, occ, mins, location, pending) && s < 256 && location.Keys == pending.Keys
    ensures var fired := slots.At(L0(s));
      && DistinctIds(fired)
      && Consistent(slots.With(L0(s), []), if fired != [] then occ.Unmark(L0(s)) else occ, mins,
                    location - Ids(fired), pending - Ids(fired))
      && (forall t :: t in fired ==> t.id in pending && pending[t.id] == t.time)
      && (forall id :: id in pending ==> (id in Ids(fired) <==> location[id] == L0(s)))
      && |pending - Ids(fired)| == |pending| - |fired|
  {
    var fired := slots.At(L0(s));
    TakeKeeps(slots, occ, mins, location, pending, L0(s));
    SlotEmptied(slots, occ, mins, location, pending, s);
    DropLocations(slots.With(L0(s), []), if fired != [] then occ.Unmark(L0(s)) else occ, mins,
                  location, pending - Ids(fired), Ids(fired));
    FiredTasks(slots, occ, mins, location, pending, s);
  }

  /** The swept slot's bit is cleared only when there was something in it, to the same effect. */
  lemma SlotEmptied(slots: Slots, occ: Occupancy, mins: SlotMins, location: map<nat, Loc>, pending: map<nat, nat>,
                    s: nat)
    requires Consistent(slots, occ, mins, location, pending) && s < 256
    requires Consistent(slots.With(L0(s), []), occ.Unmark(L0(s)), mins.With(L0(s), NO_DEADLINE), location,
                        pending - Ids(slots.At(L0(s))))
    ensures Consistent(slots.With(L0(s), []), if slots.At(L0(s)) != [] then occ.Unmark(L0(s)) else occ, mins, location,
                       pending - Ids(slots.At(L0(s))))
  {
    if slots.At(L0(s)) == [] {
      assert slots.With(L0(s), []) == slots && pending - Ids(slots.At(L0(s))) == pending;
    }
  }

  lemma FiredTasks(slots: Slots, occ: Occupancy, mins: SlotMins, location: map<nat, Loc>, pending: map<nat, nat>,
                   s: nat)
    requires Consistent(slots, occ, mins, location, pending) && s < 256
    ensures var fired := slots.At(L0(s));
      && DistinctIds(fired)
      && (forall t :: t in fired ==> t.id in pending && pending[t.id] == t.time)
      && |pending - Ids(fired)| == |pending| - |fired|
  {
    var fired := slots.At(L0(s));
    assert SlotSound(fired, L0(s), location, pending);
    assert forall i :: 0 <= i < |fired| ==> fired[i] in fired;
    TakenCount(pending, fired);
  }

  lemma StepFromParts(pending: map<nat, nat>, location: map<nat, Loc>, settled: map<nat, Loc>, c: nat, fired: Slot)
    requires location.Keys == settled.Keys == pending.Keys
    requires forall id :: id in pending ==> settled[id] == AfterCascade(location[id], pending[id], c)
    requires DistinctIds(fired) && forall t :: t in fired ==> t.id in pending && pending[t.id] == t.time
    requires forall id :: id in pending ==> (id in Ids(fired) <==> settled[id] == L0(Cursor0(c)))
    ensures Stepped(pending, location, pending - Ids(fired), settled - Ids(fired), c, fired)
  {
  }

  lemma CursorsZero(t: nat)
    ensures t % L0_RANGE == 0 <==> Cursor0(t) == 0
    ensures t % L1_RANGE == 0 <==> Cursor0(t) == 0 && Cursor1(t) == 0
    ensures t % L2_RANGE == 0 <==> Cursor0(t) == 0 && Cursor1(t) == 0 && Cursor2(t) == 0
  {
    LowDigits(t);
    HighDigits(t);
  }

  lemma LowDigits(t: nat)
    ensures t % 16384 == 0 <==> t % 256 == 0 && t / 256 % 64 == 0
  {
    var q, r := t / 256, t % 256;
    var low := 256 * (q % 64) + r;
    assert t == 16384 * (q / 64) + low && low < 16384;
    Remainder1(t, q / 64, low);
  }

  lemma Remainder1(t: nat, a: nat, x: nat)
    requires t == 16384 * a + x && x < 16384
    ensures t % 16384 == x
  {
  }

  lemma HighDigits(t: nat)
    ensures t % 1048576 == 0 <==> t % 16384 == 0 && t / 16384 % 64 == 0
  {
    var q, r := t / 16384, t % 16384;
    var low := 16384 * (q % 64) + r;
    assert t == 1048576 * (q / 64) + low && low < 1048576;
    Remainder2(t, q / 64, low);
  }

  lemma Remainder2(t: nat, a: nat, x: nat)
    requires t == 1048576 * a + x && x < 1048576
    ensures t % 1048576 == x
  {
  }

  lemma IdsPrefix(slot: Slot, i: nat)
    requires i < |slot|
    ensures Ids(slot[..i + 1]) == Ids(slot[..i]) + {slot[i].id}
  {
  }

  lemma {:induction false} IdsCount(slot: Slot)
    requires DistinctIds(slot)
    ensures |Ids(slot)| == |slot|
  {
    AllDiffer(slot);
    if slot != [] {
      var n := |slot| - 1;
      IdsCount(slot[..n]);
      IdsPrefix(slot, n);
      assert slot[..n + 1] == slot;
    }
  }

  lemma TakenCount(pending: map<nat, nat>, slot: Slot)
    requires DistinctIds(slot) && Ids(slot) <= pending.Keys
    ensures |pending - Ids(slot)| == |pending| - |slot|
  {
    IdsCount(slot);
    assert pending.Keys == (pending - Ids(slot)).Keys + Ids(slot);
  }

  /** Every task of `loc` outside `rest` has been re-inserted from time `c`; all others are where they were. */
  ghost predicate Moved(pending: map<nat, nat>, location: map<nat, Loc>, location': map<nat, Loc>,
                        loc: Loc, c: nat, rest: set<nat>) {
    && location'.Keys == location.Keys && pending.Keys <= location.Keys
    && forall id :: id in pending ==>
         location'[id] == if location[id] == loc && id !in rest then Classify(pending[id], c) else location[id]
  }

  lemma MoveOne(pending: map<nat, nat>, location: map<nat, Loc>, location': map<nat, Loc>,
                loc: Loc, c: nat, local: Slot, i: nat)
    requires DistinctIds(local) && i < |local|
    requires Moved(pending, location, location', loc, c, Ids(local[i..]))
    requires SlotSound(local, loc, location, pending)
    ensures Moved(pending, location, location'[local[i].id := Classify(local[i].time, c)], loc, c, Ids(local[i + 1..]))
  {
    DistinctTail(local, i);
    assert local[i] in local;
  }

  /** Putting task `i` back extends the pending map by exactly that id. */
  lemma ReturnTask(pending: map<nat, nat>, local: Slot, i: nat)
    requires DistinctIds(local) && i < |local|
    requires local[i].id in pending && pending[local[i].id] == local[i].time
    ensures local[i].id !in pending - Ids(local[i..])
    ensures (pending - Ids(local[i..]))[local[i].id := local[i].time] == pending - Ids(local[i + 1..])
  {
    DistinctTail(local, i);
  }

  lemma DistinctTail(slot: Slot, i: nat)
    requires DistinctIds(slot) && i < |slot|
    ensures Ids(slot[i..]) == Ids(slot[i + 1..]) + {slot[i].id}
    ensures slot[i].id !in Ids(slot[i + 1..])
  {
    AllDiffer(slot);
  }

  lemma StepKeepsOnTime(pending: map<nat, nat>, location: map<nat, Loc>,
                        pending': map<nat, nat>, location': map<nat, Loc>, c: nat, fired: Slot)
    requires Stepped(pending, location, pending', location', c, fired)
    requires OnTimeFor(pending, location, c)
    ensures OnTimeFor(pending', location', c + 1)
    ensures forall id :: id in pending ==> (id !in pending' <==> pending[id] == c)
  {
    forall id | id in pending
      ensures id !in pending' <==> pending[id] == c
      ensures id in pending' ==> id in location' && OnTime(location'[id], pending'[id], c + 1)
    {
      CascadeSettles(location[id], pending[id], c);
      SettledFiresWhenDue(AfterCascade(location[id], pending[id], c), pending[id], c);
    }
  }

  /** The cached minimum survives an iteration that fires nothing; when tasks fire they hold the minimum. */
  lemma StepKeepsCache(pending: map<nat, nat>, location: map<nat, Loc>, pending': map<nat, nat>,
                       location': map<nat, Loc>, c: nat, fired: Slot, m: nat, dirty: bool)
    requires Stepped(pending, location, pending', location', c, fired)
    requires OnTimeFor(pending, location, c) && CacheFor(pending, m, dirty) && c <= NO_DEADLINE
    ensures if fired != [] && c <= m then CacheFor(pending', NO_DEADLINE, true) else CacheFor(pending', m, dirty)
  {
    StepKeepsOnTime(pending, location, pending', location', c, fired);
    if fired == [] {
      assert forall id :: id in pending ==> Task(id, pending[id]) !in fired;
      assert pending' == pending;
    } else if !dirty && pending != map[] {
      var k :| k in pending && pending[k] == m;
      OnTimeNotPast(location[k], pending[k], c);
    } else {
      assert fired[0] in fired;
    }
  }

  lemma RemovedCount(pending: map<nat, nat>, id: nat)
    requires id in pending
    ensures |pending - {id}| == |pending| - 1
  {
  }

  lemma MinAfterRemove(pending: map<nat, nat>, m: nat, id: nat)
    requires IsMinDeadline(pending, m) && id in pending && m < pending[id]
    ensures IsMinDeadline(pending - {id}, m)
  {
    var k :| k in pending && pending[k] == m;
    assert k in pending - {id};
  }

  lemma MinAfterAdd(pending: map<nat, nat>, m: nat, id: nat, deadline: nat)
    requires IsMinDeadline(pending, m) && id !in pending && deadline < UINT64
    ensures IsMinDeadline(pending[id := deadline], if deadline < m then deadline else m)
  {
    assert id in pending[id := deadline];
    if pending != map[] && !(deadline < m) {
      var k :| k in pending && pending[k] == m;
      assert pending[id := deadline][k] == m;
    }
  }
}
