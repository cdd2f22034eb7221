/** `EarliestDeadline`: the minimum read off the occupancy bitmaps and the per-slot minima. */
module WheelMin {
  import opened Bits
  import opened Common
  import opened WheelPlacement
  import opened WheelState
  import opened TimerSpec
  import opened WheelOps

  /** `e` is some pending deadline, or the sentinel. */
  ghost predicate Attained(pending: map<nat, nat>, e: nat) {
    e == NO_DEADLINE || exists id :: id in pending && pending[id] == e
  }

  function Ones(w: Word): set<nat> {
    set s: nat | s < 64 && w[s]
  }

  /** The minimum of `start` and the entries of `mins` at the set bits of `w`, lowest bit first. */
  method MinOverBits(w: Word, mins: seq<nat>, start: nat) returns (e: nat)
    requires |mins| == 64
    ensures e <= start && forall s :: 0 <= s < 64 && w[s] ==> e <= mins[s]
    ensures e == start || exists s :: 0 <= s < 64 && w[s] && mins[s] == e
  {
    e := start;
    var bm := w;
    while bm != ZERO
      invariant e <= start && forall s :: 0 <= s < 64 && w[s] && !bm[s] ==> e <= mins[s]
      invariant e == start || exists s :: 0 <= s < 64 && w[s] && mins[s] == e
      invariant forall s :: 0 <= s < 64 && bm[s] ==> w[s]
      decreases Ones(bm)
    {
      var s := Ctz(bm);
      ghost var before := bm;
      ClearLowest(bm);
      bm := And(bm, MinusOne(bm));
      assert s in Ones(before) && s !in Ones(bm) && Ones(bm) <= Ones(before);
      if mins[s] < e { e := mins[s]; }
    }
  }

  /** The level-0 candidate: first occupied slot from the cursor on, else from the start of the next revolution. */
  method Level0Candidate(occ: Occupancy, c: nat) returns (e: nat)
    requires occ.Shape()
    ensures (exists s :: Level0First(occ, c, s) && e == Level0Time(c, s))
         || (e == NO_DEADLINE && forall j: nat :: j < 256 ==> !occ.Has(L0(j)))
  {
    var cursor := Cursor0(c);
    var s := NextSetFrom256(occ.w0, cursor);
    if s == 256 {
      ghost var none := s;
      assert forall j: nat :: cursor <= j < 256 ==> !Has256(occ.w0, j) && !occ.Has(L0(j));
      s := NextSetFrom256(occ.w0, 0);
      assert forall j: nat :: j < s ==> !Has256(occ.w0, j) && !occ.Has(L0(j));
      if s < cursor {
        assert Level0First(occ, c, s);
        return (c / 256 * 256 + 256) % UINT64 + s;
      }
      return NO_DEADLINE;
    }
    assert forall j: nat :: cursor <= j < s ==> !Has256(occ.w0, j) && !occ.Has(L0(j));
    assert Level0First(occ, c, s);
    return c / 256 * 256 + s;
  }

  /** `s` is the first occupied level-0 slot in firing order from time `c`. */
  ghost predicate Level0First(occ: Occupancy, c: nat, s: nat)
    requires occ.Shape()
  {
    && s < 256 && occ.Has(L0(s))
    && forall j: nat :: j < 256 && occ.Has(L0(j)) ==>
         if s >= c % 256 then j < c % 256 || s <= j else j < c % 256 && s <= j
  }

  function Level0Time(c: nat, s: nat): nat {
    if s >= c % 256 then c / 256 * 256 + s else (c / 256 * 256 + 256) % UINT64 + s
  }

  /** The deadline of an on-time level-0 task is determined by its slot. */
  lemma Level0Deadline(c: nat, d: nat)
    requires c <= d < c + 256 && d < UINT64
    ensures d == Level0Time(c, d % 256)
  {
    if d / 256 == c / 256 {
      assert d % 256 >= c % 256;
    } else {
      assert d / 256 == c / 256 + 1 && d % 256 < c % 256;
    }
  }

  lemma Level0Min(st: Store, pending: map<nat, nat>, c: nat, s: nat)
    requires Agrees(st, pending) && OnTimeFor(pending, st.location, c) && Level0First(st.occ, c, s)
    ensures Attained(pending, Level0Time(c, s))
    ensures forall id :: id in pending && st.location[id].L0? ==> Level0Time(c, s) <= pending[id]
  {
    var slot := st.slots.At(L0(s));
    assert SlotSound(slot, L0(s), st.location, pending) && SlotIndexed(slot, L0(s), st.occ, st.mins);
    var t := slot[0];
    assert t in slot && Homed(t.id, st.slots, st.location, pending);
    assert OnTime(st.location[t.id], pending[t.id], c);
    Level0Deadline(c, t.time);
    forall id | id in pending && st.location[id].L0? ensures Level0Time(c, s) <= pending[id] {
      Level0Later(st, pending, c, s, id);
    }
  }

  lemma Level0Later(st: Store, pending: map<nat, nat>, c: nat, s: nat, id: nat)
    requires Agrees(st, pending) && OnTimeFor(pending, st.location, c) && Level0First(st.occ, c, s)
    requires id in pending && st.location[id].L0? && Level0Time(c, s) < UINT64
    ensures Level0Time(c, s) <= pending[id]
  {
    var loc := st.location[id];
    Occupied(st, pending, id);
    assert OnTime(loc, pending[id], c);
    Level0Deadline(c, pending[id]);
    assert st.occ.Has(L0(pending[id] % 256));
  }

  /** A pending timer's slot is marked occupied, and its cached minimum is no later than the timer. */
  lemma Occupied(st: Store, pending: map<nat, nat>, id: nat)
    requires Agrees(st, pending) && id in pending
    ensures InRange(st.location[id]) && st.occ.Has(st.location[id]) && pending[id] < UINT64
    ensures !st.location[id].L0? ==> st.mins.At(st.location[id]) <= pending[id]
  {
    assert Homed(id, st.slots, st.location, pending);
    var loc := st.location[id];
    assert SlotIndexed(st.slots.At(loc), loc, st.occ, st.mins);
  }

  lemma NoLevel0(st: Store, pending: map<nat, nat>)
    requires Agrees(st, pending) && forall j: nat :: j < 256 ==> !st.occ.Has(L0(j))
    ensures forall id :: id in pending ==> !st.location[id].L0?
  {
    forall id | id in pending ensures !st.location[id].L0? {
      Occupied(st, pending, id);
    }
  }

  lemma MinAttained(st: Store, pending: map<nat, nat>, loc: Loc)
    requires Agrees(st, pending) && InRange(loc) && !loc.L0?
    ensures Attained(pending, st.mins.At(loc))
  {
    var slot := st.slots.At(loc);
    assert SlotSound(slot, loc, st.location, pending) && SlotIndexed(slot, loc, st.occ, st.mins);
    if st.mins.At(loc) != NO_DEADLINE {
      var t :| t in slot && t.time == st.mins.At(loc);
      assert t.id in pending;
    }
  }

  /** `m` is the first time from `c` on at which a slot with a level-0 timer is swept. */
  ghost predicate SweepsFirst(pending: map<nat, nat>, location: map<nat, Loc>, c: nat, m: nat) {
    && (forall id :: id in pending && id in location && location[id].L0? ==> m <= Upcoming0(pending[id], c))
    && exists id :: id in pending && id in location && location[id].L0? && Upcoming0(pending[id], c) == m
  }

  /** The level-0 candidate of a wheel at time `c`, in 64 bits: the next sweep that finds a timer, or the sentinel. */
  ghost predicate NextSweep(pending: map<nat, nat>, location: map<nat, Loc>, c: nat, e: nat) {
    if forall id :: id in pending && id in location ==> !location[id].L0? then e == NO_DEADLINE
    else exists m: nat :: SweepsFirst(pending, location, c, m) && e == m % UINT64
  }

  /** `e` is the least of `e0` and the deadlines outside level 0. */
  ghost predicate LeastWith(pending: map<nat, nat>, location: map<nat, Loc>, e0: nat, e: nat) {
    && e <= e0 && (forall id :: id in pending && id in location && !location[id].L0? ==> e <= pending[id])
    && (e == e0 || exists id :: id in pending && id in location && !location[id].L0? && pending[id] == e)
  }

  /** The answer in any state, late timers included: level 0 counts with its next sweep, the rest with its deadlines. */
  ghost predicate IsEarliest(pending: map<nat, nat>, location: map<nat, Loc>, c: nat, e: nat) {
    exists e0: nat :: NextSweep(pending, location, c, e0) && LeastWith(pending, location, e0, e)
  }

  lemma {:induction false} SlotSweep(c: nat, d: nat)
    requires c < UINT64
    ensures Level0Time(c, d % 256) == Upcoming0(d, c) % UINT64
    ensures Upcoming0(d, c) == SweepTime(c, d % 256)
  {
    SweepOf(d / 256, d % 256, c / 256, c % 256);
    assert c == 256 * (c / 256) + c % 256 && d == 256 * (d / 256) + d % 256;
    Wraps(c / 256, c % 256, d % 256);
  }

  /** The next time a level-0 slot is swept. */
  function SweepTime(c: nat, s: nat): nat {
    if s >= c % 256 then c / 256 * 256 + s else c / 256 * 256 + 256 + s
  }

  lemma {:induction false} Wraps(p: nat, r: nat, s: nat)
    requires p * 256 + r < UINT64 && r < 256 && s < 256
    ensures p * 256 + 256 <= UINT64
    ensures (p * 256 + 256) % UINT64 + s == (p * 256 + 256 + s) % UINT64
    ensures p * 256 + s < UINT64
  {
  }

  lemma {:induction false} SweepOf(q: int, r: nat, p: nat, s: nat)
    requires r < 256 && s < 256
    ensures (256 * q + r - (256 * p + s)) % 256 == if r >= s then r - s else r - s + 256
  {
  }

  lemma {:induction false} NextSweepIs(st: Store, pending: map<nat, nat>, c: nat, s: nat)
    requires Agrees(st, pending) && Level0First(st.occ, c, s) && c < UINT64
    ensures NextSweep(pending, st.location, c, Level0Time(c, s))
  {
    var slot := st.slots.At(L0(s));
    assert SlotSound(slot, L0(s), st.location, pending) && SlotIndexed(slot, L0(s), st.occ, st.mins);
    var t := slot[0];
    assert t in slot && Homed(t.id, st.slots, st.location, pending);
    var m := Upcoming0(pending[t.id], c);
    SlotSweep(c, pending[t.id]);
    forall id | id in pending && id in st.location && st.location[id].L0? ensures m <= Upcoming0(pending[id], c) {
      assert Homed(id, st.slots, st.location, pending);
      Occupied(st, pending, id);
      SlotSweep(c, pending[id]);
    }
    assert SweepsFirst(pending, st.location, c, m);
  }

  lemma {:induction false} LeastFromLevels(st: Store, pending: map<nat, nat>, e0: nat, e1: nat, e2: nat, e: nat)
    requires Agrees(st, pending) && e <= e2 <= e1 <= e0
    requires forall s :: 0 <= s < 64 && st.occ.w1[s] ==> e1 <= st.mins.m1[s]
    requires forall s :: 0 <= s < 64 && st.occ.w2[s] ==> e2 <= st.mins.m2[s]
    requires st.occ.overflow ==> e <= st.mins.overflow
    requires e1 == e0 || exists s :: 0 <= s < 64 && st.occ.w1[s] && st.mins.m1[s] == e1
    requires e2 == e1 || exists s :: 0 <= s < 64 && st.occ.w2[s] && st.mins.m2[s] == e2
    requires e == e2 || (st.occ.overflow && st.mins.overflow == e)
    ensures LeastWith(pending, st.location, e0, e)
  {
    forall id | id in pending && !st.location[id].L0? ensures e <= pending[id] {
      Occupied(st, pending, id);
    }
    if e1 != e0 && e2 == e1 && e == e2 {
      var s :| 0 <= s < 64 && st.occ.w1[s] && st.mins.m1[s] == e1;
      MinHolder(st, pending, L1(s));
    } else if e2 != e1 && e == e2 {
      var s :| 0 <= s < 64 && st.occ.w2[s] && st.mins.m2[s] == e2;
      MinHolder(st, pending, L2(s));
    } else if e != e2 {
      MinHolder(st, pending, Overflow);
    }
  }

  /** An occupied slot outside level 0 holds a timer with its cached minimum. */
  lemma {:induction false} MinHolder(st: Store, pending: map<nat, nat>, loc: Loc)
    requires Agrees(st, pending) && InRange(loc) && !loc.L0? && st.occ.Has(loc)
    ensures exists id :: id in pending && id in st.location && st.location[id] == loc && pending[id] == st.mins.At(loc)
  {
    var slot := st.slots.At(loc);
    assert SlotSound(slot, loc, st.location, pending) && SlotIndexed(slot, loc, st.occ, st.mins);
    var first := slot[0];
    assert first in slot && Homed(first.id, st.slots, st.location, pending);
    var t :| t in slot && t.time == st.mins.At(loc);
    assert t.id in pending;
  }

  /** In any state the answer of `IsEarliest`; in a store whose tasks are all on time, the minimum over all pending
      deadlines. */
  method EarliestDeadline(st: Store, ghost pending: map<nat, nat>, c: nat) returns (e: nat)
    requires Agrees(st, pending)
    ensures OnTimeFor(pending, st.location, c) ==> IsMinDeadline(pending, e)
    ensures c < UINT64 ==> IsEarliest(pending, st.location, c, e)
  {
    var e0 := Level0Candidate(st.occ, c);
    var e1 := MinOverBits(st.occ.w1, st.mins.m1, e0);
    var e2 := MinOverBits(st.occ.w2, st.mins.m2, e1);
    e := e2;
    if st.occ.overflow && st.mins.overflow < e {
      e := st.mins.overflow;
    }
    if OnTimeFor(pending, st.location, c) {
      if s: nat :| Level0First(st.occ, c, s) && e0 == Level0Time(c, s) {
        Level0Min(st, pending, c, s);
      } else {
        NoLevel0(st, pending);
      }
      MinFromLevels(st, pending, e0, e1, e2, e);
    }
    if c < UINT64 {
      if s: nat :| Level0First(st.occ, c, s) && e0 == Level0Time(c, s) {
        NextSweepIs(st, pending, c, s);
      } else {
        NoLevel0(st, pending);
      }
      LeastFromLevels(st, pending, e0, e1, e2, e);
    }
  }

  lemma MinFromLevels(st: Store, pending: map<nat, nat>, e0: nat, e1: nat, e2: nat, e: nat)
    requires Agrees(st, pending)
    requires e <= e2 <= e1 <= e0 && Attained(pending, e0)
    requires forall id :: id in pending && st.location[id].L0? ==> e0 <= pending[id]
    requires forall s :: 0 <= s < 64 && st.occ.w1[s] ==> e1 <= st.mins.m1[s]
    requires forall s :: 0 <= s < 64 && st.occ.w2[s] ==> e2 <= st.mins.m2[s]
    requires st.occ.overflow ==> e <= st.mins.overflow
    requires e1 == e0 || exists s :: 0 <= s < 64 && st.occ.w1[s] && st.mins.m1[s] == e1
    requires e2 == e1 || exists s :: 0 <= s < 64 && st.occ.w2[s] && st.mins.m2[s] == e2
    requires e == e2 || st.mins.overflow == e
    ensures IsMinDeadline(pending, e)
  {
    forall id | id in pending ensures e <= pending[id] {
      Occupied(st, pending, id);
    }
    if e1 != e0 {
      var s :| 0 <= s < 64 && st.mins.m1[s] == e1;
      MinAttained(st, pending, L1(s));
    }
    if e2 != e1 {
      var s :| 0 <= s < 64 && st.mins.m2[s] == e2;
      MinAttained(st, pending, L2(s));
    }
    MinAttained(st, pending, Overflow);
    if pending != map[] && e == NO_DEADLINE {
      var id :| id in pending;
      Occupied(st, pending, id);
    }
  }
}
