/** The wheel's stored state as values: slot lists, occupancy bitmaps, per-slot minimum caches and the
    location map, and what it means for them to agree with the plain map id -> deadline. */
module WheelState {
  import opened Bits
  import opened Common
  import opened WheelPlacement

  datatype Task = Task(id: nat, time: nat)
  type Slot = seq<Task>

  /** `wheel0_`, `wheel1_`, `wheel2_`, `overflow_` */
  datatype Slots = Slots(l0: seq<Slot>, l1: seq<Slot>, l2: seq<Slot>, overflow: Slot) {
    predicate Shape() {
      |l0| == 256 && |l1| == 64 && |l2| == 64
    }

    function At(loc: Loc): Slot
      requires Shape() && InRange(loc)
    {
      match loc
      case L0(s) => l0[s]
      case L1(s) => l1[s]
      case L2(s) => l2[s]
      case Overflow => overflow
    }

    function With(loc: Loc, slot: Slot): (r: Slots)
      requires Shape() && InRange(loc)
      ensures r.Shape()
      ensures forall l {:trigger r.At(l)} :: InRange(l) ==> r.At(l) == if l == loc then slot else At(l)
    {
      match loc
      case L0(s) => this.(l0 := l0[s := slot])
      case L1(s) => this.(l1 := l1[s := slot])
      case L2(s) => this.(l2 := l2[s := slot])
      case Overflow => this.(overflow := slot)
    }
  }

  /** `wheel0_occ_`, `wheel1_occ_`, `wheel2_occ_`, `overflow_nonempty_` */
  datatype Occupancy = Occupancy(w0: seq<Word>, w1: Word, w2: Word, overflow: bool) {
    predicate Shape() {
      |w0| == 4
    }

    predicate Has(loc: Loc)
      requires Shape() && InRange(loc)
    {
      match loc
      case L0(s) => Has256(w0, s)
      case L1(s) => w1[s]
      case L2(s) => w2[s]
      case Overflow => overflow
    }

    function Mark(loc: Loc): (r: Occupancy)
      requires Shape() && InRange(loc)
      ensures r.Shape()
      ensures forall l {:trigger r.Has(l)} :: InRange(l) ==> (r.Has(l) <==> l == loc || Has(l))
    {
      match loc
      case L0(s) => this.(w0 := w0[s / 64 := SetBit(w0[s / 64], s % 64)])
      case L1(s) => this.(w1 := SetBit(w1, s))
      case L2(s) => this.(w2 := SetBit(w2, s))
      case Overflow => this.(overflow := true)
    }

    function Unmark(loc: Loc): (r: Occupancy)
      requires Shape() && InRange(loc)
      ensures r.Shape()
      ensures forall l {:trigger r.Has(l)} :: InRange(l) ==> (r.Has(l) <==> l != loc && Has(l))
    {
      match loc
      case L0(s) => this.(w0 := w0[s / 64 := ClearBit(w0[s / 64], s % 64)])
      case L1(s) => this.(w1 := ClearBit(w1, s))
      case L2(s) => this.(w2 := ClearBit(w2, s))
      case Overflow => this.(overflow := false)
    }
  }

  /** `wheel1_slot_min_`, `wheel2_slot_min_`, `overflow_slot_min_`; level 0 needs none. */
  datatype SlotMins = SlotMins(m1: seq<nat>, m2: seq<nat>, overflow: nat) {
    predicate Shape() {
      |m1| == 64 && |m2| == 64
    }

    function At(loc: Loc): nat
      requires Shape() && InRange(loc)
    {
      match loc
      case L0(_) => NO_DEADLINE
      case L1(s) => m1[s]
      case L2(s) => m2[s]
      case Overflow => overflow
    }

    function With(loc: Loc, m: nat): (r: SlotMins)
      requires Shape() && InRange(loc)
      ensures r.Shape()
      ensures forall l {:trigger r.At(l)} :: InRange(l) && !l.L0? ==> r.At(l) == if l == loc then m else At(l)
    {
      match loc
      case L0(_) => this
      case L1(s) => this.(m1 := m1[s := m])
      case L2(s) => this.(m2 := m2[s := m])
      case Overflow => this.(overflow := m)
    }

    /** The `if (deadline < slot_min) slot_min = deadline` of `Insert`. */
    function Lower(loc: Loc, deadline: nat): SlotMins
      requires Shape() && InRange(loc)
    {
      if deadline < At(loc) then With(loc, deadline) else this
    }
  }

  predicate Differ(slot: Slot, i: nat, j: nat)
    requires i < |slot| && j < |slot|
  {
    slot[i].id != slot[j].id
  }

  ghost predicate DistinctIds(slot: Slot) {
    forall i, j {:trigger Differ(slot, i, j)} :: 0 <= i < j < |slot| ==> Differ(slot, i, j)
  }

  lemma AllDiffer(slot: Slot)
    requires DistinctIds(slot)
    ensures forall i, j :: 0 <= i < j < |slot| ==> slot[i].id != slot[j].id
  {
    forall i, j | 0 <= i < j < |slot| ensures slot[i].id != slot[j].id {
      assert Differ(slot, i, j);
    }
  }

  /** `m` is the least deadline of the slot, or `NO_DEADLINE` when the slot has none below it. */
  ghost predicate IsSlotMin(slot: Slot, m: nat) {
    && (forall t :: t in slot ==> m <= t.time)
    && (m == NO_DEADLINE || exists t :: t in slot && t.time == m)
  }

  ghost predicate SlotSound(slot: Slot, loc: Loc, location: map<nat, Loc>, pending: map<nat, nat>) {
    && DistinctIds(slot)
    && forall t :: t in slot ==>
         && t.id in pending && pending[t.id] == t.time
         && t.id in location && location[t.id] == loc
  }

  ghost predicate SlotIndexed(slot: Slot, loc: Loc, occ: Occupancy, mins: SlotMins)
    requires InRange(loc) && occ.Shape() && mins.Shape()
  {
    && (occ.Has(loc) <==> slot != [])
    && (!loc.L0? ==> IsSlotMin(slot, mins.At(loc)))
  }

  ghost predicate Homed(id: nat, slots: Slots, location: map<nat, Loc>, pending: map<nat, nat>)
    requires slots.Shape() && id in pending
  {
    && pending[id] < UINT64
    && id in location && InRange(location[id])
    && Matches(location[id], pending[id])
    && Task(id, pending[id]) in slots.At(location[id])
  }

  /** Slots, bitmaps, minima and locations all describe the same map id -> deadline: each pending id is in
      exactly one slot, the one its location names, and no slot holds anything else. */
  ghost predicate Consistent(slots: Slots, occ: Occupancy, mins: SlotMins,
                             location: map<nat, Loc>, pending: map<nat, nat>) {
    && slots.Shape() && occ.Shape() && mins.Shape()
    && (forall loc {:trigger SlotSound(slots.At(loc), loc, location, pending)} ::
          InRange(loc) ==> SlotSound(slots.At(loc), loc, location, pending))
    && (forall loc {:trigger SlotIndexed(slots.At(loc), loc, occ, mins)} ::
          InRange(loc) ==> SlotIndexed(slots.At(loc), loc, occ, mins))
    && (forall id {:trigger Homed(id, slots, location, pending)} ::
          id in pending ==> Homed(id, slots, location, pending))
  }

  /** Appending a fresh task to the slot its deadline selects. */
  lemma PlaceKeeps(slots: Slots, occ: Occupancy, mins: SlotMins,
                   location: map<nat, Loc>, pending: map<nat, nat>, t: Task, loc: Loc)
    requires Consistent(slots, occ, mins, location, pending)
    requires t.id !in pending && t.time < UINT64 && InRange(loc) && Matches(loc, t.time)
    ensures Consistent(slots.With(loc, slots.At(loc) + [t]), occ.Mark(loc), mins.Lower(loc, t.time),
                       location[t.id := loc], pending[t.id := t.time])
  {
    var slots', occ', mins' := slots.With(loc, slots.At(loc) + [t]), occ.Mark(loc), mins.Lower(loc, t.time);
    var location', pending' := location[t.id := loc], pending[t.id := t.time];
    forall l | InRange(l) ensures SlotSound(slots'.At(l), l, location', pending') {
      assert SlotSound(slots.At(l), l, location, pending);
      AppendSound(slots.At(l), l, location, pending, t, loc);
    }
    forall l | InRange(l) ensures SlotIndexed(slots'.At(l), l, occ', mins') {
      assert SlotIndexed(slots.At(l), l, occ, mins);
      if l == loc && !loc.L0? {
        AppendMin(slots.At(loc), mins.At(loc), t);
      }
    }
    forall id | id in pending' ensures Homed(id, slots', location', pending') {
      if id == t.id {
        assert (slots.At(loc) + [t])[|slots.At(loc)|] == t;
      } else {
        assert Homed(id, slots, location, pending);
      }
    }
  }

  lemma AppendSound(slot: Slot, l: Loc, location: map<nat, Loc>, pending: map<nat, nat>, t: Task, loc: Loc)
    requires SlotSound(slot, l, location, pending) && t.id !in pending
    ensures SlotSound(if l == loc then slot + [t] else slot, l, location[t.id := loc], pending[t.id := t.time])
  {
    AllDiffer(slot);
  }

  lemma AppendMin(slot: Slot, m: nat, t: Task)
    requires IsSlotMin(slot, m) && t.time < UINT64
    ensures IsSlotMin(slot + [t], if t.time < m then t.time else m)
  {
  }

  /** `std::list::erase` of the node holding `id`. */
  function Without(slot: Slot, id: nat): Slot {
    if slot == [] then []
    else if slot[0].id == id then slot[1..]
    else [slot[0]] + Without(slot[1..], id)
  }

  lemma {:induction false} WithoutMember(slot: Slot, id: nat, t: Task)
    requires DistinctIds(slot)
    ensures t in Without(slot, id) <==> t in slot && t.id != id
  {
    AllDiffer(slot);
    if slot != [] {
      WithoutMember(slot[1..], id, t);
      assert slot == [slot[0]] + slot[1..];
    }
  }

  lemma {:induction false} WithoutDistinct(slot: Slot, id: nat)
    requires DistinctIds(slot)
    ensures DistinctIds(Without(slot, id))
  {
    AllDiffer(slot);
    if slot != [] && slot[0].id != id {
      var rest := Without(slot[1..], id);
      WithoutDistinct(slot[1..], id);
      AllDiffer(rest);
      forall j | 0 <= j < |rest| ensures rest[j].id != slot[0].id {
        WithoutMember(slot[1..], id, rest[j]);
      }
    }
  }

  /** Erasing a pending task, given that the caller refreshed that slot's bit and minimum. */
  lemma EraseKeeps(slots: Slots, occ: Occupancy, mins: SlotMins, location: map<nat, Loc>, pending: map<nat, nat>,
                   id: nat, loc: Loc, occ': Occupancy, mins': SlotMins)
    requires Consistent(slots, occ, mins, location, pending)
    requires id in pending && id in location && location[id] == loc && InRange(loc)
    requires occ'.Shape() && mins'.Shape() && SlotIndexed(Without(slots.At(loc), id), loc, occ', mins')
    requires forall l :: InRange(l) && l != loc ==> (occ'.Has(l) <==> occ.Has(l)) && mins'.At(l) == mins.At(l)
    ensures Consistent(slots.With(loc, Without(slots.At(loc), id)), occ', mins', location - {id}, pending - {id})
  {
    var slot, slot' := slots.At(loc), Without(slots.At(loc), id);
    var slots', location', pending' := slots.With(loc, slot'), location - {id}, pending - {id};
    assert SlotSound(slot, loc, location, pending);
    forall l | InRange(l) ensures SlotSound(slots'.At(l), l, location', pending') {
      assert SlotSound(slots.At(l), l, location, pending);
      if l == loc {
        WithoutDistinct(slot, id);
        forall t | t in slot' ensures t in slot && t.id != id { WithoutMember(slot, id, t); }
      }
    }
    forall l | InRange(l) ensures SlotIndexed(slots'.At(l), l, occ', mins') {
      assert SlotIndexed(slots.At(l), l, occ, mins);
    }
    forall k | k in pending' ensures Homed(k, slots', location', pending') {
      assert Homed(k, slots, location, pending);
      if location[k] == loc { WithoutMember(slot, id, Task(k, pending[k])); }
    }
  }

  function Ids(slot: Slot): (ids: set<nat>)
    ensures forall k :: k in ids <==> exists i :: 0 <= i < |slot| && slot[i].id == k
  {
    set i | 0 <= i < |slot| :: slot[i].id
  }

  /** Swapping out a whole slot: its ids leave, and every other task stays where it was. */
  lemma TakeKeeps(slots: Slots, occ: Occupancy, mins: SlotMins,
                  location: map<nat, Loc>, pending: map<nat, nat>, loc: Loc)
    requires Consistent(slots, occ, mins, location, pending) && InRange(loc)
    ensures Consistent(slots.With(loc, []), occ.Unmark(loc), mins.With(loc, NO_DEADLINE),
                       location, pending - Ids(slots.At(loc)))
    ensures forall id :: id in pending ==> id in location && (id in Ids(slots.At(loc)) <==> location[id] == loc)
  {
    var slots', occ', mins' := slots.With(loc, []), occ.Unmark(loc), mins.With(loc, NO_DEADLINE);
    var taken := Ids(slots.At(loc));
    var pending' := pending - taken;
    forall id | id in pending ensures id in location && (id in taken <==> location[id] == loc) {
      assert Homed(id, slots, location, pending);
      assert SlotSound(slots.At(loc), loc, location, pending);
      if location[id] == loc {
        assert Task(id, pending[id]) in slots.At(loc);
      }
    }
    forall l | InRange(l)
      ensures SlotSound(slots'.At(l), l, location, pending') && SlotIndexed(slots'.At(l), l, occ', mins')
    {
      assert SlotSound(slots.At(l), l, location, pending);
      assert SlotIndexed(slots.At(l), l, occ, mins);
    }
    forall k | k in pending' ensures Homed(k, slots', location, pending') {
      assert Homed(k, slots, location, pending);
    }
  }

  /** Locations of ids that are not pending do not matter. */
  lemma DropLocations(slots: Slots, occ: Occupancy, mins: SlotMins,
                      location: map<nat, Loc>, pending: map<nat, nat>, gone: set<nat>)
    requires Consistent(slots, occ, mins, location, pending) && gone !! pending.Keys
    ensures Consistent(slots, occ, mins, location - gone, pending)
  {
    forall l | InRange(l) ensures SlotSound(slots.At(l), l, location - gone, pending) {
      assert SlotSound(slots.At(l), l, location, pending);
    }
    forall k | k in pending ensures Homed(k, slots, location - gone, pending) {
      assert Homed(k, slots, location, pending);
    }
  }
}
