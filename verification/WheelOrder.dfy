/** The order in which the wheel runs timers that are due at the same time: what the slot lists hold, in order, after
    any number of iterations, and which of two equal deadlines comes first. */
module WheelOrder {
  import opened Common
  import opened WheelPlacement
  import opened WheelState
  import opened TimerSpec

  /** The slot lists after `Insert` of a task at `loc`, and after the erasure of one there. */
  function Appended(slots: Slots, loc: Loc, t: Task): (r: Slots)
    requires slots.Shape() && InRange(loc)
    ensures r.Shape()
  {
    slots.With(loc, slots.At(loc) + [t])
  }

  function Unlinked(slots: Slots, loc: Loc, id: nat): (r: Slots)
    requires slots.Shape() && InRange(loc)
    ensures r.Shape()
  {
    slots.With(loc, Without(slots.At(loc), id))
  }

  /** Re-insertion of a slot's tasks, first to last, each at the end of the slot its distance from `c` selects. */
  function Dealt(slots: Slots, local: Slot, c: nat): (r: Slots)
    requires slots.Shape()
    ensures r.Shape()
  {
    if local == [] then slots
    else
      var t := local[|local| - 1];
      Appended(Dealt(slots, local[..|local| - 1], c), Classify(t.time, c), t)
  }

  lemma {:induction false} DealtNext(slots: Slots, local: Slot, c: nat, i: nat)
    requires slots.Shape() && i < |local|
    ensures Dealt(slots, local[..i + 1], c)
         == Appended(Dealt(slots, local[..i], c), Classify(local[i].time, c), local[i])
  {
    assert local[..i + 1][..i] == local[..i];
  }

  /** The slot lists after `Cascade`. */
  function CascadeSlot(slots: Slots, loc: Loc, c: nat): (r: Slots)
    requires slots.Shape() && InRange(loc)
    ensures r.Shape()
  {
    Dealt(slots.With(loc, []), slots.At(loc), c)
  }

  /** The slot lists after the cascades of time `c`: overflow, then level 2, then level 1. */
  function Stage3(slots: Slots, c: nat): (r: Slots)
    requires slots.Shape()
    ensures r.Shape()
  {
    if c % L2_RANGE == 0 then CascadeSlot(slots, Overflow, c) else slots
  }

  function Stage2(slots: Slots, c: nat): (r: Slots)
    requires slots.Shape()
    ensures r.Shape()
  {
    if c % L1_RANGE == 0 then CascadeSlot(Stage3(slots, c), L2(Cursor2(c)), c) else Stage3(slots, c)
  }

  function Cascaded(slots: Slots, c: nat): (r: Slots)
    requires slots.Shape()
    ensures r.Shape()
  {
    if c % L0_RANGE == 0 then CascadeSlot(Stage2(slots, c), L1(Cursor1(c)), c) else Stage2(slots, c)
  }

  /** What the iteration for time `c` runs, in order, and what it leaves. */
  function Batch(slots: Slots, c: nat): Slot
    requires slots.Shape()
  {
    Cascaded(slots, c).At(L0(Cursor0(c)))
  }

  function Swept(slots: Slots, c: nat): (r: Slots)
    requires slots.Shape()
    ensures r.Shape()
  {
    Cascaded(slots, c).With(L0(Cursor0(c)), [])
  }

  /** The log records of one iteration. */
  function Log(batch: Slot, at: nat): (r: seq<Fired>)
    ensures |r| == |batch|
    ensures forall i :: 0 <= i < |batch| ==> r[i] == Fired(batch[i].id, batch[i].time, at)
  {
    seq(|batch|, i requires 0 <= i < |batch| => Fired(batch[i].id, batch[i].time, at))
  }

  /** The tasks of a slot that go to `loc`, in order. */
  function Picked(local: Slot, loc: Loc, c: nat): Slot {
    if local == [] then []
    else
      var t := local[|local| - 1];
      Picked(local[..|local| - 1], loc, c) + if Classify(t.time, c) == loc then [t] else []
  }

  lemma {:induction false} DealtAt(slots: Slots, local: Slot, c: nat, l: Loc)
    requires slots.Shape() && InRange(l)
    ensures Dealt(slots, local, c).At(l) == slots.At(l) + Picked(local, l, c)
  {
    if local == [] {
      assert slots.At(l) + [] == slots.At(l);
    } else {
      var n := |local| - 1;
      DealtAt(slots, local[..n], c, l);
      if Classify(local[n].time, c) == l {
        assert slots.At(l) + Picked(local[..n], l, c) + [local[n]]
            == slots.At(l) + (Picked(local[..n], l, c) + [local[n]]);
      } else {
        assert Picked(local[..n], l, c) + [] == Picked(local[..n], l, c);
      }
    }
  }

  /** A cascade appends to every slot, in order, what it gets, and empties its own first. */
  lemma {:induction false} CascadeSlotAt(slots: Slots, loc: Loc, c: nat, l: Loc)
    requires slots.Shape() && InRange(loc) && InRange(l)
    ensures CascadeSlot(slots, loc, c).At(l)
         == (if l == loc then [] else slots.At(l)) + Picked(slots.At(loc), l, c)
  {
    DealtAt(slots.With(loc, []), slots.At(loc), c, l);
  }

  /** `a` comes before `b` in a list. */
  ghost predicate Precedes(slot: Slot, a: Task, b: Task) {
    exists i, j :: 0 <= i < j < |slot| && slot[i] == a && slot[j] == b
  }

  lemma {:induction false} PrecedesJoined(s: Slot, t: Slot, a: Task, b: Task)
    ensures Precedes(s, a, b) ==> Precedes(s + t, a, b)
    ensures Precedes(t, a, b) ==> Precedes(s + t, a, b)
    ensures a in s && b in t ==> Precedes(s + t, a, b)
  {
    var all := s + t;
    if Precedes(s, a, b) {
      var i, j :| 0 <= i < j < |s| && s[i] == a && s[j] == b;
      assert all[i] == a && all[j] == b;
    }
    if Precedes(t, a, b) {
      var i, j :| 0 <= i < j < |t| && t[i] == a && t[j] == b;
      assert all[|s| + i] == a && all[|s| + j] == b;
    }
    if a in s && b in t {
      var i :| 0 <= i < |s| && s[i] == a;
      var j :| 0 <= j < |t| && t[j] == b;
      assert all[i] == a && all[|s| + j] == b;
    }
  }

  lemma {:induction false} PickedHas(local: Slot, loc: Loc, c: nat, a: Task)
    requires a in local && Classify(a.time, c) == loc
    ensures a in Picked(local, loc, c)
  {
    var n := |local| - 1;
    if local[n] != a {
      assert a in local[..n];
      PickedHas(local[..n], loc, c, a);
    }
  }

  /** Tasks that go to the same slot get there in the order they had. */
  lemma {:induction false} PickedOrder(local: Slot, loc: Loc, c: nat, a: Task, b: Task)
    requires Precedes(local, a, b) && Classify(a.time, c) == loc == Classify(b.time, c)
    ensures Precedes(Picked(local, loc, c), a, b)
  {
    var i, j :| 0 <= i < j < |local| && local[i] == a && local[j] == b;
    var n := |local| - 1;
    var init := local[..n];
    var last: Slot := if Classify(local[n].time, c) == loc then [local[n]] else [];
    PrecedesJoined(Picked(init, loc, c), last, a, b);
    if j < n {
      assert init[i] == a && init[j] == b;
      PickedOrder(init, loc, c, a, b);
    } else {
      assert init[i] == a;
      PickedHas(init, loc, c, a);
    }
  }

  /** Where a cascade of `loc` at time `c` takes a timer. */
  function Taken(l: Loc, loc: Loc, d: nat, c: nat): Loc {
    if l == loc then Classify(d, c) else l
  }

  /** A cascade keeps every timer, at the place the single-timer path says, and keeps two timers of the same deadline
      in the same place in order. */
  lemma {:induction false} CascadeKeepsOrder(slots: Slots, loc: Loc, c: nat, l: Loc, a: Task, b: Task)
    requires slots.Shape() && InRange(loc) && InRange(l) && a in slots.At(l) && a.time == b.time
    ensures var l' := Taken(l, loc, a.time, c);
      && InRange(l') && a in CascadeSlot(slots, loc, c).At(l')
      && (Precedes(slots.At(l), a, b) ==> Precedes(CascadeSlot(slots, loc, c).At(l'), a, b))
  {
    var l', local := Taken(l, loc, a.time, c), slots.At(loc);
    CascadeSlotAt(slots, loc, c, l');
    var kept: Slot := if l' == loc then [] else slots.At(l');
    PrecedesJoined(kept, Picked(local, l', c), a, b);
    if l == loc {
      PickedHas(local, l', c, a);
      if Precedes(local, a, b) { PickedOrder(local, l', c, a, b); }
    }
  }

  /** A timer that a cascade brings to a place comes behind the ones that are there. */
  lemma {:induction false} CascadeComesBehind(slots: Slots, loc: Loc, c: nat, l: Loc, a: Task, b: Task)
    requires slots.Shape() && InRange(loc) && InRange(l) && l != loc && a in slots.At(l) && b in slots.At(loc)
    requires Classify(b.time, c) == l
    ensures Precedes(CascadeSlot(slots, loc, c).At(l), a, b)
  {
    CascadeSlotAt(slots, loc, c, l);
    PickedHas(slots.At(loc), l, c, b);
    PrecedesJoined(slots.At(l), Picked(slots.At(loc), l, c), a, b);
  }

  /** Two tasks are logged, `a` before `b`. */
  ghost predicate LoggedBefore(log: seq<Fired>, a: Task, b: Task) {
    exists i, j :: 0 <= i < j < |log| && Entry(log[i], a) && Entry(log[j], b)
  }

  predicate Entry(f: Fired, t: Task) {
    f.id == t.id && f.deadline == t.time
  }

  lemma {:induction false} LogJoined(log: seq<Fired>, batch: Slot, at: nat, a: Task, b: Task)
    ensures LoggedBefore(log, a, b) ==> LoggedBefore(log + Log(batch, at), a, b)
    ensures Precedes(batch, a, b) ==> LoggedBefore(log + Log(batch, at), a, b)
  {
    var all := log + Log(batch, at);
    if LoggedBefore(log, a, b) {
      var i, j :| 0 <= i < j < |log| && Entry(log[i], a) && Entry(log[j], b);
      assert all[i] == log[i] && all[j] == log[j];
    }
    if Precedes(batch, a, b) {
      var i, j :| 0 <= i < j < |batch| && batch[i] == a && batch[j] == b;
      assert Entry(all[|log| + i], a) && Entry(all[|log| + j], b);
    }
  }

  /** Some slot has `a` before `b`. */
  ghost predicate Together(slots: Slots, a: Task, b: Task)
    requires slots.Shape()
  {
    exists l: Loc :: InRange(l) && Precedes(slots.At(l), a, b)
  }

  lemma {:induction false} CascadeTogether(slots: Slots, loc: Loc, c: nat, a: Task, b: Task)
    requires slots.Shape() && InRange(loc) && Together(slots, a, b) && a.time == b.time
    ensures Together(CascadeSlot(slots, loc, c), a, b)
  {
    var l: Loc :| InRange(l) && Precedes(slots.At(l), a, b);
    CascadeKeepsOrder(slots, loc, c, l, a, b);
  }

  lemma {:induction false} CascadedTogether(slots: Slots, c: nat, a: Task, b: Task)
    requires slots.Shape() && Together(slots, a, b) && a.time == b.time
    ensures Together(Cascaded(slots, c), a, b)
  {
    if c % L2_RANGE == 0 { CascadeTogether(slots, Overflow, c, a, b); }
    if c % L1_RANGE == 0 { CascadeTogether(Stage3(slots, c), L2(Cursor2(c)), c, a, b); }
    if c % L0_RANGE == 0 { CascadeTogether(Stage2(slots, c), L1(Cursor1(c)), c, a, b); }
  }

  /** Two timers of the same deadline that are in one slot, on time or not, stay together until they run, and run in
      the order in which they stand there. */
  lemma {:induction false} TogetherStep(log: seq<Fired>, slots: Slots, c: nat, a: Task, b: Task)
    requires slots.Shape() && a.time == b.time && (LoggedBefore(log, a, b) || Together(slots, a, b))
    ensures LoggedBefore(log + Log(Batch(slots, c), c), a, b) || Together(Swept(slots, c), a, b)
  {
    LogJoined(log, Batch(slots, c), c, a, b);
    if Together(slots, a, b) {
      SweepTogether(slots, c, a, b);
    }
  }

  lemma {:induction false} SweepTogether(slots: Slots, c: nat, a: Task, b: Task)
    requires slots.Shape() && Together(slots, a, b) && a.time == b.time
    ensures Precedes(Batch(slots, c), a, b) || Together(Swept(slots, c), a, b)
  {
    CascadedTogether(slots, c, a, b);
    TakeOut(Cascaded(slots, c), L0(Cursor0(c)), a, b);
  }

  lemma {:induction false} TakeOut(slots: Slots, loc: Loc, a: Task, b: Task)
    requires slots.Shape() && InRange(loc) && Together(slots, a, b)
    ensures Precedes(slots.At(loc), a, b) || Together(slots.With(loc, []), a, b)
  {
    var l: Loc :| InRange(l) && Precedes(slots.At(l), a, b);
    if l != loc {
      assert slots.With(loc, []).At(l) == slots.At(l);
    }
  }

  function Level(loc: Loc): nat {
    match loc
    case L0(_) => 0
    case L1(_) => 1
    case L2(_) => 2
    case Overflow => 3
  }

  /** Of two places for deadline `d`, whether the lower one's timer runs first: always, unless the boundary that
      brings the higher one down coincides with the next one, whose cascade comes later in the same iteration. */
  predicate LowerFirst(low: nat, d: nat) {
    if low == 0 then true
    else if low == 1 then d / 16384 * 16384 != d / 256 * 256
    else d / 1048576 * 1048576 != d / 16384 * 16384
  }

  /** Of two timers for `d` in different places, the one at `la` runs first. */
  predicate PlaceFirst(la: Loc, lb: Loc, d: nat) {
    if Level(la) < Level(lb) then LowerFirst(Level(la), d) else !LowerFirst(Level(lb), d)
  }

  /** On time, and within one revolution of its level. */
  predicate Near(loc: Loc, d: nat, c: nat) {
    && OnTime(loc, d, c)
    && (loc.L1? ==> d / 256 * 256 < c + L1_RANGE)
    && (loc.L2? ==> d / 16384 * 16384 < c + L2_RANGE)
  }

  /** What the cascades down to a level have brought about at time `c`. */
  predicate Past3(loc: Loc, d: nat, c: nat) {
    Near(loc, d, c) && (loc.Overflow? ==> c < d / 1048576 * 1048576)
  }

  predicate Past2(loc: Loc, d: nat, c: nat) {
    Past3(loc, d, c) && (loc.L2? ==> c < d / 16384 * 16384)
  }

  predicate Past1(loc: Loc, d: nat, c: nat) {
    Past2(loc, d, c) && (loc.L1? ==> c < d / 256 * 256)
  }

  /** The task lists put `a` before `b`: in one place by their order there, in two by their places. */
  ghost predicate Ahead(slots: Slots, la: Loc, a: Task, lb: Loc, b: Task)
    requires slots.Shape() && InRange(la) && InRange(lb)
  {
    && a.time == b.time && a in slots.At(la) && b in slots.At(lb)
    && if la == lb then Precedes(slots.At(la), a, b) else PlaceFirst(la, lb, a.time)
  }

  /** What a cascade of `loc` does to the order of two places. */
  predicate PlacesKept(la: Loc, lb: Loc, loc: Loc, d: nat, c: nat) {
    var la', lb' := Taken(la, loc, d, c), Taken(lb, loc, d, c);
    && InRange(la') && InRange(lb')
    && (la == lb ==> la' == lb')
    && (la != lb && la == loc ==>
          if la' == lb' then !PlaceFirst(la, lb, d) else PlaceFirst(la', lb', d) == PlaceFirst(la, lb, d))
    && (la != lb && lb == loc ==> la' == lb' || PlaceFirst(la', lb', d) == PlaceFirst(la, lb, d))
  }

  lemma {:induction false} CascadeKeepsAhead(slots: Slots, loc: Loc, c: nat, la: Loc, a: Task, lb: Loc, b: Task)
    requires slots.Shape() && InRange(loc) && InRange(la) && InRange(lb) && Ahead(slots, la, a, lb, b)
    requires PlacesKept(la, lb, loc, a.time, c)
    ensures Ahead(CascadeSlot(slots, loc, c), Taken(la, loc, a.time, c), a, Taken(lb, loc, b.time, c), b)
  {
    CascadeKeepsOrder(slots, loc, c, la, a, b);
    CascadeKeepsOrder(slots, loc, c, lb, b, a);
    if la != lb && lb == loc && Classify(b.time, c) == la {
      CascadeComesBehind(slots, loc, c, la, a, b);
    }
  }

  /** The boundary of a level that is visited at `c` is this deadline's own, for a near timer. */
  lemma {:induction false} Own1(d: nat, c: nat)
    requires c % 256 == 0 && c / 256 % 64 == d / 256 % 64 && c <= d / 256 * 256 < c + 16384
    ensures c == d / 256 * 256
  {
    Digit1(d, c);
  }

  lemma {:induction false} Own2(d: nat, c: nat)
    requires c % 16384 == 0 && c / 16384 % 64 == d / 16384 % 64 && c <= d / 16384 * 16384 < c + 1048576
    ensures c == d / 16384 * 16384
  {
    Digit2(d, c);
  }

  /** The boundaries of a deadline, coarsest first. */
  lemma {:induction false} Boundaries(d: nat)
    ensures d / 1048576 * 1048576 <= d / 16384 * 16384 <= d / 256 * 256 <= d < d / 256 * 256 + 256
    ensures d < d / 16384 * 16384 + 16384 && d < d / 1048576 * 1048576 + 1048576
    ensures d / 16384 * 16384 == d / 256 * 256 <==> d < d / 16384 * 16384 + 256
    ensures d / 1048576 * 1048576 == d / 16384 * 16384 <==> d < d / 1048576 * 1048576 + 16384
  {
    Nested1(d);
    Nested2(d);
  }

  lemma {:induction false} Nested1(d: nat)
    ensures d / 16384 * 16384 <= d / 256 * 256 <= d < d / 256 * 256 + 256 && d < d / 16384 * 16384 + 16384
    ensures d / 16384 * 16384 == d / 256 * 256 <==> d < d / 16384 * 16384 + 256
  {
    var q, r := d / 16384, d % 16384;
    assert d == 256 * (64 * q) + r;
    Quotient1(d, 64 * q, r);
  }

  lemma {:induction false} Quotient1(d: nat, a: nat, r: nat)
    requires d == 256 * a + r
    ensures d / 256 == a + r / 256
  {
  }

  lemma {:induction false} Nested2(d: nat)
    ensures d / 1048576 * 1048576 <= d / 16384 * 16384 && d < d / 1048576 * 1048576 + 1048576
    ensures d / 1048576 * 1048576 == d / 16384 * 16384 <==> d < d / 1048576 * 1048576 + 16384
  {
    var q, r := d / 1048576, d % 1048576;
    assert d == 16384 * (64 * q) + r;
    Quotient2(d, 64 * q, r);
  }

  lemma {:induction false} Quotient2(d: nat, a: nat, r: nat)
    requires d == 16384 * a + r
    ensures d / 16384 == a + r / 16384
  {
  }

  lemma {:induction false} Lower3(la: Loc, lb: Loc, d: nat, c: nat)
    requires c % L2_RANGE == 0 && Near(la, d, c) && Near(lb, d, c)
    ensures PlacesKept(la, lb, Overflow, d, c) && Past3(Taken(la, Overflow, d, c), d, c)
  {
    Boundaries(d);
    OverflowStep(d, c);
  }

  /** Overflow at a boundary of its own: down to where its distance says, or it stays. */
  lemma {:induction false} OverflowStep(d: nat, c: nat)
    requires c % L2_RANGE == 0
    ensures c <= d / 1048576 * 1048576 ==> c == d / 1048576 * 1048576 || c + L2_RANGE <= d
  {
    assert c == 1048576 * (c / 1048576);
    assert d / 1048576 > c / 1048576 ==> d / 1048576 * 1048576 >= c + 1048576;
  }

  lemma {:induction false} Lower2(la: Loc, lb: Loc, d: nat, c: nat)
    requires c % L1_RANGE == 0 && Past3(la, d, c) && Past3(lb, d, c)
    ensures PlacesKept(la, lb, L2(Cursor2(c)), d, c) && Past2(Taken(la, L2(Cursor2(c)), d, c), d, c)
  {
    Boundaries(d);
    if la == L2(Cursor2(c)) || lb == L2(Cursor2(c)) {
      Own2(d, c);
    }
    OwnVisit2(d, c);
  }

  lemma {:induction false} OwnVisit2(d: nat, c: nat)
    ensures c == d / 16384 * 16384 ==> c / 16384 % 64 == d / 16384 % 64
  {
  }

  lemma {:induction false} Lower1(la: Loc, lb: Loc, d: nat, c: nat)
    requires c % L0_RANGE == 0 && Past2(la, d, c) && Past2(lb, d, c)
    ensures PlacesKept(la, lb, L1(Cursor1(c)), d, c) && Past1(Taken(la, L1(Cursor1(c)), d, c), d, c)
  {
    Boundaries(d);
    if la == L1(Cursor1(c)) || lb == L1(Cursor1(c)) {
      Own1(d, c);
    }
    OwnVisit1(d, c);
  }

  lemma {:induction false} OwnVisit1(d: nat, c: nat)
    ensures c == d / 256 * 256 ==> c / 256 % 64 == d / 256 % 64
  {
  }

  /** Two near timers of the same deadline, `a` before `b`. */
  ghost predicate Leads(slots: Slots, c: nat, a: Task, b: Task)
    requires slots.Shape()
  {
    exists la: Loc, lb: Loc :: InRange(la) && InRange(lb) && LeadsFrom(slots, c, la, a, lb, b)
  }

  ghost predicate LeadsFrom(slots: Slots, c: nat, la: Loc, a: Task, lb: Loc, b: Task)
    requires slots.Shape() && InRange(la) && InRange(lb)
  {
    Ahead(slots, la, a, lb, b) && Near(la, a.time, c) && Near(lb, b.time, c)
  }

  /** Off a boundary nothing of that level is due to come down. */
  lemma {:induction false} Skip3(l: Loc, d: nat, c: nat)
    requires c % L2_RANGE != 0 && Near(l, d, c)
    ensures Past3(l, d, c)
  {
    if c == d / 1048576 * 1048576 { Visit3(d, c); }
  }

  lemma {:induction false} Skip2(l: Loc, d: nat, c: nat)
    requires c % L1_RANGE != 0 && Past3(l, d, c)
    ensures Past2(l, d, c)
  {
    if c == d / 16384 * 16384 { Visit2(d, c); }
  }

  lemma {:induction false} Skip1(l: Loc, d: nat, c: nat)
    requires c % L0_RANGE != 0 && Past2(l, d, c)
    ensures Past1(l, d, c)
  {
    if c == d / 256 * 256 { Visit1(d, c); }
  }

  lemma {:induction false} Stage3Ahead(slots: Slots, c: nat, la: Loc, a: Task, lb: Loc, b: Task)
    returns (la': Loc, lb': Loc)
    requires slots.Shape() && InRange(la) && InRange(lb) && Ahead(slots, la, a, lb, b)
    requires Near(la, a.time, c) && Near(lb, a.time, c)
    ensures InRange(la') && InRange(lb') && Ahead(Stage3(slots, c), la', a, lb', b)
    ensures Past3(la', a.time, c) && Past3(lb', a.time, c)
  {
    if c % L2_RANGE == 0 {
      var loc := Overflow;
      Lower3(la, lb, a.time, c);
      Lower3(lb, la, a.time, c);
      CascadeKeepsAhead(slots, loc, c, la, a, lb, b);
      la', lb' := Taken(la, loc, a.time, c), Taken(lb, loc, a.time, c);
    } else {
      Skip3(la, a.time, c);
      Skip3(lb, a.time, c);
      la', lb' := la, lb;
    }
  }

  lemma {:induction false} Stage2Ahead(slots: Slots, c: nat, la: Loc, a: Task, lb: Loc, b: Task)
    returns (la': Loc, lb': Loc)
    requires slots.Shape() && InRange(la) && InRange(lb) && Ahead(Stage3(slots, c), la, a, lb, b)
    requires Past3(la, a.time, c) && Past3(lb, a.time, c)
    ensures InRange(la') && InRange(lb') && Ahead(Stage2(slots, c), la', a, lb', b)
    ensures Past2(la', a.time, c) && Past2(lb', a.time, c)
  {
    if c % L1_RANGE == 0 {
      var loc := L2(Cursor2(c));
      Lower2(la, lb, a.time, c);
      Lower2(lb, la, a.time, c);
      CascadeKeepsAhead(Stage3(slots, c), loc, c, la, a, lb, b);
      la', lb' := Taken(la, loc, a.time, c), Taken(lb, loc, a.time, c);
    } else {
      Skip2(la, a.time, c);
      Skip2(lb, a.time, c);
      la', lb' := la, lb;
    }
  }

  lemma {:induction false} Stage1Ahead(slots: Slots, c: nat, la: Loc, a: Task, lb: Loc, b: Task)
    returns (la': Loc, lb': Loc)
    requires slots.Shape() && InRange(la) && InRange(lb) && Ahead(Stage2(slots, c), la, a, lb, b)
    requires Past2(la, a.time, c) && Past2(lb, a.time, c)
    ensures InRange(la') && InRange(lb') && Ahead(Cascaded(slots, c), la', a, lb', b)
    ensures Past1(la', a.time, c) && Past1(lb', a.time, c)
  {
    if c % L0_RANGE == 0 {
      var loc := L1(Cursor1(c));
      Lower1(la, lb, a.time, c);
      Lower1(lb, la, a.time, c);
      CascadeKeepsAhead(Stage2(slots, c), loc, c, la, a, lb, b);
      la', lb' := Taken(la, loc, a.time, c), Taken(lb, loc, a.time, c);
    } else {
      Skip1(la, a.time, c);
      Skip1(lb, a.time, c);
      la', lb' := la, lb;
    }
  }

  lemma {:induction false} SweepAhead(slots: Slots, c: nat, la: Loc, a: Task, lb: Loc, b: Task)
    requires slots.Shape() && InRange(la) && InRange(lb) && Ahead(slots, la, a, lb, b)
    requires Past1(la, a.time, c) && Past1(lb, a.time, c)
    ensures a.time == c ==> Precedes(slots.At(L0(Cursor0(c))), a, b)
    ensures a.time != c ==> a.time > c && Leads(slots.With(L0(Cursor0(c)), []), c + 1, a, b)
  {
    var d := a.time;
    assert Settled(la, d, c) && Settled(lb, d, c);
    SettledFiresWhenDue(la, d, c);
    SettledFiresWhenDue(lb, d, c);
    if d != c {
      Boundaries(d);
      assert LeadsFrom(slots.With(L0(Cursor0(c)), []), c + 1, la, a, lb, b);
    }
  }

  /** One iteration runs a leading pair in order, when it is due, and keeps it in order otherwise. */
  lemma {:induction false} SweepLeads(slots: Slots, c: nat, a: Task, b: Task)
    requires slots.Shape() && Leads(slots, c, a, b)
    ensures a.time == c ==> Precedes(Batch(slots, c), a, b)
    ensures a.time != c ==> a.time > c && Leads(Swept(slots, c), c + 1, a, b)
  {
    var la: Loc, lb: Loc :| InRange(la) && InRange(lb) && LeadsFrom(slots, c, la, a, lb, b);
    var la3, lb3 := Stage3Ahead(slots, c, la, a, lb, b);
    var la2, lb2 := Stage2Ahead(slots, c, la3, a, lb3, b);
    var la1, lb1 := Stage1Ahead(slots, c, la2, a, lb2, b);
    SweepAhead(Cascaded(slots, c), c, la1, a, lb1, b);
  }

  /** What the iterations from `start` up to but excluding `current` did to the order of two timers. */
  ghost predicate PairKept(slots: Slots, start: nat, slots': Slots, current: nat, log: seq<Fired>, a: Task, b: Task)
    requires slots.Shape() && slots'.Shape()
  {
    && (a.time == b.time && Together(slots, a, b) ==> LoggedBefore(log, a, b) || Together(slots', a, b))
    && (Leads(slots, start, a, b) ==>
          if a.time < current then LoggedBefore(log, a, b) else Leads(slots', current, a, b))
  }

  ghost predicate InOrder(slots: Slots, start: nat, slots': Slots, current: nat, log: seq<Fired>) {
    && slots.Shape() && slots'.Shape()
    && forall a: Task, b: Task {:trigger PairKept(slots, start, slots', current, log, a, b)} ::
         PairKept(slots, start, slots', current, log, a, b)
  }

  lemma {:induction false} InOrderStart(slots: Slots, start: nat)
    requires slots.Shape()
    ensures InOrder(slots, start, slots, start, [])
  {
    forall a: Task, b: Task ensures PairKept(slots, start, slots, start, [], a, b) {
      if Leads(slots, start, a, b) {
        var la: Loc, lb: Loc :| InRange(la) && InRange(lb) && LeadsFrom(slots, start, la, a, lb, b);
        OnTimeNotPast(la, a.time, start);
      }
    }
  }

  lemma {:induction false} InOrderNext(slots: Slots, start: nat, slots1: Slots, c: nat, log: seq<Fired>)
    requires InOrder(slots, start, slots1, c, log)
    ensures InOrder(slots, start, Swept(slots1, c), c + 1, log + Log(Batch(slots1, c), c))
  {
    var slots2, next, log2 := Swept(slots1, c), c + 1, log + Log(Batch(slots1, c), c);
    forall a: Task, b: Task ensures PairKept(slots, start, slots2, next, log2, a, b) {
      assert PairKept(slots, start, slots1, c, log, a, b);
      PairNext(slots, start, slots1, c, log, a, b);
    }
  }

  lemma {:induction false} PairNext(slots: Slots, start: nat, slots1: Slots, c: nat, log: seq<Fired>, a: Task, b: Task)
    requires slots.Shape() && slots1.Shape() && PairKept(slots, start, slots1, c, log, a, b)
    ensures PairKept(slots, start, Swept(slots1, c), c + 1, log + Log(Batch(slots1, c), c), a, b)
  {
    if a.time == b.time && Together(slots, a, b) { TogetherStep(log, slots1, c, a, b); }
    LogJoined(log, Batch(slots1, c), c, a, b);
    if Leads(slots1, c, a, b) { SweepLeads(slots1, c, a, b); }
  }

  /** A timer that `Insert` appends to `loc` runs behind an older one of the same deadline exactly if that one is in
      the same slot or in a place that goes first; otherwise the newer one runs first. */
  lemma {:induction false} AddedOrder(slots: Slots, c: nat, loc: Loc, t: Task, la: Loc, a: Task)
    requires slots.Shape() && InRange(loc) && InRange(la) && a in slots.At(la) && a.time == t.time
    requires Near(la, a.time, c) && Near(loc, t.time, c)
    ensures var slots' := Appended(slots, loc, t);
      if la == loc || PlaceFirst(la, loc, t.time) then Leads(slots', c, a, t) else Leads(slots', c, t, a)
  {
    var slots' := Appended(slots, loc, t);
    PrecedesJoined(slots.At(loc), [t], a, t);
    if la == loc || PlaceFirst(la, loc, t.time) {
      assert LeadsFrom(slots', c, la, a, loc, t);
    } else {
      assert LeadsFrom(slots', c, loc, t, la, a);
    }
  }

  /** A slot list that keeps two tasks, and their order, keeps which of them leads. */
  lemma {:induction false} SlotKeepsLeads(slots: Slots, c: nat, loc: Loc, slot: Slot, a: Task, b: Task)
    requires slots.Shape() && InRange(loc) && Leads(slots, c, a, b)
    requires a in slots.At(loc) ==> a in slot
    requires b in slots.At(loc) ==> b in slot
    requires Precedes(slots.At(loc), a, b) ==> Precedes(slot, a, b)
    ensures Leads(slots.With(loc, slot), c, a, b)
  {
    var la: Loc, lb: Loc :| InRange(la) && InRange(lb) && LeadsFrom(slots, c, la, a, lb, b);
    assert LeadsFrom(slots.With(loc, slot), c, la, a, lb, b);
  }

  /** Adding or removing another timer leaves the order of two timers as it was. */
  lemma {:induction false} AddKeepsLeads(slots: Slots, c: nat, loc: Loc, t: Task, a: Task, b: Task)
    requires slots.Shape() && InRange(loc) && Leads(slots, c, a, b)
    ensures Leads(Appended(slots, loc, t), c, a, b)
  {
    PrecedesJoined(slots.At(loc), [t], a, b);
    SlotKeepsLeads(slots, c, loc, slots.At(loc) + [t], a, b);
  }

  lemma {:induction false} RemoveKeepsLeads(slots: Slots, c: nat, loc: Loc, id: nat, a: Task, b: Task)
    requires slots.Shape() && InRange(loc) && Leads(slots, c, a, b) && a.id != id && b.id != id
    ensures Leads(Unlinked(slots, loc, id), c, a, b)
  {
    var slot := slots.At(loc);
    if a in slot { WithoutHas(slot, id, a); }
    if b in slot { WithoutHas(slot, id, b); }
    if Precedes(slot, a, b) { WithoutOrder(slot, id, a, b); }
    SlotKeepsLeads(slots, c, loc, Without(slot, id), a, b);
  }

  lemma {:induction false} WithoutHas(slot: Slot, id: nat, a: Task)
    requires a in slot && a.id != id
    ensures a in Without(slot, id)
  {
    if slot[0] != a {
      assert a in slot[1..];
      if slot[0].id != id { WithoutHas(slot[1..], id, a); }
    }
  }

  lemma {:induction false} WithoutOrder(slot: Slot, id: nat, a: Task, b: Task)
    requires Precedes(slot, a, b) && a.id != id && b.id != id
    ensures Precedes(Without(slot, id), a, b)
  {
    var i, j :| 0 <= i < j < |slot| && slot[i] == a && slot[j] == b;
    var rest := slot[1..];
    assert rest[j - 1] == b;
    if i > 0 { assert rest[i - 1] == a; }
    if slot[0].id != id {
      var rest' := Without(rest, id);
      PrecedesJoined([slot[0]], rest', a, b);
      if i == 0 { WithoutHas(rest, id, b); } else { WithoutOrder(rest, id, a, b); }
    }
  }

  /** A timer placed from a clock that is not ahead of the wheel is near exactly if it is on time. */
  lemma {:induction false} NearIff(d: nat, reference: nat, c: nat)
    requires reference <= c
    ensures Near(Classify(d, reference), d, c) <==> OnTime(Classify(d, reference), d, c)
  {
    Boundaries(d);
  }

  /** First in, first out is not what the wheel does: of two timers for 520 ms, one added at 0 for 520 ms and one
      added at 300 for 220 ms, the later one runs first. */
  lemma {:induction false} LaterRunsFirst(slots: Slots, x: Task, y: Task)
    requires slots.Shape() && x.time == 520 == y.time
    ensures var added := Appended(slots, Classify(520, 0), x);
      Leads(Appended(added, Classify(520, 300), y), 300, y, x)
  {
    AddedOrder(Appended(slots, Classify(520, 0), x), 300, Classify(520, 300), y, Classify(520, 0), x);
  }
}
