/** Where the timing wheel keeps one task, and when it visits that place.
    Level 0 has 256 slots of 1 ms, level 1 has 64 slots of 256 ms, level 2 has 64 slots of 16384 ms;
    everything further out is in one overflow list. */
module WheelPlacement {
  import opened Common

  const L0_RANGE := 256
  const L1_RANGE := 16384
  const L2_RANGE := 1048576
  /** `kInvalidDeadline` */
  const NO_DEADLINE := UINT64 - 1

  datatype Loc = L0(slot: nat) | L1(slot: nat) | L2(slot: nat) | Overflow

  /** The level cursors c0, c1, c2 of a time; the source truncates to 32 bits before masking. */
  function Cursor0(t: nat): (s: nat)
    ensures s == t % 256
  {
    t % UINT32 % 256
  }

  function Cursor1(t: nat): (s: nat)
    ensures s == t / 256 % 64
  {
    t / 256 % UINT32 % 64
  }

  function Cursor2(t: nat): (s: nat)
    ensures s == t / 16384 % 64
  {
    t / 16384 % UINT32 % 64
  }

  /** The slot `Insert` picks: the level by distance from `reference`, the index by the deadline. */
  function Classify(deadline: nat, reference: nat): (loc: Loc)
    ensures Matches(loc, deadline)
  {
    var delta := if deadline > reference then deadline - reference else 0;
    if delta < L0_RANGE then L0(Cursor0(deadline))
    else if delta < L1_RANGE then L1(Cursor1(deadline))
    else if delta < L2_RANGE then L2(Cursor2(deadline))
    else Overflow
  }

  predicate InRange(loc: Loc) {
    match loc
    case L0(s) => s < 256
    case L1(s) => s < 64
    case L2(s) => s < 64
    case Overflow => true
  }

  /** The slot index is the one the deadline selects at that level. */
  predicate Matches(loc: Loc, deadline: nat) {
    match loc
    case L0(s) => s == deadline % 256
    case L1(s) => s == deadline / 256 % 64
    case L2(s) => s == deadline / 16384 % 64
    case Overflow => true
  }

  /** The wheel, about to process time `current`, still reaches this place no later than the deadline. */
  predicate OnTime(loc: Loc, deadline: nat, current: nat) {
    && Matches(loc, deadline)
    && match loc
       case L0(_) => current <= deadline < current + L0_RANGE
       case L1(_) => current <= deadline / L0_RANGE * L0_RANGE
       case L2(_) => current <= deadline / L1_RANGE * L1_RANGE
       case Overflow => current <= deadline / L2_RANGE * L2_RANGE
  }

  /** One task through the cascades `Tick` makes at time `current` (overflow, then level 2, then level 1). */
  function AfterCascade(loc: Loc, deadline: nat, current: nat): Loc {
    var loc3 := if current % L2_RANGE == 0 && loc == Overflow then Classify(deadline, current) else loc;
    var loc2 := if current % L1_RANGE == 0 && loc3 == L2(Cursor2(current)) then Classify(deadline, current) else loc3;
    if current % L0_RANGE == 0 && loc2 == L1(Cursor1(current)) then Classify(deadline, current) else loc2
  }

  /** `Tick` at time `current` fires a task that sits at `loc` before it. */
  predicate FiresIn(loc: Loc, deadline: nat, current: nat) {
    AfterCascade(loc, deadline, current) == L0(Cursor0(current))
  }

  /** A task at `loc` when the wheel is about to process `current` fires in the iteration for time `at`. */
  predicate FiresAt(loc: Loc, deadline: nat, current: nat, at: nat)
    decreases at - current
  {
    if at < current then false
    else if at == current then FiresIn(loc, deadline, current)
    else !FiresIn(loc, deadline, current) && FiresAt(AfterCascade(loc, deadline, current), deadline, current + 1, at)
  }

  /** Where the timer is once all times before `until` have been processed, if none of them fired it. */
  function LocAt(loc: Loc, deadline: nat, current: nat, until: nat): Loc
    decreases until - current
  {
    if until <= current then loc
    else LocAt(AfterCascade(loc, deadline, current), deadline, current + 1, until)
  }

  /** Past the cascades of time `current`: the next visit is strictly later, or the timer is due within level 0. */
  predicate Settled(loc: Loc, deadline: nat, current: nat) {
    && Matches(loc, deadline)
    && match loc
       case L0(_) => current <= deadline < current + L0_RANGE
       case L1(_) => current < deadline / L0_RANGE * L0_RANGE
       case L2(_) => current < deadline / L1_RANGE * L1_RANGE
       case Overflow => current < deadline / L2_RANGE * L2_RANGE
  }

  lemma ClassifySettles(deadline: nat, current: nat)
    requires current <= deadline
    ensures Settled(Classify(deadline, current), deadline, current)
  {
  }

  lemma OnTimeNotPast(loc: Loc, deadline: nat, current: nat)
    requires OnTime(loc, deadline, current)
    ensures current <= deadline
  {
  }

  /** A level's boundary that coincides with the current time is visited by this iteration's cascade. */
  lemma Visit1(deadline: nat, current: nat)
    requires deadline / 256 * 256 == current
    ensures current % 256 == 0 && current / 256 == deadline / 256
  {
  }

  lemma Visit2(deadline: nat, current: nat)
    requires deadline / 16384 * 16384 == current
    ensures current % 16384 == 0 && current / 16384 == deadline / 16384
  {
  }

  lemma Visit3(deadline: nat, current: nat)
    requires deadline / 1048576 * 1048576 == current
    ensures current % 1048576 == 0
  {
  }

  /** The cascades of one iteration bring every task that is due now down to level 0. */
  lemma CascadeSettles(loc: Loc, deadline: nat, current: nat)
    requires OnTime(loc, deadline, current)
    ensures Settled(AfterCascade(loc, deadline, current), deadline, current)
  {
    OnTimeNotPast(loc, deadline, current);
    ClassifySettles(deadline, current);
    match loc
    case L0(_) =>
    case L1(_) => if deadline / 256 * 256 == current { Visit1(deadline, current); }
    case L2(_) => if deadline / 16384 * 16384 == current { Visit2(deadline, current); }
    case Overflow => if deadline / 1048576 * 1048576 == current { Visit3(deadline, current); }
  }

  /** Firing an iteration takes exactly the tasks whose deadline is the current time. */
  lemma SettledFiresWhenDue(loc: Loc, deadline: nat, current: nat)
    requires Settled(loc, deadline, current)
    ensures loc == L0(Cursor0(current)) <==> deadline == current
    ensures deadline != current ==> OnTime(loc, deadline, current + 1)
  {
    match loc
    case L0(_) => SameResidue(current, deadline);
    case L1(_) => Below1(deadline);
    case L2(_) => Below2(deadline);
    case Overflow => Below3(deadline);
  }

  lemma Below1(d: nat)
    ensures d / 256 * 256 <= d
  {
  }

  lemma Below2(d: nat)
    ensures d / 16384 * 16384 <= d
  {
  }

  lemma Below3(d: nat)
    ensures d / 1048576 * 1048576 <= d
  {
  }

  /** A task fires in the iteration of its own deadline exactly when it is on time. */
  lemma {:induction false} FiresAtDeadlineIff(loc: Loc, deadline: nat, current: nat)
    requires Matches(loc, deadline)
    ensures FiresAt(loc, deadline, current, deadline) <==> OnTime(loc, deadline, current)
    decreases deadline - current
  {
    if current <= deadline {
      if OnTime(loc, deadline, current) {
        CascadeSettles(loc, deadline, current);
        SettledFiresWhenDue(AfterCascade(loc, deadline, current), deadline, current);
      } else {
        LateStaysPut(loc, deadline, current);
      }
      if current < deadline && !FiresIn(loc, deadline, current) {
        FiresAtDeadlineIff(AfterCascade(loc, deadline, current), deadline, current + 1);
      }
    }
  }

  /** A task that is not on time is not touched by the cascades before its deadline. */
  lemma LateStaysPut(loc: Loc, deadline: nat, current: nat)
    requires Matches(loc, deadline) && !OnTime(loc, deadline, current) && current <= deadline
    ensures AfterCascade(loc, deadline, current) == loc
    ensures FiresIn(loc, deadline, current) ==> current < deadline
    ensures current < deadline && !FiresIn(loc, deadline, current) ==> !OnTime(loc, deadline, current + 1)
  {
    match loc
    case L0(_) => SameResidue(current, deadline);
    case L1(_) => NoVisit1(deadline, current);
    case L2(_) => NoVisit2(deadline, current);
    case Overflow => NoVisit3(deadline, current);
  }

  /** Strictly inside a slot's span there is no cascade boundary of that level. */
  lemma NoVisit1(deadline: nat, current: nat)
    requires deadline / 256 * 256 < current <= deadline
    ensures current % 256 != 0
  {
  }

  lemma NoVisit2(deadline: nat, current: nat)
    requires deadline / 16384 * 16384 < current <= deadline
    ensures current % 16384 != 0
  {
  }

  lemma NoVisit3(deadline: nat, current: nat)
    requires deadline / 1048576 * 1048576 < current <= deadline
    ensures current % 1048576 != 0
  {
  }

  /** Forward reading of a task's path: whether it fires now depends on where the earlier cascades left it. */
  lemma {:induction false} FiresAtForward(loc: Loc, deadline: nat, start: nat, current: nat)
    requires start <= current
    requires forall at :: start <= at < current ==> !FiresAt(loc, deadline, start, at)
    ensures FiresAt(loc, deadline, start, current) <==> FiresIn(LocAt(loc, deadline, start, current), deadline, current)
    ensures LocAt(loc, deadline, start, current + 1)
         == AfterCascade(LocAt(loc, deadline, start, current), deadline, current)
    decreases current - start
  {
    if start < current {
      var next, start' := AfterCascade(loc, deadline, start), start + 1;
      assert !FiresAt(loc, deadline, start, start);
      forall at | start' <= at < current ensures !FiresAt(next, deadline, start', at) {
        assert !FiresAt(loc, deadline, start, at);
      }
      FiresAtForward(next, deadline, start', current);
    }
  }

  /** No task fires in two iterations. */
  lemma {:induction false} FiresOnce(loc: Loc, deadline: nat, current: nat, a: nat, b: nat)
    requires FiresAt(loc, deadline, current, a) && FiresAt(loc, deadline, current, b)
    ensures a == b
    decreases a - current
  {
    if a != current && b != current {
      FiresOnce(AfterCascade(loc, deadline, current), deadline, current + 1, a, b);
    }
  }

  /** A level-0 task fires at the first time from `current` on that agrees with its deadline modulo 256. */
  lemma {:induction false} Level0FiresAt(deadline: nat, current: nat, at: nat)
    ensures FiresAt(L0(Cursor0(deadline)), deadline, current, at)
       <==> current <= at < current + L0_RANGE && at % L0_RANGE == deadline % L0_RANGE
    decreases at - current
  {
    assert AfterCascade(L0(Cursor0(deadline)), deadline, current) == L0(Cursor0(deadline));
    if current <= at {
      SameResidue(current, at);
      if current < at && current % 256 != deadline % 256 {
        Level0FiresAt(deadline, current + 1, at);
      }
    }
  }

  lemma SameResidue(c: nat, at: nat)
    ensures c < at < c + 256 ==> at % 256 != c % 256
    ensures at == c + 256 ==> at % 256 == c % 256
  {
  }

  /** A timer added with no delay right after its own millisecond was processed fires one revolution late. */
  lemma ZeroDelayIsLate(now: nat)
    ensures FiresAt(Classify(now, now), now, now + 1, now + L0_RANGE)
    ensures !FiresAt(Classify(now, now), now, now + 1, now)
  {
    SameResidue(now, now + 256);
    Level0FiresAt(now, now + 1, now + L0_RANGE);
  }

  /** The first time from `c` on that agrees with `x` modulo the period of a level. */
  function Upcoming0(x: int, c: nat): nat {
    c + (x - c) % 256
  }

  function Upcoming1(x: int, c: nat): nat {
    c + (x - c) % 16384
  }

  function Upcoming2(x: int, c: nat): nat {
    c + (x - c) % 1048576
  }

  /** When the wheel, about to process `c`, next comes to a place: its sweep or its cascade. */
  function Visit(loc: Loc, deadline: nat, c: nat): nat {
    match loc
    case L0(_) => Upcoming0(deadline, c)
    case L1(_) => Upcoming1(deadline / 256 * 256, c)
    case L2(_) => Upcoming2(deadline / 16384 * 16384, c)
    case Overflow => Upcoming2(0, c)
  }

  /** When a stored timer fires: at its deadline if it is on time; else level 0 fires it at the next visit, and
      the other levels drop it into level 0 at theirs, for the sweep that follows. */
  function NextFire(loc: Loc, deadline: nat, c: nat): nat {
    if OnTime(loc, deadline, c) then deadline
    else if loc.L0? then Visit(loc, deadline, c)
    else Visit(loc, deadline, c) + deadline % 256
  }

  lemma Digit1(d: nat, c: nat)
    ensures (d / 256 * 256 - c) % 16384 == 0 <==> c % 256 == 0 && c / 256 % 64 == d / 256 % 64
  {
    var p, q, r := d / 256, c / 256, c % 256;
    assert d / 256 * 256 - c == 256 * (p - q) - r;
    Scaled1(p - q, r);
    SameDigit(p, q);
  }

  lemma Scaled1(k: int, r: nat)
    requires r < 256
    ensures (256 * k - r) % 16384 == 0 <==> r == 0 && k % 64 == 0
  {
    var m := k / 64;
    assert 256 * k - r == 16384 * m + (256 * (k % 64) - r);
    assert r != 0 || k % 64 != 0 ==> -256 < 256 * (k % 64) - r < 16384 && 256 * (k % 64) - r != 0;
  }

  lemma SameDigit(p: nat, q: nat)
    ensures (p - q) % 64 == 0 <==> q % 64 == p % 64
  {
  }

  lemma Digit2(d: nat, c: nat)
    ensures (d / 16384 * 16384 - c) % 1048576 == 0 <==> c % 16384 == 0 && c / 16384 % 64 == d / 16384 % 64
  {
    var p, q, r := d / 16384, c / 16384, c % 16384;
    assert d / 16384 * 16384 - c == 16384 * (p - q) - r;
    Scaled2(p - q, r);
    SameDigit(p, q);
  }

  lemma Scaled2(k: int, r: nat)
    requires r < 16384
    ensures (16384 * k - r) % 1048576 == 0 <==> r == 0 && k % 64 == 0
  {
    var m := k / 64;
    assert 16384 * k - r == 1048576 * m + (16384 * (k % 64) - r);
    assert r != 0 || k % 64 != 0 ==> -16384 < 16384 * (k % 64) - r < 1048576 && 16384 * (k % 64) - r != 0;
  }

  lemma Digit3(c: nat)
    ensures (0 - c) % 1048576 == 0 <==> c % 1048576 == 0
  {
  }

  /** A place that is not visited now is visited at the same time as seen from one later. */
  lemma VisitLater(loc: Loc, deadline: nat, c: nat)
    requires Visit(loc, deadline, c) > c
    ensures Visit(loc, deadline, c + 1) == Visit(loc, deadline, c)
  {
    match loc
    case L0(_) => Later0(deadline, c);
    case L1(_) => Later1(deadline / 256 * 256, c);
    case L2(_) => Later2(deadline / 16384 * 16384, c);
    case Overflow => Later2(0, c);
  }

  lemma Later0(x: int, c: nat)
    requires (x - c) % 256 > 0
    ensures Upcoming0(x, c + 1) == Upcoming0(x, c)
  {
  }

  lemma Later1(x: int, c: nat)
    requires (x - c) % 16384 > 0
    ensures Upcoming1(x, c + 1) == Upcoming1(x, c)
  {
  }

  lemma Later2(x: int, c: nat)
    requires (x - c) % 1048576 > 0
    ensures Upcoming2(x, c + 1) == Upcoming2(x, c)
  {
  }

  /** Outside level 0, the cascades of an iteration take a timer exactly when it is the visit's. */
  lemma CascadedAtVisit(loc: Loc, deadline: nat, c: nat)
    requires Matches(loc, deadline) && !loc.L0?
    ensures AfterCascade(loc, deadline, c) == if Visit(loc, deadline, c) == c then Classify(deadline, c) else loc
    ensures Visit(loc, deadline, c) == c ==> c % 256 == 0
  {
    match loc
    case L1(_) => Digit1(deadline, c);
    case L2(_) => Digit2(deadline, c); Coarser2(c);
    case Overflow => Digit3(c); Coarser3(c);
  }

  lemma Coarser2(c: nat)
    ensures c % 16384 == 0 ==> c % 256 == 0
  {
    assert c == 16384 * (c / 16384) + c % 16384;
    assert c % 16384 == 0 ==> c == 256 * (64 * (c / 16384));
  }

  lemma Coarser3(c: nat)
    ensures c % 1048576 == 0 ==> c % 256 == 0
  {
    assert c == 1048576 * (c / 1048576) + c % 1048576;
    assert c % 1048576 == 0 ==> c == 256 * (4096 * (c / 1048576));
  }

  /** A late timer outside level 0 is past its deadline when it is visited. */
  lemma LateVisit(loc: Loc, deadline: nat, c: nat)
    requires Matches(loc, deadline) && !loc.L0? && !OnTime(loc, deadline, c) && Visit(loc, deadline, c) == c
    ensures deadline < c
  {
    if c <= deadline {
      CascadedAtVisit(loc, deadline, c);
      LateStaysPut(loc, deadline, c);
      NotItsOwn(loc, deadline, c);
    }
  }

  /** Classifying up to its deadline cannot put a late timer back where it was. */
  lemma NotItsOwn(loc: Loc, deadline: nat, c: nat)
    requires Matches(loc, deadline) && !loc.L0? && !OnTime(loc, deadline, c) && c <= deadline
    ensures Classify(deadline, c) != loc
  {
    ClassifySettles(deadline, c);
  }

  lemma {:induction false} LateFiresAt(loc: Loc, deadline: nat, c: nat)
    requires Matches(loc, deadline) && !loc.L0? && !OnTime(loc, deadline, c)
    ensures FiresAt(loc, deadline, c, NextFire(loc, deadline, c))
    decreases Visit(loc, deadline, c) - c
  {
    CascadedAtVisit(loc, deadline, c);
    var at := NextFire(loc, deadline, c);
    if Visit(loc, deadline, c) > c {
      VisitLater(loc, deadline, c);
      LateFiresAt(loc, deadline, c + 1);
    } else {
      LateVisit(loc, deadline, c);
      Residue(c, deadline);
      if at > c {
        Level0FiresAt(deadline, c + 1, at);
      }
    }
  }

  lemma Residue(c: nat, d: nat)
    requires c % 256 == 0
    ensures (c + d % 256) % 256 == d % 256
  {
  }

  lemma Upcoming0Is(d: nat, c: nat)
    ensures Upcoming0(d, c) % 256 == d % 256 && c <= Upcoming0(d, c) < c + 256
  {
  }

  /** Every stored timer, on time or not, fires exactly once, and this is when. */
  lemma {:induction false} FiresAtIff(loc: Loc, deadline: nat, c: nat, at: nat)
    requires Matches(loc, deadline)
    ensures FiresAt(loc, deadline, c, at) <==> at == NextFire(loc, deadline, c)
  {
    var next := NextFire(loc, deadline, c);
    if OnTime(loc, deadline, c) {
      FiresAtDeadlineIff(loc, deadline, c);
    } else if loc.L0? {
      Upcoming0Is(deadline, c);
      Level0FiresAt(deadline, c, next);
    } else {
      LateFiresAt(loc, deadline, c);
    }
    if FiresAt(loc, deadline, c, at) {
      FiresOnce(loc, deadline, c, at, next);
    }
  }

  /** Exactly when `AddTimer` puts a timer on time, by the clock it is given, the delay and the wheel's time. For a
      clock at most one millisecond behind the wheel this is: the deadline has not been processed yet, and a level-0
      timer is within one revolution. */
  lemma AdmissibleIff(current: nat, reference: nat, delay: nat)
    ensures var deadline := reference + delay;
      OnTime(Classify(deadline, reference), deadline, current)
      <==> (if delay < L0_RANGE then current <= deadline < current + L0_RANGE
            else if delay < L1_RANGE then current <= deadline / L0_RANGE * L0_RANGE
            else if delay < L2_RANGE then current <= deadline / L1_RANGE * L1_RANGE
            else current <= deadline / L2_RANGE * L2_RANGE)
    ensures current <= reference + 1 ==>
      (OnTime(Classify(reference + delay, reference), reference + delay, current)
       <==> current <= reference + delay && (delay < L0_RANGE ==> reference + delay < current + L0_RANGE))
  {
  }
}
