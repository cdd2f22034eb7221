/** The three-level timing wheel. `Valid` (every index agrees with the map id -> deadline) holds in every
    state; `Punctual` adds that each task is reached in time and that the cached minimum is exact. */
module TimingWheel {
  import opened Common
  import opened WheelPlacement
  import opened WheelState
  import opened TimerSpec
  import opened WheelOrder
  import opened WheelOps
  import opened WheelMin

  class TimingWheelTimer {
    var store: Store
    var currentMs: nat
    var initialized: bool
    var minDeadlineCache: nat
    var cacheDirty: bool
    /** The abstract timer: id -> deadline. */
    ghost var pending: map<nat, nat>

    ghost predicate Valid()
      reads this
    {
      Agrees(store, pending) && (!initialized ==> pending == map[])
    }

    ghost predicate Punctual()
      reads this
    {
      OnTimeFor(pending, store.location, currentMs) && CacheFor(pending, minDeadlineCache, cacheDirty)
    }

    constructor ()
      ensures Valid() && Punctual()
      ensures pending == map[] && !initialized && currentMs == 0 && minDeadlineCache == NO_DEADLINE && !cacheDirty
    {
      store := EmptyStore();
      pending := map[];
      currentMs, initialized := 0, false;
      minDeadlineCache, cacheDirty := NO_DEADLINE, false;
    }

    /** `id` stands for the random id the source draws; `clock` for the wall clock it reads when `now` is 0. */
    method AddTimer(id: nat, delay: nat, now: nat, clock: nat) returns (newId: nat)
      requires Valid() && id !in pending
      modifies this
      ensures Valid() && newId == id
      ensures var reference := if now != 0 then now else clock;
        var deadline := (reference + delay) % UINT64;
        && initialized && currentMs == (if old(initialized) then old(currentMs) else reference)
        && pending == old(pending)[id := deadline]
        && store.location == old(store.location)[id := Classify(deadline, reference)]
        && store.slots == Appended(old(store.slots), Classify(deadline, reference), Task(id, deadline))
        && (old(Punctual()) ==> (Punctual() <==> OnTime(Classify(deadline, reference), deadline, currentMs)))
        && cacheDirty == old(cacheDirty)
        && minDeadlineCache
           == (if !cacheDirty && deadline < old(minDeadlineCache) then deadline else old(minDeadlineCache))
    {
      var reference := if now != 0 then now else clock;
      if !initialized {
        currentMs := reference;
        initialized := true;
      }
      var deadline := (reference + delay) % UINT64;
      AddAgrees(store, pending, Task(id, deadline), reference);
      store := Insert(store, Task(id, deadline), reference).(total := store.total + 1);
      pending := pending[id := deadline];
      if !cacheDirty && deadline < minDeadlineCache {
        minDeadlineCache := deadline;
      }
      AddKeepsPunctual(old(pending), old(store.location), currentMs, id, deadline, Classify(deadline, reference),
                       old(minDeadlineCache), cacheDirty);
      return id;
    }

    method RemoveTimer(id: nat) returns (ok: bool)
      requires Valid()
      modifies this
      ensures Valid()
      ensures ok <==> id in old(pending)
      ensures pending == old(pending) - {id} && store.location == old(store.location) - {id}
      ensures currentMs == old(currentMs) && initialized == old(initialized)
      ensures old(Punctual()) ==> Punctual()
      ensures if ok then Erased(old(store), id, store.slots) else store.slots == old(store.slots)
    {
      if id !in store.location {
        assert pending - {id} == pending && store.location - {id} == store.location;
        return false;
      }
      var st, oldTime := Erase(store, pending, id);
      store := st;
      pending := pending - {id};
      if oldTime <= minDeadlineCache {
        minDeadlineCache := NO_DEADLINE;
        cacheDirty := true;
      } else if old(Punctual()) {
        MinAfterRemove(old(pending), minDeadlineCache, id);
      }
      return true;
    }

    method MinTime(now: nat, clock: nat) returns (r: int)
      requires Valid()
      modifies `minDeadlineCache, `cacheDirty
      ensures Valid()
      ensures pending == map[] <==> r == -1
      ensures !cacheDirty && (old(Punctual()) ==> Punctual())
      ensures old(Punctual()) && pending != map[] ==>
        exists m :: IsMinDeadline(pending, m) && r == TimeUntil(m, if now != 0 then now else clock)
      ensures pending != map[] && !old(cacheDirty) ==>
        r == TimeUntil(old(minDeadlineCache), if now != 0 then now else clock)
      ensures pending != map[] && old(cacheDirty) && currentMs < UINT64 ==>
        exists e: nat :: IsEarliest(pending, store.location, currentMs, e)
                 && r == TimeUntil(e, if now != 0 then now else clock)
    {
      if store.total == 0 {
        minDeadlineCache := NO_DEADLINE;
        cacheDirty := false;
        return -1;
      }
      var at := if now != 0 then now else clock;
      if cacheDirty {
        minDeadlineCache := EarliestDeadline(store, pending, currentMs);
        cacheDirty := false;
      }
      assert old(Punctual()) ==> IsMinDeadline(pending, minDeadlineCache);
      if minDeadlineCache <= at {
        return 0;
      }
      var diff := minDeadlineCache - at;
      if diff > INT32_MAX {
        return INT32_MAX;
      }
      return diff;
    }

    /** Advance through every millisecond up to `now`, firing what each one reaches. */
    method Tick(now: nat) returns (fired: seq<Fired>)
      requires Valid() && initialized && now < NO_DEADLINE
      modifies this
      ensures Valid() && initialized
      ensures currentMs == if old(currentMs) <= now then now + 1 else old(currentMs)
      ensures Ran(old(pending), old(store.location), old(currentMs), pending, store.location, currentMs, fired)
      ensures old(Punctual()) ==> Punctual()
      ensures CacheRule(fired, old(minDeadlineCache), old(cacheDirty), minDeadlineCache, cacheDirty)
      ensures InOrder(old(store.slots), old(currentMs), store.slots, currentMs, fired)
    {
      store, currentMs, fired, minDeadlineCache, cacheDirty, pending :=
        Advance(store, pending, currentMs, now, minDeadlineCache, cacheDirty);
    }

    method TimerRun(now: nat, clock: nat) returns (fired: seq<Fired>)
      requires Valid() && now < NO_DEADLINE && clock < NO_DEADLINE
      modifies this
      ensures Valid() && initialized
      ensures var at := if now != 0 then now else clock;
        && currentMs == (if !old(initialized) then at else if old(currentMs) <= at then at + 1 else old(currentMs))
        && (old(initialized) ==>
              Ran(old(pending), old(store.location), old(currentMs), pending, store.location, currentMs, fired))
        && (old(initialized) ==> InOrder(old(store.slots), old(currentMs), store.slots, currentMs, fired))
        && (!old(initialized) ==> fired == [] && pending == map[])
        && (old(Punctual()) ==> Punctual() && RanDue(fired, old(pending), pending, at))
      ensures CacheRule(fired, old(minDeadlineCache), old(cacheDirty), minDeadlineCache, cacheDirty)
      ensures old(initialized) && old(currentMs) < UINT64 && old(pending) != map[] && !old(cacheDirty)
              && IsMinDeadline(old(pending), old(minDeadlineCache)) ==>
        (!CacheFor(pending, minDeadlineCache, cacheDirty)
         <==> GoesStale(old(pending), old(store.location), old(currentMs), currentMs, old(minDeadlineCache)))
    {
      var at := if now != 0 then now else clock;
      if !initialized {
        currentMs := at;
        initialized := true;
        return [];
      }
      fired := RunTo(at);
      if old(currentMs) < UINT64 && old(pending) != map[] && !old(cacheDirty)
          && IsMinDeadline(old(pending), old(minDeadlineCache)) {
        StaleIff(old(store), old(pending), old(currentMs), pending, store.location, currentMs, fired,
                 old(minDeadlineCache), minDeadlineCache, cacheDirty);
      }
    }

    /** `TimerRun` on a wheel that has started. */
    method RunTo(at: nat) returns (fired: seq<Fired>)
      requires Valid() && initialized && at < NO_DEADLINE
      modifies this
      ensures Valid() && initialized
      ensures currentMs == if old(currentMs) <= at then at + 1 else old(currentMs)
      ensures Ran(old(pending), old(store.location), old(currentMs), pending, store.location, currentMs, fired)
      ensures old(Punctual()) ==> Punctual() && RanDue(fired, old(pending), pending, at)
      ensures CacheRule(fired, old(minDeadlineCache), old(cacheDirty), minDeadlineCache, cacheDirty)
      ensures InOrder(old(store.slots), old(currentMs), store.slots, currentMs, fired)
    {
      if at < currentMs {
        InOrderStart(store.slots, currentMs);
        RanNothing(pending, store.location, currentMs);
        if old(Punctual()) { NothingDue(pending, store.location, currentMs, at); }
        return [];
      }
      fired := Tick(at);
      if old(Punctual()) {
        RanPunctual(old(pending), old(store.location), old(currentMs), pending, store.location, currentMs, fired);
      }
    }
  }

  /** The slot lists once the node of `id` is gone. */
  ghost predicate Erased(st: Store, id: nat, slots: Slots) {
    && st.slots.Shape() && id in st.location && InRange(st.location[id])
    && slots == Unlinked(st.slots, st.location[id], id)
  }

  /** Exactly the timers due by `at` ran, each once, in deadline order, in the iteration of its own deadline. */
  ghost predicate RanDue(fired: seq<Fired>, pending: map<nat, nat>, pending': map<nat, nat>, at: nat) {
    && RunsDue(fired, pending, at) && pending' == Later(pending, at)
    && forall i :: 0 <= i < |fired| ==> fired[i].at == fired[i].deadline
  }

  ghost predicate FiredBy(fired: seq<Fired>, t: nat) {
    exists i :: 0 <= i < |fired| && fired[i].at <= t
  }

  /** The cached minimum is invalidated by a firing at or before it, and by nothing else. */
  ghost predicate CacheRule(fired: seq<Fired>, cache: nat, dirty: bool, cache': nat, dirty': bool) {
    if FiredBy(fired, cache) then cache' == NO_DEADLINE && dirty' else cache' == cache && dirty' == dirty
  }

  lemma CacheRuleNext(fired: seq<Fired>, batch: Slot, c: nat, cache: nat, dirty: bool, cache1: nat, dirty1: bool)
    requires CacheRule(fired, cache, dirty, cache1, dirty1) && c <= NO_DEADLINE
    ensures CacheRule(fired + Log(batch, c), cache, dirty,
                      if batch != [] && c <= cache1 then NO_DEADLINE else cache1,
                      (batch != [] && c <= cache1) || dirty1)
  {
    var fired' := fired + Log(batch, c);
    if FiredBy(fired, cache) {
      var i :| 0 <= i < |fired| && fired[i].at <= cache;
      assert fired'[i] == fired[i];
    } else {
      assert forall i :: 0 <= i < |fired'| ==> if i < |fired| then fired'[i] == fired[i] else fired'[i].at == c;
      if batch != [] { assert fired'[|fired|].at == c; }
    }
  }

  /** Everything a stretch of iterations has kept and done so far. */
  ghost predicate Progress(pending: map<nat, nat>, location: map<nat, Loc>, start: nat, cache: nat, dirty: bool,
                           pending': map<nat, nat>, location': map<nat, Loc>, c: nat, fired: seq<Fired>,
                           cache': nat, dirty': bool) {
    && Ran(pending, location, start, pending', location', c, fired)
    && CacheRule(fired, cache, dirty, cache', dirty')
    && (OnTimeFor(pending, location, start) && CacheFor(pending, cache, dirty) ==>
          OnTimeFor(pending', location', c) && CacheFor(pending', cache', dirty'))
  }

  lemma ProgressNext(pending: map<nat, nat>, location: map<nat, Loc>, start: nat, cache: nat, dirty: bool,
                     pending1: map<nat, nat>, location1: map<nat, Loc>, c: nat, fired: seq<Fired>,
                     cache1: nat, dirty1: bool, pending2: map<nat, nat>, location2: map<nat, Loc>, batch: Slot)
    requires Progress(pending, location, start, cache, dirty, pending1, location1, c, fired, cache1, dirty1)
    requires Stepped(pending1, location1, pending2, location2, c, batch) && c <= NO_DEADLINE
    ensures Progress(pending, location, start, cache, dirty, pending2, location2, c + 1, fired + Log(batch, c),
                     if batch != [] && c <= cache1 then NO_DEADLINE else cache1,
                     (batch != [] && c <= cache1) || dirty1)
  {
    RanOneMore(pending, location, start, pending1, location1, c, fired, pending2, location2, batch);
    CacheRuleNext(fired, batch, c, cache, dirty, cache1, dirty1);
    if OnTimeFor(pending, location, start) && CacheFor(pending, cache, dirty) {
      StepKeepsOnTime(pending1, location1, pending2, location2, c, batch);
      StepKeepsCache(pending1, location1, pending2, location2, c, batch, cache1, dirty1);
    }
  }

  /** The loop of `Tick`. */
  method Advance(st: Store, ghost pending: map<nat, nat>, start: nat, now: nat, cache: nat, dirty: bool)
    returns (st': Store, c: nat, fired: seq<Fired>, cache': nat, dirty': bool, ghost pending': map<nat, nat>)
    requires Agrees(st, pending) && now < NO_DEADLINE
    ensures Agrees(st', pending') && c == if start <= now then now + 1 else start
    ensures Progress(pending, st.location, start, cache, dirty, pending', st'.location, c, fired, cache', dirty')
    ensures InOrder(st.slots, start, st'.slots, c, fired)
  {
    InOrderStart(st.slots, start);
    st', c, fired, cache', dirty', pending' := st, start, [], cache, dirty, pending;
    RanNothing(pending, st.location, start);
    while c <= now
      invariant Agrees(st', pending') && start <= c && (c <= now + 1 || c == start)
      invariant Progress(pending, st.location, start, cache, dirty, pending', st'.location, c, fired, cache', dirty')
      invariant InOrder(st.slots, start, st'.slots, c, fired)
      decreases now + 1 - c
    {
      var batch;
      ghost var left;
      st', batch, cache', dirty', left :=
        Iterate(st, pending, start, cache, dirty, st', pending', c, fired, cache', dirty');
      pending', fired, c := left, fired + Log(batch, c), c + 1;
    }
  }

  /** The body of that loop. */
  method Iterate(ghost st: Store, ghost pending: map<nat, nat>, ghost start: nat, ghost cache: nat, ghost dirty: bool,
                 st1: Store, ghost pending1: map<nat, nat>, c: nat, ghost fired: seq<Fired>,
                 cache1: nat, dirty1: bool)
    returns (st2: Store, batch: Slot, cache2: nat, dirty2: bool, ghost pending2: map<nat, nat>)
    requires Agrees(st1, pending1) && c <= NO_DEADLINE
    requires Progress(pending, st.location, start, cache, dirty, pending1, st1.location, c, fired, cache1, dirty1)
    requires InOrder(st.slots, start, st1.slots, c, fired)
    ensures Agrees(st2, pending2)
    ensures Progress(pending, st.location, start, cache, dirty, pending2, st2.location, c + 1,
                     fired + Log(batch, c), cache2, dirty2)
    ensures InOrder(st.slots, start, st2.slots, c + 1, fired + Log(batch, c))
  {
    st2, batch := Sweep(st1, pending1, c);
    InOrderNext(st.slots, start, st1.slots, c, fired);
    pending2 := pending1 - Ids(batch);
    ProgressNext(pending, st.location, start, cache, dirty, pending1, st1.location, c, fired, cache1, dirty1,
                 pending2, st2.location, batch);
    cache2, dirty2 := cache1, dirty1;
    if batch != [] && c <= cache1 {
      cache2, dirty2 := NO_DEADLINE, true;
    }
  }

  /** What a stretch of iterations from `start` up to but excluding `current` did to every task: it fired in
      exactly one logged iteration of its own path, or it is still pending where that path has taken it. */
  ghost predicate Ran(pending: map<nat, nat>, location: map<nat, Loc>, start: nat,
                      pending': map<nat, nat>, location': map<nat, Loc>, current: nat, fired: seq<Fired>) {
    && start <= current
    && pending'.Keys <= pending.Keys <= location.Keys
    && OncePerId(fired)
    && (forall i, j :: 0 <= i <= j < |fired| ==> fired[i].at <= fired[j].at)
    && (forall f {:trigger LogEntry(f, pending, location, start, pending', current)} ::
          f in fired ==> LogEntry(f, pending, location, start, pending', current))
    && (forall id {:trigger Logged(fired, id)} {:trigger Waiting(id, pending, location, start, pending', location',
          current)} ::
          id in pending ==>
          if id in pending' then Waiting(id, pending, location, start, pending', location', current)
          else Logged(fired, id))
  }

  ghost predicate LogEntry(f: Fired, pending: map<nat, nat>, location: map<nat, Loc>, start: nat,
                           pending': map<nat, nat>, current: nat) {
    && f.id in pending && f.id in location && f.id !in pending'
    && f.deadline == pending[f.id] && f.at < current
    && FiresAt(location[f.id], pending[f.id], start, f.at)
  }

  ghost predicate Waiting(id: nat, pending: map<nat, nat>, location: map<nat, Loc>, start: nat,
                          pending': map<nat, nat>, location': map<nat, Loc>, current: nat)
    requires id in pending && id in pending' && id in location
  {
    && pending'[id] == pending[id]
    && id in location' && location'[id] == LocAt(location[id], pending[id], start, current)
    && forall at :: start <= at < current ==> !FiresAt(location[id], pending[id], start, at)
  }

  lemma RanNothing(pending: map<nat, nat>, location: map<nat, Loc>, c: nat)
    requires pending.Keys <= location.Keys
    ensures Ran(pending, location, c, pending, location, c, [])
  {
  }

  lemma RanOneMore(pending: map<nat, nat>, location: map<nat, Loc>, start: nat,
                   pending1: map<nat, nat>, location1: map<nat, Loc>, c: nat, fired: seq<Fired>,
                   pending2: map<nat, nat>, location2: map<nat, Loc>, batch: Slot)
    requires Ran(pending, location, start, pending1, location1, c, fired)
    requires Stepped(pending1, location1, pending2, location2, c, batch)
    ensures Ran(pending, location, start, pending2, location2, c + 1, fired + Log(batch, c))
  {
    forall id | id in pending
      ensures if id in pending2 then Waiting(id, pending, location, start, pending2, location2, c + 1)
              else Logged(fired + Log(batch, c), id)
    {
      RanOneMoreTask(pending, location, start, pending1, location1, c, fired, pending2, location2, batch, id);
    }
    RanOneMoreLog(pending, location, start, pending1, location1, c, fired, pending2, location2, batch);
    RanOneMoreOrder(pending, location, start, pending1, c, fired, batch);
  }

  lemma RanOneMoreTask(pending: map<nat, nat>, location: map<nat, Loc>, start: nat,
                       pending1: map<nat, nat>, location1: map<nat, Loc>, c: nat, fired: seq<Fired>,
                       pending2: map<nat, nat>, location2: map<nat, Loc>, batch: Slot, id: nat)
    requires id in pending && id in location && start <= c
    requires if id in pending1 then Waiting(id, pending, location, start, pending1, location1, c) else Logged(fired, id)
    requires Stepped(pending1, location1, pending2, location2, c, batch)
    ensures if id in pending2 then Waiting(id, pending, location, start, pending2, location2, c + 1)
            else Logged(fired + Log(batch, c), id)
  {
    var fired2 := fired + Log(batch, c);
    if id in pending1 {
      FiresAtForward(location[id], pending[id], start, c);
      if id !in pending2 {
        var i :| 0 <= i < |batch| && batch[i] == Task(id, pending1[id]);
        assert fired2[|fired| + i].id == id;
      }
    } else {
      var i :| 0 <= i < |fired| && fired[i].id == id;
      assert fired2[i].id == id;
    }
  }

  lemma RanOneMoreLog(pending: map<nat, nat>, location: map<nat, Loc>, start: nat,
                      pending1: map<nat, nat>, location1: map<nat, Loc>, c: nat, fired: seq<Fired>,
                      pending2: map<nat, nat>, location2: map<nat, Loc>, batch: Slot)
    requires Ran(pending, location, start, pending1, location1, c, fired)
    requires Stepped(pending1, location1, pending2, location2, c, batch)
    ensures forall f :: f in fired + Log(batch, c) ==> LogEntry(f, pending, location, start, pending2, c + 1)
  {
    forall f | f in fired + Log(batch, c) ensures LogEntry(f, pending, location, start, pending2, c + 1) {
      if f in fired {
        assert LogEntry(f, pending, location, start, pending1, c);
      } else {
        var t := Task(f.id, f.deadline);
        assert t in batch && Waiting(t.id, pending, location, start, pending1, location1, c);
        FiresAtForward(location[t.id], pending[t.id], start, c);
      }
    }
  }

  lemma RanOneMoreOrder(pending: map<nat, nat>, location: map<nat, Loc>, start: nat,
                        pending1: map<nat, nat>, c: nat, fired: seq<Fired>, batch: Slot)
    requires OncePerId(fired) && DistinctIds(batch)
    requires forall f :: f in fired ==> LogEntry(f, pending, location, start, pending1, c)
    requires forall t :: t in batch ==> t.id in pending1
    requires forall i, j :: 0 <= i <= j < |fired| ==> fired[i].at <= fired[j].at
    ensures OncePerId(fired + Log(batch, c))
    ensures var fired2 := fired + Log(batch, c); forall i, j :: 0 <= i <= j < |fired2| ==> fired2[i].at <= fired2[j].at
  {
    AllDiffer(batch);
    var fired2 := fired + Log(batch, c);
    forall i, j | 0 <= i < j < |fired2| ensures fired2[i].id != fired2[j].id {
      if i < |fired| <= j {
        assert fired[i] in fired && batch[j - |fired|] in batch;
      }
    }
    forall i, j | 0 <= i <= j < |fired2| ensures fired2[i].at <= fired2[j].at {
      if i < |fired| { assert fired[i] in fired; }
    }
  }

  /** With every task on time, a stretch of iterations fires exactly what was due in it, at its deadline. */
  lemma RanPunctual(pending: map<nat, nat>, location: map<nat, Loc>, start: nat,
                    pending': map<nat, nat>, location': map<nat, Loc>, current: nat, fired: seq<Fired>)
    requires Ran(pending, location, start, pending', location', current, fired) && start < current
    requires OnTimeFor(pending, location, start)
    ensures RanDue(fired, pending, pending', current - 1)
  {
    forall i | 0 <= i < |fired|
      ensures fired[i].id in pending && fired[i].deadline == pending[fired[i].id]
      ensures fired[i].at == fired[i].deadline <= current - 1
    {
      var f := fired[i];
      assert f in fired && LogEntry(f, pending, location, start, pending', current);
      assert OnTime(location[f.id], pending[f.id], start);
      FiresAtDeadlineIff(location[f.id], f.deadline, start);
      FiresOnce(location[f.id], f.deadline, start, f.at, f.deadline);
    }
    forall id | id in pending ensures id in pending' <==> current - 1 < pending[id] {
      assert OnTime(location[id], pending[id], start);
      FiresAtDeadlineIff(location[id], pending[id], start);
      OnTimeNotPast(location[id], pending[id], start);
      if id in pending' {
        assert Waiting(id, pending, location, start, pending', location', current);
      } else {
        assert Logged(fired, id);
        var i :| 0 <= i < |fired| && fired[i].id == id;
        assert fired[i] in fired && LogEntry(fired[i], pending, location, start, pending', current);
      }
    }
    forall id | id in pending' ensures pending'[id] == pending[id] {
      assert Waiting(id, pending, location, start, pending', location', current);
    }
  }

  lemma NothingDue(pending: map<nat, nat>, location: map<nat, Loc>, c: nat, at: nat)
    requires OnTimeFor(pending, location, c) && at < c
    ensures RanDue([], pending, pending, at)
  {
  }

  lemma AddKeepsPunctual(pending: map<nat, nat>, location: map<nat, Loc>, c: nat, id: nat, deadline: nat, loc: Loc,
                         m: nat, dirty: bool)
    requires id !in pending && deadline < UINT64
    ensures OnTimeFor(pending, location, c) ==>
      (OnTimeFor(pending[id := deadline], location[id := loc], c) <==> OnTime(loc, deadline, c))
    ensures CacheFor(pending, m, dirty) ==>
      CacheFor(pending[id := deadline], if !dirty && deadline < m then deadline else m, dirty)
  {
    if CacheFor(pending, m, dirty) && !dirty {
      MinAfterAdd(pending, m, id, deadline);
    }
    var pending', location' := pending[id := deadline], location[id := loc];
    assert location'[id] == loc && pending'[id] == deadline;
    if OnTimeFor(pending, location, c) && OnTime(loc, deadline, c) {
      forall k | k in pending' ensures k in location' && OnTime(location'[k], pending'[k], c) {
        if k != id { assert k in pending && OnTime(location[k], pending[k], c); }
      }
    }
  }

  /** A wheel about to process `start` with exact cached minimum `m` has a stale one when it has processed everything
      before `current`: no timer fires by `m`, but all those due at `m` fire, late, before `current`. */
  ghost predicate GoesStale(pending: map<nat, nat>, location: map<nat, Loc>, start: nat, current: nat, m: nat) {
    && (forall id :: id in pending && id in location ==> m < NextFire(location[id], pending[id], start))
    && (forall id :: id in pending && id in location && pending[id] == m ==>
          NextFire(location[id], pending[id], start) < current)
  }

  /** A pending timer is gone after a stretch of iterations exactly when its firing time lies in it. */
  lemma GoneIff(st: Store, pending: map<nat, nat>, start: nat, pending': map<nat, nat>, location': map<nat, Loc>,
                current: nat, fired: seq<Fired>, id: nat)
    requires Agrees(st, pending) && Ran(pending, st.location, start, pending', location', current, fired)
        && id in pending
    ensures id in st.location && (id !in pending' <==> NextFire(st.location[id], pending[id], start) < current)
    ensures id !in pending' ==>
      exists i :: 0 <= i < |fired| && fired[i].id == id && fired[i].at == NextFire(st.location[id], pending[id], start)
  {
    var loc, d := st.location[id], pending[id];
    assert Homed(id, st.slots, st.location, pending);
    var next := NextFire(loc, d, start);
    FiresAtIff(loc, d, start, next);
    if id in pending' {
      assert Waiting(id, pending, st.location, start, pending', location', current);
    } else {
      assert Logged(fired, id);
      var i :| 0 <= i < |fired| && fired[i].id == id;
      assert fired[i] in fired && LogEntry(fired[i], pending, st.location, start, pending', current);
      FiresAtIff(loc, d, start, fired[i].at);
    }
  }

  /** A firing by time `t` in the log is some timer's firing time by `t`, before `current`. */
  lemma FiredByIff(st: Store, pending: map<nat, nat>, start: nat, pending': map<nat, nat>, location': map<nat, Loc>,
                   current: nat, fired: seq<Fired>, t: nat)
    requires Agrees(st, pending) && Ran(pending, st.location, start, pending', location', current, fired)
    ensures FiredBy(fired, t)
       <==> exists id :: id in pending && id in st.location
                      && NextFire(st.location[id], pending[id], start) < current
                      && NextFire(st.location[id], pending[id], start) <= t
  {
    if FiredBy(fired, t) {
      var i :| 0 <= i < |fired| && fired[i].at <= t;
      var f := fired[i];
      assert f in fired && LogEntry(f, pending, st.location, start, pending', current);
      assert Homed(f.id, st.slots, st.location, pending);
      FiresAtIff(st.location[f.id], f.deadline, start, f.at);
    }
    if id :| id in pending && id in st.location && NextFire(st.location[id], pending[id], start) < current
             && NextFire(st.location[id], pending[id], start) <= t {
      GoneIff(st, pending, start, pending', location', current, fired, id);
    }
  }

  /** When a run leaves a clean cached minimum that is not the minimum, as a condition on the state before it. */
  lemma StaleIff(st: Store, pending: map<nat, nat>, start: nat, pending': map<nat, nat>, location': map<nat, Loc>,
                 current: nat, fired: seq<Fired>, m: nat, cache': nat, dirty': bool)
    requires Agrees(st, pending) && pending != map[] && IsMinDeadline(pending, m) && current <= UINT64
    requires Ran(pending, st.location, start, pending', location', current, fired)
    requires CacheRule(fired, m, false, cache', dirty')
    ensures !CacheFor(pending', cache', dirty') <==> GoesStale(pending, st.location, start, current, m)
  {
    FiredByIff(st, pending, start, pending', location', current, fired, m);
    forall id | id in pending
      ensures id in st.location && (id !in pending' <==> NextFire(st.location[id], pending[id], start) < current)
    {
      GoneIff(st, pending, start, pending', location', current, fired, id);
    }
    forall id | id in pending' ensures pending'[id] == pending[id] {
      assert Waiting(id, pending, st.location, start, pending', location', current);
    }
    var k :| k in pending && pending[k] == m;
    assert k in st.location;
  }
}
