/** Per-thread metric storage, its folding into the dead-thread accumulators, and collection. Each metric
    operation is one atomic step; all arithmetic is modulo 2^64. */
module Metrics {

  const M := 0x1_0000_0000_0000_0000
  const INVALID_ID := 0xFFFF_FFFF

  /** A histogram has one more count than bounds; no counts at all means not created yet. */
  datatype Hist = Hist(counts: seq<nat>, sum: nat, count: nat)
  /** A thread's storage, and equally the dead-thread accumulators and a collected result. */
  datatype Storage = Storage(counters: seq<nat>, hists: seq<Hist>)
  datatype Meta = Counter | Histogram(bounds: seq<nat>)

  const EMPTY := Storage([], [])

  /** One number the registry keeps. */
  datatype Cell = Count(id: nat) | Bucket(id: nat, b: nat) | Sum(id: nat) | Observations(id: nat)

  function At(s: seq<nat>, i: nat): nat {
    if i < |s| then s[i] else 0
  }

  function HistAt(hs: seq<Hist>, i: nat): Hist {
    if i < |hs| then hs[i] else Hist([], 0, 0)
  }

  function Value(st: Storage, c: Cell): nat {
    match c
    case Count(id) => At(st.counters, id)
    case Bucket(id, b) => At(HistAt(st.hists, id).counts, b)
    case Sum(id) => HistAt(st.hists, id).sum
    case Observations(id) => HistAt(st.hists, id).count
  }

  /** `resize` with zeros. */
  function Grown(s: seq<nat>, n: nat): (r: seq<nat>)
    ensures |r| == if |s| < n then n else |s|
    ensures forall i: nat {:trigger At(r, i)} :: At(r, i) == At(s, i)
  {
    if |s| < n then s + seq(n - |s|, _ => 0) else s
  }

  function GrownHists(s: seq<Hist>, n: nat): (r: seq<Hist>)
    ensures |r| == if |s| < n then n else |s|
    ensures forall i: nat {:trigger HistAt(r, i)} :: HistAt(r, i) == HistAt(s, i)
  {
    if |s| < n then s + seq(n - |s|, _ => Hist([], 0, 0)) else s
  }

  /** The histogram exists in this storage. */
  predicate Created(st: Storage, id: nat) {
    HistAt(st.hists, id).counts != []
  }

  function Add(a: nat, b: nat): nat {
    (a + b) % M
  }

  /** Histogram counts have the length their bounds call for. */
  predicate Fits(hs: seq<Hist>, metas: seq<Meta>) {
    forall i :: 0 <= i < |hs| ==> HistFits(hs[i], i, metas)
  }

  predicate HistFits(h: Hist, i: nat, metas: seq<Meta>) {
    if h.counts == [] then h.sum == 0 && h.count == 0
    else i < |metas| && metas[i].Histogram? && |h.counts| == |metas[i].bounds| + 1
  }

  /** Add `src` into `dest`, position by position. */
  method AddCounts(dest: seq<nat>, src: seq<nat>) returns (r: seq<nat>)
    requires |src| <= |dest|
    ensures |r| == |dest|
    ensures forall i: nat :: At(r, i) == if i < |src| then Add(At(dest, i), At(src, i)) else At(dest, i)
  {
    r := dest;
    for i := 0 to |src|
      invariant |r| == |dest|
      invariant forall j: nat :: At(r, j) == if j < i then Add(At(dest, j), At(src, j)) else At(dest, j)
    {
      r := r[i := Add(r[i], src[i])];
    }
  }

  /** One histogram folded into another of the same shape or not yet created. */
  method AddHist(dest: Hist, src: Hist) returns (r: Hist)
    requires src.counts == [] ==> src.sum == 0 && src.count == 0
    requires dest.counts != [] && src.counts != [] ==> |dest.counts| == |src.counts|
    requires dest.counts == [] ==> dest.sum == 0 && dest.count == 0
    requires HistReduced(dest)
    ensures HistReduced(r)
    ensures |r.counts| == if src.counts == [] then |dest.counts| else |src.counts|
    ensures r.sum == Add(dest.sum, src.sum) && r.count == Add(dest.count, src.count)
    ensures forall b: nat :: At(r.counts, b) == Add(At(dest.counts, b), At(src.counts, b))
  {
    if src.counts == [] {
      return dest;
    }
    var counts := AddCounts(Grown(dest.counts, |src.counts|), src.counts);
    return Hist(counts, Add(dest.sum, src.sum), Add(dest.count, src.count));
  }

  /** Every value is a 64-bit one. */
  ghost predicate Reduced(st: Storage) {
    && (forall i: nat :: At(st.counters, i) < M)
    && (forall i: nat :: HistReduced(HistAt(st.hists, i)))
  }

  ghost predicate HistReduced(h: Hist) {
    h.sum < M && h.count < M && forall b: nat :: At(h.counts, b) < M
  }

  /** Fold a thread's storage into accumulated values: the loops of `UnregisterThread` and of `Collect`. */
  method Merge(dest: Storage, src: Storage, metas: seq<Meta>) returns (r: Storage)
    requires Fits(dest.hists, metas) && Fits(src.hists, metas) && Reduced(dest) && Reduced(src)
    ensures Fits(r.hists, metas) && Reduced(r)
    ensures |dest.counters| <= |r.counters| && |dest.hists| <= |r.hists|
    ensures forall c: Cell :: Value(r, c) == Add(Value(dest, c), Value(src, c))
    ensures forall id: nat :: Created(r, id) <==> Created(dest, id) || Created(src, id)
  {
    var counters := AddCounts(Grown(dest.counters, |src.counters|), src.counters);
    var hists := MergeHists(dest.hists, src.hists, metas);
    r := Storage(counters, hists);
    forall id: nat ensures Created(r, id) <==> Created(dest, id) || Created(src, id) {
      assert id < |src.hists| ==> Folded(HistAt(hists, id), HistAt(dest.hists, id), src.hists[id]);
    }
    forall c: Cell ensures Value(r, c) == Add(Value(dest, c), Value(src, c)) {
      assert At(dest.counters, c.id) < M && HistReduced(HistAt(dest.hists, c.id));
      assert c.id < |src.hists| ==> Folded(HistAt(hists, c.id), HistAt(dest.hists, c.id), src.hists[c.id]);
    }
  }

  method MergeHists(dest: seq<Hist>, src: seq<Hist>, metas: seq<Meta>) returns (r: seq<Hist>)
    requires Fits(dest, metas) && Fits(src, metas) && forall j: nat :: HistReduced(HistAt(dest, j))
    ensures Fits(r, metas) && |dest| <= |r| && forall j: nat :: HistReduced(HistAt(r, j))
    ensures forall j: nat :: j < |src| ==> Folded(HistAt(r, j), HistAt(dest, j), src[j])
    ensures forall j: nat :: |src| <= j ==> HistAt(r, j) == HistAt(dest, j)
  {
    r := GrownHists(dest, |src|);
    assert forall i :: 0 <= i < |r| ==> HistFits(HistAt(r, i), i, metas);
    for i := 0 to |src|
      invariant |r| == if |dest| < |src| then |src| else |dest|
      invariant Fits(r, metas) && forall j: nat :: HistReduced(HistAt(r, j))
      invariant forall j: nat :: j < i ==> Folded(HistAt(r, j), HistAt(dest, j), src[j])
      invariant forall j: nat :: i <= j ==> HistAt(r, j) == HistAt(dest, j)
    {
      assert HistFits(r[i], i, metas) && HistFits(src[i], i, metas) && HistReduced(HistAt(r, i));
      var h := AddHist(r[i], src[i]);
      ghost var before := r;
      r := r[i := h];
      assert forall j: nat :: HistAt(r, j) == if j == i then h else HistAt(before, j);
    }
  }

  ghost predicate Folded(r: Hist, a: Hist, b: Hist) {
    && (r.counts == [] <==> a.counts == [] && b.counts == [])
    && r.sum == Add(a.sum, b.sum) && r.count == Add(a.count, b.count)
    && forall k: nat :: At(r.counts, k) == Add(At(a.counts, k), At(b.counts, k))
  }

  /** The first bound the value does not exceed, or the number of bounds. */
  function BucketIndex(v: nat, bounds: seq<nat>): (i: nat)
    ensures i <= |bounds| && (i < |bounds| ==> v <= bounds[i])
    ensures forall j :: 0 <= j < i ==> bounds[j] < v
  {
    if bounds == [] || v <= bounds[0] then 0 else 1 + BucketIndex(v, bounds[1..])
  }

  /** A recorded increment or observation. */
  datatype Event = Inc(id: nat, v: nat) | Observe(id: nat, v: nat)

  predicate Known(e: Event, metas: seq<Meta>) {
    e.Observe? ==> e.id < |metas| && metas[e.id].Histogram?
  }

  /** What one event adds to one cell. */
  function Contribution(e: Event, metas: seq<Meta>, c: Cell): nat {
    match e
    case Inc(id, v) => if c == Count(id) then v else 0
    case Observe(id, v) =>
      if id < |metas| && metas[id].Histogram? then
        if c == Bucket(id, BucketIndex(v, metas[id].bounds)) || c == Observations(id) then 1
        else if c == Sum(id) then v else 0
      else 0
  }

  /** What a whole history adds to one cell. */
  function Recorded(history: seq<Event>, metas: seq<Meta>, c: Cell): nat {
    if history == [] then 0
    else Recorded(history[..|history| - 1], metas, c) + Contribution(history[|history| - 1], metas, c)
  }

  lemma {:induction false} RecordedNext(history: seq<Event>, e: Event, metas: seq<Meta>, c: Cell)
    ensures Recorded(history + [e], metas, c) == Recorded(history, metas, c) + Contribution(e, metas, c)
  {
  }

  lemma {:induction false} RecordedGrow(history: seq<Event>, metas: seq<Meta>, m: Meta, c: Cell)
    requires forall i :: 0 <= i < |history| ==> Known(history[i], metas)
    ensures Recorded(history, metas + [m], c) == Recorded(history, metas, c)
  {
    if history != [] {
      RecordedGrow(history[..|history| - 1], metas, m, c);
      assert Known(history[|history| - 1], metas);
    }
  }

  /** The amounts by which a counter was incremented, added up. */
  function Amounts(history: seq<Event>, id: nat): nat {
    if history == [] then 0
    else
      var e := history[|history| - 1];
      Amounts(history[..|history| - 1], id) + if e.Inc? && e.id == id then e.v else 0
  }

  /** The values observed by a histogram, added up, and how many there are. */
  function ValuesSum(history: seq<Event>, id: nat): nat {
    if history == [] then 0
    else
      var e := history[|history| - 1];
      ValuesSum(history[..|history| - 1], id) + if e.Observe? && e.id == id then e.v else 0
  }

  function ValuesCount(history: seq<Event>, id: nat): nat {
    if history == [] then 0
    else
      var e := history[|history| - 1];
      ValuesCount(history[..|history| - 1], id) + if e.Observe? && e.id == id then 1 else 0
  }

  /** Bucket `b` is for the values above every earlier bound and not above its own. */
  predicate Lands(v: nat, bounds: seq<nat>, b: nat) {
    b <= |bounds| && (forall j :: 0 <= j < b ==> bounds[j] < v) && (b < |bounds| ==> v <= bounds[b])
  }

  function ValuesIn(history: seq<Event>, id: nat, bounds: seq<nat>, b: nat): nat {
    if history == [] then 0
    else
      var e := history[|history| - 1];
      ValuesIn(history[..|history| - 1], id, bounds, b)
      + if e.Observe? && e.id == id && Lands(e.v, bounds, b) then 1 else 0
  }

  /** The four kinds of cell, as what they are for. */
  lemma {:induction false} TallyIs(history: seq<Event>, metas: seq<Meta>, id: nat)
    requires forall i :: 0 <= i < |history| ==> Known(history[i], metas)
    ensures Recorded(history, metas, Count(id)) == Amounts(history, id)
    ensures Recorded(history, metas, Sum(id)) == ValuesSum(history, id)
    ensures Recorded(history, metas, Observations(id)) == ValuesCount(history, id)
  {
    if history != [] {
      TallyIs(history[..|history| - 1], metas, id);
      assert Known(history[|history| - 1], metas);
    }
  }

  lemma {:induction false} BucketTallyIs(history: seq<Event>, metas: seq<Meta>, id: nat, b: nat)
    requires id < |metas| && metas[id].Histogram?
    ensures Recorded(history, metas, Bucket(id, b)) == ValuesIn(history, id, metas[id].bounds, b)
  {
    if history != [] {
      BucketTallyIs(history[..|history| - 1], metas, id, b);
    }
  }

  /** A collection, cell by cell, against what was recorded. */
  ghost predicate Collected(r: Storage, history: seq<Event>, metas: seq<Meta>) {
    forall id: nat {:trigger CellsOf(r, history, metas, id)} :: CellsOf(r, history, metas, id)
  }

  ghost predicate CellsOf(r: Storage, history: seq<Event>, metas: seq<Meta>, id: nat) {
    && At(r.counters, id) == Amounts(history, id) % M
    && HistAt(r.hists, id).sum == ValuesSum(history, id) % M
    && HistAt(r.hists, id).count == ValuesCount(history, id) % M
    && (id < |metas| && metas[id].Histogram? ==>
          forall b: nat :: At(HistAt(r.hists, id).counts, b) == ValuesIn(history, id, metas[id].bounds, b) % M)
  }

  lemma {:induction false} CollectedIs(r: Storage, history: seq<Event>, metas: seq<Meta>)
    requires forall i :: 0 <= i < |history| ==> Known(history[i], metas)
    requires forall c: Cell :: Value(r, c) == Recorded(history, metas, c) % M
    ensures Collected(r, history, metas)
  {
    forall id: nat ensures CellsOf(r, history, metas, id) {
      TallyIs(history, metas, id);
      assert Value(r, Count(id)) == At(r.counters, id) && Value(r, Sum(id)) == HistAt(r.hists, id).sum;
      assert Value(r, Observations(id)) == HistAt(r.hists, id).count;
      if id < |metas| && metas[id].Histogram? {
        forall b: nat ensures At(HistAt(r.hists, id).counts, b) == ValuesIn(history, id, metas[id].bounds, b) % M {
          BucketTallyIs(history, metas, id, b);
          assert Value(r, Bucket(id, b)) == At(HistAt(r.hists, id).counts, b);
        }
      }
    }
  }

  /** A cell summed over the live threads. */
  function SumOver(active: seq<nat>, storage: map<nat, Storage>, c: Cell): nat {
    if active == [] then 0
    else (if active[0] in storage then Value(storage[active[0]], c) else 0) + SumOver(active[1..], storage, c)
  }

  lemma {:induction false} SumOutside(active: seq<nat>, storage: map<nat, Storage>, t: nat, st: Storage, c: Cell)
    requires t !in active
    ensures SumOver(active, storage[t := st], c) == SumOver(active, storage, c)
  {
    if active != [] {
      SumOutside(active[1..], storage, t, st, c);
    }
  }

  predicate Distinct(active: seq<nat>) {
    forall i, j :: 0 <= i < j < |active| ==> active[i] != active[j]
  }

  lemma {:induction false} SumUpdate(active: seq<nat>, storage: map<nat, Storage>, t: nat, st: Storage, c: Cell)
    requires Distinct(active) && t in active && t in storage
    ensures SumOver(active, storage[t := st], c) + Value(storage[t], c) == SumOver(active, storage, c) + Value(st, c)
  {
    if active[0] == t {
      SumOutside(active[1..], storage, t, st, c);
    } else {
      assert active == [active[0]] + active[1..];
      SumUpdate(active[1..], storage, t, st, c);
    }
  }

  lemma {:induction false} SumAppend(active: seq<nat>, storage: map<nat, Storage>, t: nat, c: Cell)
    ensures SumOver(active + [t], storage, c)
         == SumOver(active, storage, c) + if t in storage then Value(storage[t], c) else 0
  {
    if active == [] {
      assert active + [t] == [t];
    } else {
      SumAppend(active[1..], storage, t, c);
      assert (active + [t])[1..] == active[1..] + [t];
    }
  }

  /** `std::find` and `erase`. */
  function Erased(active: seq<nat>, t: nat): seq<nat> {
    if active == [] then [] else if active[0] == t then active[1..] else [active[0]] + Erased(active[1..], t)
  }

  lemma {:induction false} ErasedMembers(active: seq<nat>, t: nat)
    requires Distinct(active)
    ensures Distinct(Erased(active, t)) && forall k :: k in Erased(active, t) <==> k in active && k != t
  {
    if active != [] {
      assert active == [active[0]] + active[1..] && active[0] !in active[1..];
      ErasedMembers(active[1..], t);
      var rest := Erased(active[1..], t);
      assert forall j :: 0 <= j < |rest| ==> rest[j] in rest;
    }
  }

  lemma {:induction false} SumErased(active: seq<nat>, storage: map<nat, Storage>, t: nat, c: Cell)
    requires Distinct(active) && t in active && t in storage
    ensures SumOver(Erased(active, t), storage - {t}, c) + Value(storage[t], c) == SumOver(active, storage, c)
  {
    assert active == [active[0]] + active[1..];
    if active[0] == t {
      SumWithout(active[1..], storage, t, c);
    } else {
      SumErased(active[1..], storage, t, c);
      assert ([active[0]] + Erased(active[1..], t))[1..] == Erased(active[1..], t);
    }
  }

  lemma {:induction false} SumWithout(active: seq<nat>, storage: map<nat, Storage>, t: nat, c: Cell)
    requires t !in active
    ensures SumOver(active, storage - {t}, c) == SumOver(active, storage, c)
  {
    if active != [] {
      SumWithout(active[1..], storage, t, c);
    }
  }

  /** Equal modulo 2^64. */
  predicate Same(a: nat, b: nat) {
    a % M == b % M
  }

  lemma {:induction false} ModAdd(a: nat, b: nat)
    ensures (a % M + b) % M == (a + b) % M
  {
  }

  /** Dead threads plus live threads account for every recorded event, cell by cell. */
  ghost predicate Conserved(dead: Storage, active: seq<nat>, storage: map<nat, Storage>,
                            history: seq<Event>, metas: seq<Meta>) {
    forall c: Cell {:trigger Balanced(dead, active, storage, history, metas, c)} ::
      Balanced(dead, active, storage, history, metas, c)
  }

  ghost predicate Balanced(dead: Storage, active: seq<nat>, storage: map<nat, Storage>,
                           history: seq<Event>, metas: seq<Meta>, c: Cell) {
    Same(Value(dead, c) + SumOver(active, storage, c), Recorded(history, metas, c))
  }

  /** A thread recording an event keeps the balance. */
  lemma {:induction false} RecordKeeps(dead: Storage, active: seq<nat>, storage: map<nat, Storage>,
                                       history: seq<Event>, metas: seq<Meta>, t: nat, st: Storage, e: Event)
    requires Conserved(dead, active, storage, history, metas) && Distinct(active) && t in active && t in storage
    requires forall c: Cell :: Value(st, c) == Add(Value(storage[t], c), Contribution(e, metas, c))
    ensures Conserved(dead, active, storage[t := st], history + [e], metas)
  {
    var storage', history' := storage[t := st], history + [e];
    forall c: Cell ensures Balanced(dead, active, storage', history', metas, c) {
      assert Balanced(dead, active, storage, history, metas, c);
      SumUpdate(active, storage, t, st, c);
      RecordedNext(history, e, metas, c);
      AddBalance(Value(dead, c), SumOver(active, storage, c), SumOver(active, storage[t := st], c),
                 Value(storage[t], c), Value(st, c), Contribution(e, metas, c), Recorded(history, metas, c));
    }
  }

  lemma {:induction false} AddBalance(dead: nat, sum: nat, sum': nat, v: nat, v': nat, d: nat, total: nat)
    requires Same(dead + sum, total) && sum' + v == sum + v' && v' == (v + d) % M
    ensures Same(dead + sum', total + d)
  {
    var q := (v + d) / M;
    assert v' == v + d - q * M;
    assert dead + sum' == dead + sum + d - q * M;
    Shift(dead + sum + d, q);
    ModAdd(dead + sum, d);
    ModAdd(total, d);
  }

  lemma {:induction false} Shift(a: nat, q: nat)
    requires a >= q * M
    ensures (a - q * M) % M == a % M
  {
  }

  /** A thread's exit moves its share from the live to the dead. */
  lemma {:induction false} ExitKeeps(dead: Storage, active: seq<nat>, storage: map<nat, Storage>,
                                     history: seq<Event>, metas: seq<Meta>, t: nat, dead': Storage)
    requires Conserved(dead, active, storage, history, metas) && Distinct(active) && t in active && t in storage
    requires forall c: Cell :: Value(dead', c) == Add(Value(dead, c), Value(storage[t], c))
    ensures Conserved(dead', Erased(active, t), storage - {t}, history, metas)
  {
    forall c: Cell ensures Balanced(dead', Erased(active, t), storage - {t}, history, metas, c) {
      assert Balanced(dead, active, storage, history, metas, c);
      SumErased(active, storage, t, c);
      ModAdd(Value(dead, c) + Value(storage[t], c), SumOver(Erased(active, t), storage - {t}, c));
    }
  }

  lemma {:induction false} StartKeeps(dead: Storage, active: seq<nat>, storage: map<nat, Storage>,
                                      history: seq<Event>, metas: seq<Meta>, t: nat)
    requires Conserved(dead, active, storage, history, metas) && t !in active
    ensures Conserved(dead, active + [t], storage[t := EMPTY], history, metas)
  {
    var active', storage' := active + [t], storage[t := EMPTY];
    forall c: Cell ensures Balanced(dead, active', storage', history, metas, c) {
      assert Balanced(dead, active, storage, history, metas, c);
      SumOutside(active, storage, t, EMPTY, c);
      SumAppend(active, storage[t := EMPTY], t, c);
    }
  }

  ghost predicate Seen(history: seq<Event>, id: nat) {
    exists i :: 0 <= i < |history| && history[i].Observe? && history[i].id == id
  }

  ghost predicate CreatedIn(threads: seq<nat>, storage: map<nat, Storage>, id: nat) {
    exists t :: t in threads && t in storage && Created(storage[t], id)
  }

  /** A histogram exists somewhere exactly when it was ever observed. */
  ghost predicate Traced(dead: Storage, active: seq<nat>, storage: map<nat, Storage>, history: seq<Event>) {
    forall id: nat {:trigger Seen(history, id)} ::
        Seen(history, id) <==> Created(dead, id) || CreatedIn(active, storage, id)
  }

  lemma TraceRecord(dead: Storage, active: seq<nat>, storage: map<nat, Storage>, history: seq<Event>,
                    t: nat, st: Storage, e: Event)
    requires Traced(dead, active, storage, history) && t in active && t in storage
    requires forall id: nat :: Created(st, id) <==> Created(storage[t], id) || (e.Observe? && e.id == id)
    ensures Traced(dead, active, storage[t := st], history + [e])
  {
    var storage', history' := storage[t := st], history + [e];
    forall id: nat ensures Seen(history', id) <==> Created(dead, id) || CreatedIn(active, storage', id) {
      SeenNext(history, e, id);
      assert storage'[t] == st;
      if CreatedIn(active, storage', id) {
        var u :| u in active && u in storage' && Created(storage'[u], id);
        assert u != t ==> Created(storage[u], id);
      }
      if CreatedIn(active, storage, id) {
        var u :| u in active && u in storage && Created(storage[u], id);
        assert Created(storage'[u], id);
      }
    }
  }

  lemma SeenNext(history: seq<Event>, e: Event, id: nat)
    ensures Seen(history + [e], id) <==> Seen(history, id) || (e.Observe? && e.id == id)
  {
    var history' := history + [e];
    assert history'[|history|] == e;
    if Seen(history, id) {
      var i :| 0 <= i < |history| && history[i].Observe? && history[i].id == id;
      assert history'[i] == history[i];
    }
  }

  lemma TraceExit(dead: Storage, active: seq<nat>, storage: map<nat, Storage>, history: seq<Event>, t: nat,
                  dead': Storage)
    requires Traced(dead, active, storage, history) && Distinct(active) && t in active && t in storage
    requires forall id: nat :: Created(dead', id) <==> Created(dead, id) || Created(storage[t], id)
    ensures Traced(dead', Erased(active, t), storage - {t}, history)
  {
    ErasedMembers(active, t);
    var rest, storage' := Erased(active, t), storage - {t};
    forall id: nat ensures Seen(history, id) <==> Created(dead', id) || CreatedIn(rest, storage', id) {
      if CreatedIn(active, storage, id) && !Created(storage[t], id) {
        var u :| u in active && u in storage && Created(storage[u], id);
        assert u in rest && u in storage';
      }
      if CreatedIn(rest, storage', id) {
        var u :| u in rest && u in storage' && Created(storage'[u], id);
        assert u in active && Created(storage[u], id);
      }
    }
  }

  lemma TraceStart(dead: Storage, active: seq<nat>, storage: map<nat, Storage>, history: seq<Event>, t: nat)
    requires Traced(dead, active, storage, history) && t !in active
    ensures Traced(dead, active + [t], storage[t := EMPTY], history)
  {
    var active', storage' := active + [t], storage[t := EMPTY];
    forall id: nat ensures Seen(history, id) <==> Created(dead, id) || CreatedIn(active', storage', id) {
      assert !Created(EMPTY, id);
      if CreatedIn(active, storage, id) {
        var u :| u in active && u in storage && Created(storage[u], id);
        assert u in active' && Created(storage'[u], id);
      }
      if CreatedIn(active', storage', id) {
        var u :| u in active' && u in storage' && Created(storage'[u], id);
        assert u in active && Created(storage[u], id);
      }
    }
  }

  predicate Observable(metas: seq<Meta>, id: nat) {
    id != INVALID_ID && id < |metas| && metas[id].Histogram?
  }

  class Registry {
    var metas: seq<Meta>
    /** `active_threads_` in registration order, and each live thread's storage. */
    var active: seq<nat>
    var storage: map<nat, Storage>
    /** `dead_counters_` and `dead_histograms_` */
    var dead: Storage
    /** Every increment and observation ever recorded. */
    ghost var history: seq<Event>

    ghost predicate Valid()
      reads this
    {
      && Distinct(active) && (forall t :: t in active <==> t in storage)
      && Sound(dead, metas) && (forall t :: t in storage ==> Sound(storage[t], metas))
      && (forall i :: 0 <= i < |history| ==> Known(history[i], metas))
      && Conserved(dead, active, storage, history, metas) && Traced(dead, active, storage, history)
    }

    constructor ()
      ensures Valid() && history == [] && metas == []
    {
      metas, active, storage, dead, history := [], [], map[], EMPTY, [];
    }

    method Register(meta: Meta) returns (id: nat)
      requires Valid()
      modifies `metas
      ensures Valid() && id == |old(metas)| && metas == old(metas) + [meta]
    {
      id := |metas|;
      ghost var before := metas;
      metas := metas + [meta];
      forall c: Cell ensures Balanced(dead, active, storage, history, metas, c) {
        assert Balanced(dead, active, storage, history, before, c);
        RecordedGrow(history, before, meta, c);
      }
    }

    /** The first use on a thread constructs and registers its storage. */
    method Touch(t: nat)
      requires Valid()
      modifies `active, `storage
      ensures Valid() && t in storage
      ensures if t in old(storage) then storage == old(storage) else storage == old(storage)[t := EMPTY]
    {
      if t !in storage {
        StartKeeps(dead, active, storage, history, metas, t);
        TraceStart(dead, active, storage, history, t);
        active := active + [t];
        storage := storage[t := EMPTY];
      }
    }

    method CounterInc(t: nat, id: nat, v: nat)
      requires Valid() && v < M
      modifies `active, `storage, `history
      ensures Valid() && history == if id == INVALID_ID then old(history) else old(history) + [Inc(id, v)]
    {
      if id == INVALID_ID {
        return;
      }
      Touch(t);
      var st := Bumped(storage[t], id, v);
      BumpedOk(storage[t], metas, id, v);
      RecordKeeps(dead, active, storage, history, metas, t, st, Inc(id, v));
      TraceRecord(dead, active, storage, history, t, st, Inc(id, v));
      storage := storage[t := st];
      history := history + [Inc(id, v)];
    }

    /** Ignored unless the id is a registered histogram. */
    method HistogramObserve(t: nat, id: nat, v: nat)
      requires Valid() && v < M
      modifies `active, `storage, `history
      ensures Valid()
      ensures history == if Observable(metas, id) then old(history) + [Observe(id, v)] else old(history)
    {
      if !Observable(metas, id) {
        return;
      }
      Touch(t);
      var st := Observed(storage[t], metas, id, v);
      RecordKeeps(dead, active, storage, history, metas, t, st, Observe(id, v));
      TraceRecord(dead, active, storage, history, t, st, Observe(id, v));
      storage := storage[t := st];
      history := history + [Observe(id, v)];
    }

    /** `UnregisterThread` */
    method ThreadExit(t: nat)
      requires Valid()
      modifies `active, `storage, `dead
      ensures Valid() && storage == old(storage) - {t}
    {
      if t !in storage {
        assert storage - {t} == storage;
        return;
      }
      var merged := Merge(dead, storage[t], metas);
      ExitKeeps(dead, active, storage, history, metas, t, merged);
      TraceExit(dead, active, storage, history, t, merged);
      ErasedMembers(active, t);
      dead := merged;
      active := Erased(active, t);
      storage := storage - {t};
    }

    /** The sum over dead and live threads: exactly what was ever recorded, modulo 2^64. */
    method Collect() returns (r: Storage)
      requires Valid()
      ensures Sound(r, metas) && |metas| <= |r.counters| && |metas| <= |r.hists|
      ensures forall c: Cell :: Value(r, c) == Recorded(history, metas, c) % M
      ensures forall id: nat :: Created(r, id) <==> Seen(history, id)
      ensures Collected(r, history, metas)
    {
      r := Gather(dead, active, storage, metas);
      forall c: Cell ensures Value(r, c) == Recorded(history, metas, c) % M {
        assert Balanced(dead, active, storage, history, metas, c);
      }
      CollectedIs(r, history, metas);
    }

    /** The exported lines of one histogram: a running total per bound, one for `+Inf`, then `_sum` and `_count`. */
    method ExportHistogram(id: nat) returns (present: bool, lines: seq<nat>, sum: nat, count: nat)
      requires Valid() && Observable(metas, id)
      ensures present <==> Seen(history, id)
      ensures present ==> |lines| == |metas[id].bounds| + 1
      ensures present ==> forall i :: 0 <= i <= |metas[id].bounds| ==> lines[i] == Line(history, metas, id, i)
      ensures present ==> lines[|metas[id].bounds|] == count == ValuesCount(history, id) % M
      ensures present ==> sum == ValuesSum(history, id) % M
      ensures present && Nondecreasing(metas[id].bounds) ==>
        forall i :: 0 <= i < |metas[id].bounds| ==> lines[i] == AtMost(history, id, metas[id].bounds[i]) % M
    {
      var r := Collect();
      var h := r.hists[id];
      present := h.counts != [];
      assert present <==> Created(r, id);
      lines, sum, count := [], h.sum, h.count;
      assert CellsOf(r, history, metas, id);
      if present {
        var n := |metas[id].bounds|;
        lines := RunningTotals(h.counts, n);
        forall b | 0 <= b <= n ensures h.counts[b] == Recorded(history, metas, Bucket(id, b)) % M {
          assert Value(r, Bucket(id, b)) == h.counts[b];
        }
        LinesMean(lines, h.counts, history, metas, id);
        TallyIs(history, metas, id);
      }
    }
  }

  /** Running totals of collected counts, read as counts of observations. */
  lemma LinesMean(lines: seq<nat>, counts: seq<nat>, history: seq<Event>, metas: seq<Meta>, id: nat)
    requires id < |metas| && metas[id].Histogram? && |lines| == |metas[id].bounds| + 1 <= |counts|
    requires forall b :: 0 <= b < |lines| ==> counts[b] == Recorded(history, metas, Bucket(id, b)) % M
    requires forall i :: 0 <= i < |lines| ==> lines[i] == Total(counts, i + 1) % M
    ensures forall i :: 0 <= i < |lines| ==> lines[i] == Line(history, metas, id, i)
    ensures lines[|metas[id].bounds|] == Recorded(history, metas, Observations(id)) % M
    ensures Nondecreasing(metas[id].bounds) ==>
      forall i :: 0 <= i < |metas[id].bounds| ==> lines[i] == AtMost(history, id, metas[id].bounds[i]) % M
  {
    forall i | 0 <= i < |lines| ensures lines[i] == Line(history, metas, id, i) {
      TotalIsBelow(counts, history, metas, id, i + 1);
    }
    AllBelow(history, metas, id);
    if Nondecreasing(metas[id].bounds) {
      forall i | 0 <= i < |metas[id].bounds| ensures Line(history, metas, id, i) ==
          AtMost(history, id, metas[id].bounds[i]) % M {
        BelowIsAtMost(history, metas, id, i);
      }
    }
  }

  ghost predicate Sound(st: Storage, metas: seq<Meta>) {
    Fits(st.hists, metas) && Reduced(st)
  }

  lemma {:induction false} GrownSound(dead: Storage, metas: seq<Meta>)
    requires Sound(dead, metas)
    ensures var r := Storage(Grown(dead.counters, |metas|), GrownHists(dead.hists, |metas|));
      Sound(r, metas) && forall c: Cell :: Value(r, c) == Value(dead, c)
  {
  }

  /** The loops of `Collect`: the dead threads' values, then every live thread's on top. */
  method Gather(dead: Storage, active: seq<nat>, storage: map<nat, Storage>, metas: seq<Meta>) returns (r: Storage)
    requires Sound(dead, metas) && forall t :: t in active ==> t in storage && Sound(storage[t], metas)
    ensures Sound(r, metas) && |metas| <= |r.counters| && |metas| <= |r.hists|
    ensures forall c: Cell :: Value(r, c) == (Value(dead, c) + SumOver(active, storage, c)) % M
    ensures forall id: nat :: Created(r, id) <==> Created(dead, id) || CreatedIn(active, storage, id)
  {
    r := Storage(Grown(dead.counters, |metas|), GrownHists(dead.hists, |metas|));
    GrownSound(dead, metas);
    assert active[..0] == [];
    forall c: Cell ensures Value(r, c) == Value(dead, c) % M {
      assert HistReduced(HistAt(dead.hists, c.id)) && At(dead.counters, c.id) < M;
    }
    for i := 0 to |active|
      invariant Sound(r, metas) && |metas| <= |r.counters| && |metas| <= |r.hists|
      invariant Gathered(r, dead, active[..i], storage) && Joined(r, dead, active[..i], storage)
    {
      var next := Merge(r, storage[active[i]], metas);
      GatheredNext(r, next, dead, active[..i], storage, active[i]);
      JoinedNext(r, next, dead, active[..i], storage, active[i]);
      assert active[..i + 1] == active[..i] + [active[i]];
      r := next;
    }
    assert active[..|active|] == active;
  }

  ghost predicate Gathered(r: Storage, dead: Storage, threads: seq<nat>, storage: map<nat, Storage>) {
    forall c: Cell :: Value(r, c) == (Value(dead, c) + SumOver(threads, storage, c)) % M
  }

  ghost predicate Joined(r: Storage, dead: Storage, threads: seq<nat>, storage: map<nat, Storage>) {
    forall id: nat :: Created(r, id) <==> Created(dead, id) || CreatedIn(threads, storage, id)
  }

  lemma JoinedNext(r: Storage, r': Storage, dead: Storage, threads: seq<nat>, storage: map<nat, Storage>, t: nat)
    requires Joined(r, dead, threads, storage) && t in storage
    requires forall id: nat :: Created(r', id) <==> Created(r, id) || Created(storage[t], id)
    ensures Joined(r', dead, threads + [t], storage)
  {
    var threads' := threads + [t];
    forall id: nat ensures Created(r', id) <==> Created(dead, id) || CreatedIn(threads', storage, id) {
      if CreatedIn(threads, storage, id) {
        var u :| u in threads && u in storage && Created(storage[u], id);
        assert u in threads';
      }
      assert t in threads';
    }
  }

  lemma {:induction false} GatheredNext(r: Storage, r': Storage, dead: Storage, threads: seq<nat>,
                                        storage: map<nat, Storage>, t: nat)
    requires Gathered(r, dead, threads, storage) && t in storage
    requires forall c: Cell :: Value(r', c) == Add(Value(r, c), Value(storage[t], c))
    ensures Gathered(r', dead, threads + [t], storage)
  {
    var threads' := threads + [t];
    forall c: Cell ensures Value(r', c) == (Value(dead, c) + SumOver(threads', storage, c)) % M {
      SumAppend(threads, storage, t, c);
      ModAdd(Value(dead, c) + SumOver(threads, storage, c), Value(storage[t], c));
    }
  }

  /** `GetCounter(id).fetch_add(v)` */
  function Bumped(st: Storage, id: nat, v: nat): Storage {
    var counters := Grown(st.counters, id + 1);
    st.(counters := counters[id := Add(counters[id], v)])
  }

  lemma {:induction false} BumpedOk(st: Storage, metas: seq<Meta>, id: nat, v: nat)
    requires Sound(st, metas)
    ensures Sound(Bumped(st, id, v), metas)
    ensures forall c: Cell :: Value(Bumped(st, id, v), c) == Add(Value(st, c), Contribution(Inc(id, v), metas, c))
  {
    var counters := Grown(st.counters, id + 1);
    assert counters[id] == At(counters, id);
    var r := Bumped(st, id, v);
    forall i: nat ensures At(r.counters, i) == if i == id then Add(At(st.counters, id), v) else At(st.counters, i) {
      assert i != id ==> At(r.counters, i) == At(counters, i);
    }
    assert forall i: nat :: HistReduced(HistAt(st.hists, i));
  }

  /** `HistogramObserve` on one histogram, created on first use. */
  method Bump(h: Hist, bounds: seq<nat>, v: nat) returns (r: Hist)
    requires HistReduced(h) && if h.counts == [] then h.sum == 0 && h.count == 0 else |h.counts| == |bounds| + 1
    ensures |r.counts| == |bounds| + 1 && HistReduced(r)
    ensures r.sum == Add(h.sum, v) && r.count == Add(h.count, 1)
    ensures forall b: nat :: At(r.counts, b) == Add(At(h.counts, b), if b == BucketIndex(v, bounds) then 1 else 0)
  {
    var counts := h.counts;
    if |counts| == 0 {
      counts := Grown([], |bounds| + 1);
    }
    assert forall b: nat :: At(counts, b) == At(h.counts, b);
    var i := 0;
    while i < |bounds| && !(v <= bounds[i])
      invariant i <= |bounds| && forall j :: 0 <= j < i ==> bounds[j] < v
    {
      i := i + 1;
    }
    assert i == BucketIndex(v, bounds);
    r := Hist(counts[i := Add(counts[i], 1)], Add(h.sum, v), Add(h.count, 1));
    assert forall b: nat :: At(r.counts, b) == if b == i then Add(At(counts, b), 1) else At(counts, b);
  }

  method Observed(st: Storage, metas: seq<Meta>, id: nat, v: nat) returns (r: Storage)
    requires Sound(st, metas) && id < |metas| && metas[id].Histogram?
    ensures Sound(r, metas)
    ensures forall c: Cell :: Value(r, c) == Add(Value(st, c), Contribution(Observe(id, v), metas, c))
    ensures forall i: nat :: Created(r, i) <==> Created(st, i) || i == id
  {
    var hists := GrownHists(st.hists, id + 1);
    assert hists[id] == HistAt(hists, id) == HistAt(st.hists, id);
    assert HistReduced(HistAt(st.hists, id)) && (id < |st.hists| ==> HistFits(st.hists[id], id, metas));
    var h := Bump(hists[id], metas[id].bounds, v);
    r := st.(hists := hists[id := h]);
    ReplacedOk(st, r, metas, id, h);
    forall c: Cell ensures Value(r, c) == Add(Value(st, c), Contribution(Observe(id, v), metas, c)) {
      assert HistReduced(HistAt(st.hists, c.id)) && At(st.counters, c.id) < M;
    }
  }

  lemma {:induction false} ReplacedOk(st: Storage, r: Storage, metas: seq<Meta>, id: nat, h: Hist)
    requires Sound(st, metas) && HistReduced(h) && HistFits(h, id, metas)
    requires r == st.(hists := GrownHists(st.hists, id + 1)[id := h])
    ensures Sound(r, metas)
    ensures forall i: nat {:trigger HistAt(r.hists, i)} ::
        HistAt(r.hists, i) == if i == id then h else HistAt(st.hists, i)
  {
    var hists := GrownHists(st.hists, id + 1);
    forall i: nat ensures HistAt(r.hists, i) == if i == id then h else HistAt(st.hists, i) {
      assert i != id ==> HistAt(r.hists, i) == HistAt(hists, i);
    }
    forall i | 0 <= i < |r.hists| ensures HistFits(r.hists[i], i, metas) {
      assert r.hists[i] == HistAt(r.hists, i);
    }
  }

  /** The sum of the first `n` counts. */
  function Total(counts: seq<nat>, n: nat): nat
    requires n <= |counts|
  {
    if n == 0 then 0 else Total(counts, n - 1) + counts[n - 1]
  }

  method RunningTotals(counts: seq<nat>, n: nat) returns (lines: seq<nat>)
    requires n < |counts|
    ensures |lines| == n + 1 && forall i :: 0 <= i <= n ==> lines[i] == Total(counts, i + 1) % M
  {
    var cumulative := 0;
    lines := [];
    for i := 0 to n
      invariant |lines| == i && cumulative == Total(counts, i) % M
      invariant forall j :: 0 <= j < i ==> lines[j] == Total(counts, j + 1) % M
    {
      ModAdd(Total(counts, i), counts[i]);
      cumulative := Add(cumulative, counts[i]);
      lines := lines + [cumulative];
    }
    ModAdd(Total(counts, n), counts[n]);
    cumulative := Add(cumulative, counts[n]);
    lines := lines + [cumulative];
  }

  predicate Nondecreasing(bounds: seq<nat>) {
    forall i, j :: 0 <= i < j < |bounds| ==> bounds[i] <= bounds[j]
  }

  /** Observations of a histogram that are at most `limit`. */
  function AtMost(history: seq<Event>, id: nat, limit: nat): nat {
    if history == [] then 0
    else
      var e := history[|history| - 1];
      AtMost(history[..|history| - 1], id, limit) + if e.Observe? && e.id == id && e.v <= limit then 1 else 0
  }

  /** Observations of a histogram that went to one of its first `n` buckets. */
  function CountBelow(history: seq<Event>, metas: seq<Meta>, id: nat, n: nat): nat
    requires id < |metas| && metas[id].Histogram?
  {
    if history == [] then 0
    else
      var e := history[|history| - 1];
      CountBelow(history[..|history| - 1], metas, id, n)
      + if e.Observe? && e.id == id && BucketIndex(e.v, metas[id].bounds) < n then 1 else 0
  }

  lemma {:induction false} BelowNext(history: seq<Event>, metas: seq<Meta>, id: nat, n: nat)
    requires id < |metas| && metas[id].Histogram?
    ensures CountBelow(history, metas, id, n + 1)
         == CountBelow(history, metas, id, n) + Recorded(history, metas, Bucket(id, n))
  {
    if history != [] {
      BelowNext(history[..|history| - 1], metas, id, n);
    }
  }

  lemma {:induction false} NoneBelowZero(history: seq<Event>, metas: seq<Meta>, id: nat)
    requires id < |metas| && metas[id].Histogram?
    ensures CountBelow(history, metas, id, 0) == 0
  {
    if history != [] {
      NoneBelowZero(history[..|history| - 1], metas, id);
    }
  }

  /** Running totals of the collected counts are counts of observations. */
  lemma {:induction false} TotalIsBelow(counts: seq<nat>, history: seq<Event>, metas: seq<Meta>, id: nat, n: nat)
    requires id < |metas| && metas[id].Histogram? && n <= |counts|
    requires forall b :: 0 <= b < n ==> counts[b] == Recorded(history, metas, Bucket(id, b)) % M
    ensures Same(Total(counts, n), CountBelow(history, metas, id, n))
  {
    if n == 0 {
      NoneBelowZero(history, metas, id);
    } else {
      TotalIsBelow(counts, history, metas, id, n - 1);
      BelowNext(history, metas, id, n - 1);
      var recorded := Recorded(history, metas, Bucket(id, n - 1));
      ModAdd(Total(counts, n - 1), counts[n - 1]);
      ModAdd(CountBelow(history, metas, id, n - 1), counts[n - 1]);
      ModAdd(recorded, CountBelow(history, metas, id, n - 1));
    }
  }

  lemma {:induction false} AllBelow(history: seq<Event>, metas: seq<Meta>, id: nat)
    requires id < |metas| && metas[id].Histogram?
    ensures CountBelow(history, metas, id, |metas[id].bounds| + 1) == Recorded(history, metas, Observations(id))
  {
    if history != [] {
      AllBelow(history[..|history| - 1], metas, id);
    }
  }

  lemma {:induction false} BelowIsAtMost(history: seq<Event>, metas: seq<Meta>, id: nat, i: nat)
    requires id < |metas| && metas[id].Histogram? && i < |metas[id].bounds| && Nondecreasing(metas[id].bounds)
    ensures CountBelow(history, metas, id, i + 1) == AtMost(history, id, metas[id].bounds[i])
  {
    if history != [] {
      BelowIsAtMost(history[..|history| - 1], metas, id, i);
      var e := history[|history| - 1];
      if e.Observe? && e.id == id {
        FirstBound(e.v, metas[id].bounds, i);
      }
    }
  }

  lemma {:induction false} FirstBound(v: nat, bounds: seq<nat>, i: nat)
    requires i < |bounds| && Nondecreasing(bounds)
    ensures BucketIndex(v, bounds) <= i <==> v <= bounds[i]
  {
  }

  /** Line `i` of the export, as a function of what was recorded. */
  function Line(history: seq<Event>, metas: seq<Meta>, id: nat, i: nat): nat
    requires id < |metas| && metas[id].Histogram?
  {
    CountBelow(history, metas, id, i + 1) % M
  }

  /** The exported lines count the observations up to each bound, whatever was recorded, exactly when the bounds
      were registered in nondecreasing order. */
  lemma {:induction false} ExportCorrectIff(metas: seq<Meta>, id: nat)
    requires id < |metas| && metas[id].Histogram?
    ensures (forall history: seq<Event>, i: nat | i < |metas[id].bounds| ::
               Line(history, metas, id, i) == AtMost(history, id, metas[id].bounds[i]) % M)
       <==> Nondecreasing(metas[id].bounds)
  {
    var bounds := metas[id].bounds;
    if Nondecreasing(bounds) {
      forall history: seq<Event>, i: nat | i < |bounds|
        ensures Line(history, metas, id, i) == AtMost(history, id, bounds[i]) % M {
        BelowIsAtMost(history, metas, id, i);
      }
    } else {
      var i: nat, j: nat :| i < j < |bounds| && bounds[i] > bounds[j];
      WrongLine(metas, id, i, j);
      var history := [Observe(id, bounds[i])];
      assert Line(history, metas, id, j) != AtMost(history, id, bounds[j]) % M;
    }
  }

  /** For every decreasing pair of bounds, one observation makes the later line wrong. */
  lemma WrongLine(metas: seq<Meta>, id: nat, i: nat, j: nat)
    requires id < |metas| && metas[id].Histogram? && i < j < |metas[id].bounds|
    requires metas[id].bounds[i] > metas[id].bounds[j]
    ensures var history := [Observe(id, metas[id].bounds[i])];
      Line(history, metas, id, j) == 1 && AtMost(history, id, metas[id].bounds[j]) == 0
  {
    var bounds := metas[id].bounds;
    var e := Observe(id, bounds[i]);
    assert [e][..0] == [] && BucketIndex(e.v, bounds) <= i;
    assert CountBelow([], metas, id, j + 1) == 0 && AtMost([], id, bounds[j]) == 0;
  }

  /** The wrong line as a fresh registry exports it. */
  method ExportWrongLine(registry: Registry, bounds: seq<nat>, i: nat, j: nat) returns (lines: seq<nat>)
    requires registry.Valid() && registry.metas == [] && registry.history == []
    requires i < j < |bounds| && bounds[j] < bounds[i] < M
    modifies registry
    ensures registry.Valid() && registry.metas == [Histogram(bounds)] && registry.history == [Observe(0, bounds[i])]
    ensures |lines| == |bounds| + 1 && lines[j] == 1 && AtMost(registry.history, 0, bounds[j]) == 0
  {
    var id := registry.Register(Histogram(bounds));
    registry.HistogramObserve(0, id, bounds[i]);
    assert registry.history[0] == Observe(0, bounds[i]);
    WrongLine(registry.metas, 0, i, j);
    var present;
    var sum, count;
    present, lines, sum, count := registry.ExportHistogram(id);
  }

  /** A step of some thread. */
  datatype Op =
    | NewMetric(meta: Meta) | Increment(thread: nat, metric: nat, amount: nat)
    | Sample(thread: nat, metric: nat, value: nat) | Exit(thread: nat)

  predicate InRange(op: Op) {
    (op.Increment? ==> op.amount < M) && (op.Sample? ==> op.value < M)
  }

  function MetasOf(ops: seq<Op>): seq<Meta> {
    if ops == [] then []
    else
      var rest, op := MetasOf(ops[..|ops| - 1]), ops[|ops| - 1];
      if op.NewMetric? then rest + [op.meta] else rest
  }

  /** What a run records. No thread and no thread exit appears in it. */
  function LogOf(ops: seq<Op>): seq<Event> {
    if ops == [] then []
    else
      var rest, op := LogOf(ops[..|ops| - 1]), ops[|ops| - 1];
      if op.Increment? && op.metric != INVALID_ID then rest + [Inc(op.metric, op.amount)]
      else if op.Sample? && Observable(MetasOf(ops[..|ops| - 1]), op.metric) then rest + [Observe(op.metric, op.value)]
      else rest
  }

  /** The amounts a run adds to a counter, on whatever threads. */
  function Incremented(ops: seq<Op>, id: nat): nat {
    if ops == [] then 0
    else
      var op := ops[|ops| - 1];
      Incremented(ops[..|ops| - 1], id) + if op.Increment? && op.metric == id then op.amount else 0
  }

  /** The values a run gives to a histogram that is registered by then, added up. */
  function Sampled(ops: seq<Op>, id: nat): nat {
    if ops == [] then 0
    else
      var n := |ops| - 1;
      var counts := ops[n].Sample? && ops[n].metric == id && Observable(MetasOf(ops[..n]), id);
      Sampled(ops[..n], id) + if counts then ops[n].value else 0
  }

  lemma {:induction false} LogTotals(ops: seq<Op>, id: nat)
    ensures Amounts(LogOf(ops), id) == if id == INVALID_ID then 0 else Incremented(ops, id)
    ensures ValuesSum(LogOf(ops), id) == Sampled(ops, id)
  {
    if ops != [] {
      var n := |ops| - 1;
      LogTotals(ops[..n], id);
      var rest := LogOf(ops[..n]);
      assert LogOf(ops) == rest || (|LogOf(ops)| == |rest| + 1 && LogOf(ops)[..|rest|] == rest);
    }
  }

  /** Whatever the threads that record and however they come and go, a final collection is the tally of the log. */
  method RunRegistry(ops: seq<Op>) returns (r: Storage)
    requires forall i :: 0 <= i < |ops| ==> InRange(ops[i])
    ensures forall c: Cell :: Value(r, c) == Recorded(LogOf(ops), MetasOf(ops), c) % M
    ensures Collected(r, LogOf(ops), MetasOf(ops))
    ensures forall id: nat :: At(r.counters, id) == (if id == INVALID_ID then 0 else Incremented(ops, id)) % M
    ensures forall id: nat :: HistAt(r.hists, id).sum == Sampled(ops, id) % M
  {
    var registry := new Registry();
    for i := 0 to |ops|
      invariant registry.Valid() && fresh(registry)
      invariant registry.history == LogOf(ops[..i]) && registry.metas == MetasOf(ops[..i])
    {
      assert ops[..i + 1][..i] == ops[..i];
      assert InRange(ops[i]);
      match ops[i]
      case NewMetric(meta) => var _ := registry.Register(meta);
      case Increment(t, id, v) => registry.CounterInc(t, id, v);
      case Sample(t, id, v) => registry.HistogramObserve(t, id, v);
      case Exit(t) => registry.ThreadExit(t);
    }
    assert ops[..|ops|] == ops;
    r := registry.Collect();
    forall id: nat
      ensures At(r.counters, id) == (if id == INVALID_ID then 0 else Incremented(ops, id)) % M
      ensures HistAt(r.hists, id).sum == Sampled(ops, id) % M
    {
      assert CellsOf(r, registry.history, registry.metas, id);
      LogTotals(ops, id);
    }
  }
}
