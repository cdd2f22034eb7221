/** The sorted-map timer: deadline -> ids in id order. It is the simple form the timing wheel refines. */
module TreeMap {
  import opened Common
  import opened WheelPlacement
  import opened TimerSpec

  /** Bucket `time` holds exactly the pending ids with that deadline, in increasing id order. */
  ghost predicate Bucket(bucket: seq<nat>, time: nat, pending: map<nat, nat>) {
    && bucket != []
    && (forall i, j :: 0 <= i < j < |bucket| ==> bucket[i] < bucket[j])
    && (forall id :: id in bucket <==> id in pending && pending[id] == time)
  }

  ghost predicate Represents(timers: map<nat, seq<nat>>, pending: map<nat, nat>) {
    && (forall time {:trigger Bucket(timers[time], time, pending)} :: time in timers ==>
          Bucket(timers[time], time, pending))
    && (forall id :: id in pending ==> pending[id] in timers)
  }

  /** `(int32_t)(deadline - now)`: 64-bit subtraction, then the low 32 bits read as signed. */
  function Truncated(deadline: nat, now: nat): int {
    var low := (deadline - now) % UINT64 % UINT32;
    if low > INT32_MAX then low - UINT32 else low
  }

  function ClampedMin(deadline: nat, now: nat): int {
    var next := Truncated(deadline, now);
    if next < 0 then 0 else next
  }

  class TreeMapTimer {
    var timers: map<nat, seq<nat>>
    var nextId: nat
    ghost var pending: map<nat, nat>

    ghost predicate Valid()
      reads this
    {
      Represents(timers, pending) && forall id :: id in pending ==> id <= nextId
    }

    constructor ()
      ensures Valid() && pending == map[] && nextId == 0
    {
      timers, nextId, pending := map[], 0, map[];
    }

    method AddTimer(delay: nat, now: nat, clock: nat) returns (id: nat)
      requires Valid()
      modifies this
      ensures Valid() && id == nextId == old(nextId) + 1 && id !in old(pending)
      ensures pending == old(pending)[id := ((if now != 0 then now else clock) + delay) % UINT64]
    {
      var time := ((if now != 0 then now else clock) + delay) % UINT64;
      nextId := nextId + 1;
      id := nextId;
      AddKeeps(timers, pending, time, id);
      timers := timers[time := (if time in timers then timers[time] else []) + [id]];
      pending := pending[id := time];
    }

    /** Looks up the bucket by `time`, so the answer is about the bucket and not about `id`. */
    method RemoveTimer(id: nat, time: nat) returns (ok: bool)
      requires Valid()
      modifies this
      ensures Valid() && nextId == old(nextId)
      ensures ok <==> exists k :: k in old(pending) && old(pending)[k] == time
      ensures pending == if id in old(pending) && old(pending)[id] == time then old(pending) - {id} else old(pending)
    {
      if time in timers {
        assert Bucket(timers[time], time, pending);
        assert timers[time][0] in timers[time];
        RemoveKeeps(timers, pending, time, id);
        var bucket := WithoutId(timers[time], id);
        if bucket == [] {
          timers := timers - {time};
        } else {
          timers := timers[time := bucket];
        }
        if id in pending && pending[id] == time {
          pending := pending - {id};
        }
        return true;
      }
      return false;
    }

    method MinTime(now: nat, clock: nat) returns (r: int)
      requires Valid()
      ensures pending == map[] <==> r == -1
      ensures pending != map[] ==>
        exists m :: IsMinDeadline(pending, m) && r == ClampedMin(m, if now != 0 then now else clock)
    {
      if timers == map[] {
        return -1;
      }
      var first := FirstKey(timers);
      FirstIsMin(timers, pending, first);
      return ClampedMin(first, if now != 0 then now else clock);
    }

    method TimerRun(now: nat, clock: nat) returns (fired: seq<Fired>)
      requires Valid()
      modifies `timers, `pending
      ensures Valid()
      ensures var at := if now != 0 then now else clock;
        RunsDue(fired, old(pending), at) && TiesById(fired) && pending == Later(old(pending), at)
    {
      var at := if now != 0 then now else clock;
      timers, fired, pending := Collect(timers, pending, at);
    }
  }

  /** Pop expired buckets from the front of the map, in key order. */
  method Collect(timers: map<nat, seq<nat>>, ghost pending: map<nat, nat>, at: nat)
    returns (timers': map<nat, seq<nat>>, fired: seq<Fired>, ghost pending': map<nat, nat>)
    requires Represents(timers, pending)
    ensures Represents(timers', pending') && RunsDue(fired, pending, at) && TiesById(fired)
    ensures pending' == Later(pending, at)
  {
    timers', fired, pending' := timers, [], pending;
    while timers' != map[]
      invariant Represents(timers', pending')
      invariant Popped(pending, pending', fired, at)
      decreases |timers'|
    {
      var first := FirstKey(timers');
      FirstIsMin(timers', pending', first);
      if first > at {
        break;
      }
      PopKeeps(timers', pending', first);
      PopOne(pending, pending', fired, at, timers'[first], first);
      ghost var bucket := timers'[first];
      fired := fired + BucketLog(timers'[first], first, at);
      assert |timers'.Keys - {first}| < |timers'.Keys|;
      timers' := timers' - {first};
      pending' := Except(pending', bucket);
    }
    PoppedAll(pending, pending', fired, at);
  }

  lemma PoppedAll(pending: map<nat, nat>, pending': map<nat, nat>, fired: seq<Fired>, at: nat)
    requires Popped(pending, pending', fired, at) && forall id :: id in pending' ==> at < pending'[id]
    ensures RunsDue(fired, pending, at) && pending' == Later(pending, at)
  {
    forall id | id in pending && id !in pending' ensures pending[id] <= at && Logged(fired, id) {
      assert Logged(fired, id);
      var i :| 0 <= i < |fired| && fired[i].id == id;
      assert fired[i] in fired;
    }
    assert forall i :: 0 <= i < |fired| ==> fired[i] in fired;
  }

  /** Everything popped so far was due, is logged once in deadline order, and precedes what is left. */
  /** Timers due at the same time run in the order of their ids, which is the order in which they were added. */
  ghost predicate TiesById(fired: seq<Fired>) {
    forall i, j :: 0 <= i < j < |fired| && fired[i].deadline == fired[j].deadline ==> fired[i].id < fired[j].id
  }

  ghost predicate Popped(pending: map<nat, nat>, pending': map<nat, nat>, fired: seq<Fired>, at: nat) {
    && OncePerId(fired) && InDeadlineOrder(fired) && TiesById(fired)
    && (forall f :: f in fired ==> f.id in pending && f.id !in pending' && f.deadline == pending[f.id] <= at)
    && (forall f, id :: f in fired && id in pending' ==> f.deadline < pending'[id])
    && (forall id {:trigger Logged(fired, id)} :: id in pending && id !in pending' ==> Logged(fired, id))
    && (forall id :: id in pending' ==> id in pending && pending'[id] == pending[id])
  }

  ghost function Except(pending: map<nat, nat>, bucket: seq<nat>): map<nat, nat> {
    map id | id in pending && id !in bucket :: pending[id]
  }

  function BucketLog(bucket: seq<nat>, deadline: nat, at: nat): (r: seq<Fired>)
    ensures |r| == |bucket|
    ensures forall i :: 0 <= i < |bucket| ==> r[i] == Fired(bucket[i], deadline, at)
  {
    seq(|bucket|, i requires 0 <= i < |bucket| => Fired(bucket[i], deadline, at))
  }

  /** `timer_map_.begin()->first` */
  method FirstKey(timers: map<nat, seq<nat>>) returns (first: nat)
    requires timers != map[]
    ensures first in timers && forall t :: t in timers ==> first <= t
  {
    ghost var least := LeastKey(timers.Keys);
    first :| first in timers.Keys && forall t :: t in timers.Keys ==> first <= t;
  }

  lemma {:induction false} LeastKey(keys: set<nat>) returns (least: nat)
    requires keys != {}
    ensures least in keys && forall t :: t in keys ==> least <= t
  {
    var k :| k in keys;
    var rest := keys - {k};
    if rest == {} {
      assert keys == {k};
      least := k;
    } else {
      var m := LeastKey(rest);
      least := if m < k then m else k;
      forall t | t in keys ensures least <= t {
        if t != k { assert t in rest; }
      }
    }
  }

  lemma FirstIsMin(timers: map<nat, seq<nat>>, pending: map<nat, nat>, first: nat)
    requires Represents(timers, pending)
    requires first in timers && forall t :: t in timers ==> first <= t
    ensures IsMinDeadline(pending, first) && pending != map[]
  {
    assert Bucket(timers[first], first, pending);
    assert timers[first][0] in timers[first];
  }

  lemma AddKeeps(timers: map<nat, seq<nat>>, pending: map<nat, nat>, time: nat, id: nat)
    requires Represents(timers, pending) && forall k :: k in pending ==> k < id
    ensures Represents(timers[time := (if time in timers then timers[time] else []) + [id]], pending[id := time])
  {
    var bucket := (if time in timers then timers[time] else []) + [id];
    var timers', pending' := timers[time := bucket], pending[id := time];
    if time in timers { assert Bucket(timers[time], time, pending); }
    assert forall i :: 0 <= i < |bucket| - 1 ==> bucket[i] in timers[time];
    assert bucket[|bucket| - 1] == id;
    assert Bucket(bucket, time, pending');
    forall t | t in timers' ensures Bucket(timers'[t], t, pending') {
      if t != time { assert Bucket(timers[t], t, pending); }
    }
  }

  /** Inner-map erase by id. */
  function WithoutId(bucket: seq<nat>, id: nat): seq<nat> {
    if bucket == [] then []
    else if bucket[0] == id then bucket[1..]
    else [bucket[0]] + WithoutId(bucket[1..], id)
  }

  lemma {:induction false} WithoutIdKeeps(bucket: seq<nat>, id: nat)
    requires forall i, j :: 0 <= i < j < |bucket| ==> bucket[i] < bucket[j]
    ensures var r := WithoutId(bucket, id);
      && (forall i, j :: 0 <= i < j < |r| ==> r[i] < r[j])
      && (forall k :: k in r <==> k in bucket && k != id)
  {
    if bucket != [] {
      assert bucket == [bucket[0]] + bucket[1..];
      if bucket[0] != id {
        WithoutIdKeeps(bucket[1..], id);
        var rest := WithoutId(bucket[1..], id);
        forall j | 0 <= j < |rest| ensures bucket[0] < rest[j] {
          assert rest[j] in bucket[1..];
        }
      }
    }
  }

  lemma RemoveKeeps(timers: map<nat, seq<nat>>, pending: map<nat, nat>, time: nat, id: nat)
    requires Represents(timers, pending) && time in timers
    ensures var bucket := WithoutId(timers[time], id);
      Represents(if bucket == [] then timers - {time} else timers[time := bucket],
                 if id in pending && pending[id] == time then pending - {id} else pending)
  {
    var bucket := WithoutId(timers[time], id);
    var timers' := if bucket == [] then timers - {time} else timers[time := bucket];
    var pending' := if id in pending && pending[id] == time then pending - {id} else pending;
    assert Bucket(timers[time], time, pending);
    WithoutIdKeeps(timers[time], id);
    forall t | t in timers' ensures Bucket(timers'[t], t, pending') {
      assert Bucket(timers[t], t, pending);
    }
    forall k | k in pending' ensures pending'[k] in timers' {
      if pending'[k] == time { assert k in bucket; }
    }
  }

  lemma PopKeeps(timers: map<nat, seq<nat>>, pending: map<nat, nat>, first: nat)
    requires Represents(timers, pending) && first in timers
    ensures Represents(timers - {first}, Except(pending, timers[first]))
    ensures Bucket(timers[first], first, pending)
  {
    assert Bucket(timers[first], first, pending);
    forall t | t in timers - {first} ensures Bucket((timers - {first})[t], t, Except(pending, timers[first])) {
      assert Bucket(timers[t], t, pending);
    }
  }

  lemma PopOne(pending: map<nat, nat>, pending': map<nat, nat>, fired: seq<Fired>, at: nat, bucket: seq<nat>,
               first: nat)
    requires Popped(pending, pending', fired, at) && Bucket(bucket, first, pending')
    requires first <= at && IsMinDeadline(pending', first)
    ensures Popped(pending, Except(pending', bucket), fired + BucketLog(bucket, first, at), at)
  {
    PopLogged(pending, pending', fired, at, bucket, first);
    PopOrder(pending', fired, at, bucket, first);
    var batch, left := BucketLog(bucket, first, at), Except(pending', bucket);
    forall f | f in fired + batch
      ensures f.id in pending && f.id !in left && f.deadline == pending[f.id] <= at
      ensures forall id :: id in left ==> f.deadline < left[id]
    {
      if f in batch {
        assert f.id in bucket;
      }
    }
  }

  lemma PopLogged(pending: map<nat, nat>, pending': map<nat, nat>, fired: seq<Fired>, at: nat, bucket: seq<nat>,
                  first: nat)
    requires Bucket(bucket, first, pending')
    requires forall id {:trigger Logged(fired, id)} :: id in pending && id !in pending' ==> Logged(fired, id)
    ensures forall id :: id in pending && id !in Except(pending', bucket) ==>
      Logged(fired + BucketLog(bucket, first, at), id)
  {
    var fired' := fired + BucketLog(bucket, first, at);
    forall id | id in pending && id !in Except(pending', bucket) ensures Logged(fired', id) {
      if id in pending' {
        var i :| 0 <= i < |bucket| && bucket[i] == id;
        assert fired'[|fired| + i].id == id;
      } else {
        assert Logged(fired, id);
        var i :| 0 <= i < |fired| && fired[i].id == id;
        assert fired'[i].id == id;
      }
    }
  }

  lemma PopOrder(pending': map<nat, nat>, fired: seq<Fired>, at: nat, bucket: seq<nat>, first: nat)
    requires Bucket(bucket, first, pending') && OncePerId(fired) && InDeadlineOrder(fired)
    requires forall f :: f in fired ==> f.id !in pending'
    requires TiesById(fired) && forall f, id :: f in fired && id in pending' ==> f.deadline < pending'[id]
    ensures OncePerId(fired + BucketLog(bucket, first, at)) && InDeadlineOrder(fired + BucketLog(bucket, first, at))
    ensures TiesById(fired + BucketLog(bucket, first, at))
  {
    var batch := BucketLog(bucket, first, at);
    var fired' := fired + batch;
    assert forall i :: 0 <= i < |batch| ==> batch[i].id in bucket;
    forall i, j | 0 <= i < j < |fired'| ensures fired'[i].id != fired'[j].id {
      if i < |fired| <= j { assert fired[i] in fired; }
    }
    forall i, j | 0 <= i < |fired| <= j < |fired'| ensures fired'[i].deadline < fired'[j].deadline {
      assert fired[i] in fired && batch[j - |fired|].id in pending';
    }
  }

  /** Exactly when the sorted-map timer's 32-bit answer is the wheel's answer. */
  lemma MinTimeAgreesIff(m: nat, now: nat)
    requires m < UINT64 && now < UINT64
    ensures ClampedMin(m, now) == TimeUntil(m, now) <==> Expressible(m, now)
  {
    assert UINT64 == UINT32 * UINT32;
  }

  /** Ahead: within 31 bits, or truncation lands on the clamp. Overdue: the low 32 bits do not look positive. */
  predicate Expressible(m: nat, now: nat) {
    if m <= now then (now - m) % UINT32 == 0 || (now - m) % UINT32 <= INT32_MAX + 1
    else m - now <= INT32_MAX || (m - now) % UINT32 == INT32_MAX
  }
}
