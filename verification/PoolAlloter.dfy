/** The slab allocator: size-class free lists over blocks carved from chunks. An address is a chunk and an
    offset in it; a free list is the sequence of its nodes, head first. */
module PoolAlloter {

  const ALIGN := 8
  const MAX_BYTES := 256
  const FREE_LISTS := 32
  const ADD_NODES := 20

  datatype Addr = Addr(chunk: nat, off: nat)
  datatype Ptr = Null | FromPool(addr: Addr) | FromNormal(size: nat)

  /** `Align` */
  function RoundUp(size: nat): nat {
    (size + 7) / 8 * 8
  }

  /** `FreeListIndex` of a positive size */
  function ListIndex(size: nat): (i: nat)
    requires size >= 1
    ensures size <= 8 * (i + 1) < size + 8
    ensures 8 * (i + 1) == RoundUp(size)
  {
    (size + 7) / 8 - 1
  }

  ghost predicate Apart(a: Addr, la: nat, b: Addr, lb: nat) {
    a.chunk != b.chunk || a.off + la <= b.off || b.off + lb <= a.off
  }

  /** A block of the arena: an aligned interval of a class size inside one obtained chunk. */
  ghost predicate Inside(a: Addr, len: nat, chunks: seq<nat>) {
    && a.chunk < |chunks| && a.off + len <= chunks[a.chunk]
    && a.off % 8 == 0 && len % 8 == 0
  }

  ghost predicate BlockOk(a: Addr, lens: map<Addr, nat>, chunks: seq<nat>)
    requires a in lens
  {
    8 <= lens[a] <= 256 && Inside(a, lens[a], chunks)
  }

  ghost predicate PairOk(a: Addr, b: Addr, lens: map<Addr, nat>)
    requires a in lens && b in lens
  {
    Apart(a, lens[a], b, lens[b])
  }

  /** All blocks carved so far are well placed and pairwise disjoint. */
  ghost predicate Carved(lens: map<Addr, nat>, chunks: seq<nat>) {
    && (forall a {:trigger BlockOk(a, lens, chunks)} :: a in lens ==> BlockOk(a, lens, chunks))
    && (forall a, b {:trigger PairOk(a, b, lens)} :: a in lens && b in lens && a != b ==> PairOk(a, b, lens))
  }

  /** A region no block touches. */
  ghost predicate Untouched(at: Addr, len: nat, lens: map<Addr, nat>) {
    forall a {:trigger a in lens} :: a in lens ==> Apart(a, lens[a], at, len)
  }

  ghost predicate NoRepeats(list: seq<Addr>) {
    forall i, j {:trigger list[i], list[j]} :: 0 <= i < j < |list| ==> list[i] != list[j]
  }

  /** List `i` holds exactly the carved blocks of its class that are not live, each once. */
  ghost predicate ListOk(i: nat, list: seq<Addr>, lens: map<Addr, nat>, live: set<Addr>) {
    && NoRepeats(list)
    && forall a {:trigger a in list} {:trigger a in lens} ::
         a in list <==> a in lens && a !in live && lens[a] == 8 * (i + 1)
  }

  ghost predicate Listed(freeList: seq<seq<Addr>>, lens: map<Addr, nat>, live: set<Addr>) {
    && |freeList| == FREE_LISTS && live <= lens.Keys
    && forall i {:trigger ListOk(i, freeList[i], lens, live)} :: 0 <= i < 32 ==> ListOk(i, freeList[i], lens, live)
  }

  ghost function Total(lens: map<Addr, nat>): nat {
    if lens == map[] then 0 else
      var a :| a in lens;
      lens[a] + Total(lens - {a})
  }

  ghost function Obtained(chunks: seq<nat>): nat {
    if chunks == [] then 0 else chunks[0] + Obtained(chunks[1..])
  }

  lemma {:induction false} TotalWithout(lens: map<Addr, nat>, a: Addr)
    requires a in lens
    ensures Total(lens) == lens[a] + Total(lens - {a})
    decreases lens.Keys
  {
    var b :| b in lens && Total(lens) == lens[b] + Total(lens - {b});
    if a != b {
      TotalWithout(lens - {b}, a);
      TotalWithout(lens - {a}, b);
      assert lens - {a} - {b} == lens - {b} - {a};
    }
  }

  lemma TotalAdd(lens: map<Addr, nat>, a: Addr, len: nat)
    requires a !in lens
    ensures Total(lens[a := len]) == Total(lens) + len
  {
    TotalWithout(lens[a := len], a);
    assert lens[a := len] - {a} == lens;
  }

  lemma {:induction false} ObtainedAppend(chunks: seq<nat>, n: nat)
    ensures Obtained(chunks + [n]) == Obtained(chunks) + n
  {
    if chunks == [] {
      assert chunks + [n] == [n];
    } else {
      ObtainedAppend(chunks[1..], n);
      assert (chunks + [n])[1..] == chunks[1..] + [n];
    }
  }

  /** The arena is exact: blocks, the bump region and a region in hand are disjoint parts of the obtained
      chunks, the free lists hold exactly the dead blocks, and every obtained byte is in one of them. */
  ghost predicate Exact(freeList: seq<seq<Addr>>, lens: map<Addr, nat>, live: set<Addr>, chunks: seq<nat>,
                        bump: Addr, bumpLen: nat, held: Addr, heldLen: nat) {
    && Listed(freeList, lens, live) && Carved(lens, chunks)
    && RegionOk(bump, bumpLen, lens, chunks) && RegionOk(held, heldLen, lens, chunks)
    && (bumpLen > 0 && heldLen > 0 ==> Apart(bump, bumpLen, held, heldLen))
    && Total(lens) + bumpLen + heldLen == Obtained(chunks)
  }

  /** Blocks are never re-sized or forgotten. */
  ghost predicate Kept(lens: map<Addr, nat>, lens': map<Addr, nat>) {
    forall a {:trigger a in lens} {:trigger lens'[a]} :: a in lens ==> a in lens' && lens'[a] == lens[a]
  }

  /** Uncarved space: aligned, inside a chunk, touched by no block. */
  ghost predicate RegionOk(at: Addr, len: nat, lens: map<Addr, nat>, chunks: seq<nat>) {
    len > 0 ==> Inside(at, len, chunks) && Untouched(at, len, lens)
  }

  /** Taking the front of a region keeps the rest of it a region, apart from what was taken. */
  lemma RegionSplit(at: Addr, len: nat, n: nat, lens: map<Addr, nat>, chunks: seq<nat>)
    requires RegionOk(at, len, lens, chunks) && n <= len && n % 8 == 0
    ensures RegionOk(at, n, lens, chunks)
    ensures RegionOk(Addr(at.chunk, at.off + n), len - n, lens, chunks)
    ensures Apart(at, n, Addr(at.chunk, at.off + n), len - n)
  {
  }

  /** Carving a block from untouched space. */
  lemma CarveKeeps(lens: map<Addr, nat>, chunks: seq<nat>, at: Addr, len: nat)
    requires Carved(lens, chunks) && 8 <= len <= 256 && RegionOk(at, len, lens, chunks)
    ensures at !in lens && Carved(lens[at := len], chunks)
    ensures Total(lens[at := len]) == Total(lens) + len
  {
    var lens' := lens[at := len];
    assert at in lens ==> BlockOk(at, lens, chunks);
    TotalAdd(lens, at, len);
    forall a | a in lens' ensures BlockOk(a, lens', chunks) {
      if a != at { assert BlockOk(a, lens, chunks); }
    }
    forall a, b | a in lens' && b in lens' && a != b ensures PairOk(a, b, lens') {
      if a != at && b != at { assert PairOk(a, b, lens); }
    }
  }

  /** Carving elsewhere does not disturb a region apart from the new block. */
  lemma CarveElsewhere(lens: map<Addr, nat>, chunks: seq<nat>, at: Addr, len: nat, region: Addr, regionLen: nat)
    requires RegionOk(region, regionLen, lens, chunks) && at !in lens
    requires regionLen > 0 ==> Apart(at, len, region, regionLen)
    ensures RegionOk(region, regionLen, lens[at := len], chunks)
  {
  }

  /** A dead block pushed on its own list. */
  lemma PushKeeps(freeList: seq<seq<Addr>>, lens: map<Addr, nat>, live: set<Addr>, at: Addr, len: nat, i: nat)
    requires Listed(freeList, lens, live) && at !in lens && i < 32 && len == 8 * (i + 1)
    ensures Listed(freeList[i := [at] + freeList[i]], lens[at := len], live)
  {
    var freeList', lens' := freeList[i := [at] + freeList[i]], lens[at := len];
    forall j | 0 <= j < 32 ensures ListOk(j, freeList'[j], lens', live) {
      assert ListOk(j, freeList[j], lens, live);
      if j == i { assert at in freeList'[i]; }
    }
  }

  /** Obtaining a chunk keeps everything placed in the earlier ones. */
  lemma GrowKeeps(lens: map<Addr, nat>, chunks: seq<nat>, n: nat)
    requires Carved(lens, chunks) && n % 8 == 0
    ensures Carved(lens, chunks + [n])
    ensures RegionOk(Addr(|chunks|, 0), n, lens, chunks + [n])
    ensures Obtained(chunks + [n]) == Obtained(chunks) + n
  {
    ObtainedAppend(chunks, n);
    forall a | a in lens ensures BlockOk(a, lens, chunks + [n]) && a.chunk < |chunks| {
      assert BlockOk(a, lens, chunks);
    }
  }

  /** As many blocks as were asked for, or as fit. */
  predicate AsMany(left: nat, size: nat, nums: nat, got: nat) {
    if size * nums <= left then got == nums else got < nums && size * got <= left < size * (got + 1)
  }

  /** The free lists with the unused rest of a chunk, if there is any, at the head of its own class. */
  function Recycled(freeList: seq<seq<Addr>>, at: Addr, left: nat): seq<seq<Addr>>
    requires |freeList| == FREE_LISTS && left <= 256
  {
    if left == 0 then freeList else freeList[ListIndex(left) := [at] + freeList[ListIndex(left)]]
  }

  /** The `n` blocks of a size that follow the one at `a`, in address order. */
  function Nodes(a: Addr, size: nat, n: nat): (nodes: seq<Addr>)
    ensures |nodes| == n && forall i :: 0 <= i < n ==> nodes[i] == Addr(a.chunk, a.off + size * (i + 1))
  {
    seq(n, i requires 0 <= i < n => Addr(a.chunk, a.off + size * (i + 1)))
  }

  class PoolAlloter {
    var freeList: seq<seq<Addr>>
    /** `pool_start_` and `pool_end_` are offsets in this chunk. */
    var poolChunk: nat
    var poolStart: nat
    var poolEnd: nat
    /** `malloc_vec_`: the size of every chunk obtained. */
    var chunks: seq<nat>
    /** Every block carved so far and its class size. */
    ghost var lens: map<Addr, nat>
    ghost var live: set<Addr>

    ghost predicate Holding(held: Addr, heldLen: nat)
      reads this
    {
      && poolStart <= poolEnd
      && Exact(freeList, lens, live, chunks, Addr(poolChunk, poolStart), poolEnd - poolStart, held, heldLen)
    }

    ghost predicate Valid()
      reads this
    {
      Holding(Addr(0, 0), 0)
    }

    constructor ()
      ensures Valid() && lens == map[] && live == {} && chunks == []
    {
      freeList := seq(FREE_LISTS, i => []);
      poolChunk, poolStart, poolEnd, chunks := 0, 0, 0, [];
      lens, live := map[], {};
    }

    /** Space for up to `nums` blocks; the leftover of an exhausted region goes to its own, smaller class. */
    method ChunkAlloc(size: nat, nums: nat) returns (res: Addr, got: nat)
      requires Valid() && 8 <= size <= 256 && size % 8 == 0 && nums >= 1
      requires freeList[ListIndex(size)] == []
      modifies this
      ensures 1 <= got <= nums && Holding(res, size * got)
      ensures freeList[ListIndex(size)] == [] && live == old(live)
      ensures Kept(old(lens), lens)
      ensures var left := old(poolEnd) - old(poolStart);
        if left >= size then
          && chunks == old(chunks) && freeList == old(freeList) && lens == old(lens)
          && poolChunk == old(poolChunk) && poolEnd == old(poolEnd) && poolStart == old(poolStart) + size * got
          && res == Addr(old(poolChunk), old(poolStart)) && AsMany(left, size, nums, got)
        else
          && chunks == old(chunks) + [size * nums] && got == nums && res == Addr(|old(chunks)|, 0)
          && poolChunk == |old(chunks)| && poolStart == poolEnd == size * nums
          && freeList == Recycled(old(freeList), Addr(old(poolChunk), old(poolStart)), left)
      decreases poolEnd - poolStart < size
    {
      MulAtLeast(size, nums);
      if poolEnd - poolStart >= size {
        res, got := TakeSome(size, nums);
        return;
      }
      if poolEnd - poolStart > 0 {
        PutLeftover(size);
      }
      Obtain(size * nums);
      res, got := ChunkAlloc(size, nums);
    }

    /** The two cases where the bump region serves: all `nums` blocks, or as many as fit. */
    method TakeSome(size: nat, nums: nat) returns (res: Addr, got: nat)
      requires Valid() && 8 <= size <= poolEnd - poolStart && size % 8 == 0 && nums >= 1
      modifies `poolStart
      ensures 1 <= got <= nums && Holding(res, size * got)
      ensures AsMany(old(poolEnd) - old(poolStart), size, nums, got)
      ensures res == Addr(poolChunk, old(poolStart)) && poolStart == old(poolStart) + size * got
    {
      MulAtLeast(size, nums);
      var left := poolEnd - poolStart;
      if left >= size * nums {
        got := nums;
      } else {
        got := left / size;
        DivFits(left, size, nums);
      }
      res := Take(size * got);
    }

    /** Advance `pool_start_` over the first `n` bytes. */
    method Take(n: nat) returns (res: Addr)
      requires Valid() && 0 < n <= poolEnd - poolStart && n % 8 == 0
      modifies `poolStart
      ensures Holding(res, n) && poolStart == old(poolStart) + n && res == Addr(poolChunk, old(poolStart))
    {
      RegionSplit(Addr(poolChunk, poolStart), poolEnd - poolStart, n, lens, chunks);
      res := Addr(poolChunk, poolStart);
      poolStart := poolStart + n;
    }

    /** The leftover is a multiple of 8 below `size`, so it lands in a strictly smaller class. */
    method PutLeftover(size: nat)
      requires Valid() && 0 < poolEnd - poolStart < size <= 256 && size % 8 == 0
      modifies this
      ensures Valid() && poolStart == poolEnd
      ensures freeList == Recycled(old(freeList), Addr(old(poolChunk), old(poolStart)), old(poolEnd) - old(poolStart))
      ensures freeList[ListIndex(size)] == old(freeList)[ListIndex(size)]
      ensures live == old(live) && chunks == old(chunks)
      ensures Kept(old(lens), lens)
    {
      var left, at := poolEnd - poolStart, Addr(poolChunk, poolStart);
      var i := ListIndex(left);
      CarveKeeps(lens, chunks, at, left);
      PushKeeps(freeList, lens, live, at, left, i);
      freeList := freeList[i := [at] + freeList[i]];
      lens := lens[at := left];
      poolStart := poolEnd;
    }

    /** A fresh chunk from the normal allocator becomes the bump region. */
    method Obtain(n: nat)
      requires Valid() && poolStart == poolEnd && n % 8 == 0
      modifies `poolChunk, `poolStart, `poolEnd, `chunks
      ensures Valid() && chunks == old(chunks) + [n] && poolChunk == |old(chunks)| && poolStart == 0 && poolEnd == n
    {
      GrowKeeps(lens, chunks, n);
      chunks := chunks + [n];
      poolChunk, poolStart, poolEnd := |chunks| - 1, 0, n;
    }

    /** Carve a fresh batch: the first block is handed out, the others become the class's free list. */
    method ReFill(size: nat) returns (res: Addr)
      requires Valid() && 8 <= size <= 256 && size % 8 == 0 && freeList[ListIndex(size)] == []
      modifies this
      ensures Valid() && res !in old(lens) && res in lens && lens[res] == size && live == old(live) + {res}
      ensures Kept(old(lens), lens)
      ensures var left := old(poolEnd) - old(poolStart); var i := ListIndex(size);
        if left >= size then
          && chunks == old(chunks) && res == Addr(old(poolChunk), old(poolStart))
          && exists got :: 1 <= got <= 20 && AsMany(left, size, 20, got)
                        && freeList == old(freeList)[i := Nodes(res, size, got - 1)]
                        && poolChunk == old(poolChunk) && poolEnd == old(poolEnd)
                        && poolStart == old(poolStart) + size * got
        else
          && chunks == old(chunks) + [size * 20] && res == Addr(|old(chunks)|, 0)
          && poolChunk == |old(chunks)| && poolStart == poolEnd == size * 20
          && freeList == Recycled(old(freeList), Addr(old(poolChunk), old(poolStart)), left)[i := Nodes(res, size, 19)]
    {
      var nums;
      res, nums := ChunkAlloc(size, ADD_NODES);
      ghost var lens';
      freeList, lens' := Spread(freeList, lens, live, chunks, Addr(poolChunk, poolStart), poolEnd - poolStart, res,
          size, nums);
      lens, live := lens', live + {res};
    }

    method Malloc(size: nat) returns (p: Ptr)
      requires Valid() && size >= 1
      modifies this
      ensures Valid()
      ensures size > MAX_BYTES ==> p == FromNormal(size) && lens == old(lens) && live == old(live)
      ensures size <= MAX_BYTES ==>
        && p.FromPool? && p.addr !in old(live) && live == old(live) + {p.addr}
        && p.addr in lens && lens[p.addr] == RoundUp(size)
        && Kept(old(lens), lens)
      ensures size <= MAX_BYTES && old(freeList)[ListIndex(size)] != [] ==>
        var i := ListIndex(size);
        && p.addr == old(freeList)[i][0] && freeList == old(freeList)[i := old(freeList)[i][1..]]
        && lens == old(lens) && chunks == old(chunks)
        && poolChunk == old(poolChunk) && poolStart == old(poolStart) && poolEnd == old(poolEnd)
      ensures size <= MAX_BYTES && old(freeList)[ListIndex(size)] == [] ==>
        if old(poolEnd) - old(poolStart) >= RoundUp(size) then
          chunks == old(chunks) && p.addr == Addr(old(poolChunk), old(poolStart))
        else
          chunks == old(chunks) + [RoundUp(size) * 20] && p.addr == Addr(|old(chunks)|, 0)
      ensures size > MAX_BYTES ==> freeList == old(freeList) && chunks == old(chunks)
    {
      if size > MAX_BYTES {
        return FromNormal(size);
      }
      var i := ListIndex(size);
      assert ListOk(i, freeList[i], lens, live);
      if freeList[i] == [] {
        var a := ReFill(RoundUp(size));
        return FromPool(a);
      }
      var head := freeList[i][0];
      PopKeeps(freeList, lens, live, i);
      freeList := freeList[i := freeList[i][1..]];
      live := live + {head};
      return FromPool(head);
    }

    /** The caller returns a pointer with the length it asked for (or one of the same class). */
    method Free(p: Ptr, len: nat) returns (p': Ptr)
      requires Valid()
      requires p.FromPool? ==> p.addr in live && 1 <= len <= MAX_BYTES && RoundUp(len) == lens[p.addr]
      requires p.FromNormal? ==> len == 0 || len > MAX_BYTES
      modifies `freeList, `live
      ensures Valid() && p' == Null
      ensures live == if p.FromPool? then old(live) - {p.addr} else old(live)
      ensures freeList == if p.FromPool? then old(freeList)[ListIndex(len) := [p.addr] + old(freeList)[ListIndex(len)]]
                          else old(freeList)
    {
      if p.Null? {
        return Null;
      }
      if len == 0 || len > MAX_BYTES {
        return Null;
      }
      ReturnKeeps(freeList, lens, live, p.addr, ListIndex(len));
      freeList := freeList[ListIndex(len) := [p.addr] + freeList[ListIndex(len)]];
      live := live - {p.addr};
      return Null;
    }
  }

  /** The region in hand becomes one live block and a free list of the rest. */
  method Spread(freeList: seq<seq<Addr>>, ghost lens: map<Addr, nat>, ghost live: set<Addr>, ghost chunks: seq<nat>,
                ghost bump: Addr, ghost bumpLen: nat, res: Addr, size: nat, nums: nat)
    returns (freeList': seq<seq<Addr>>, ghost lens': map<Addr, nat>)
    requires 8 <= size <= 256 && size % 8 == 0 && nums >= 1
    requires Exact(freeList, lens, live, chunks, bump, bumpLen, res, size * nums) && freeList[ListIndex(size)] == []
    ensures Exact(freeList', lens', live + {res}, chunks, bump, bumpLen, Addr(0, 0), 0)
    ensures res !in lens && Kept(lens, lens') && res in lens' && lens'[res] == size
    ensures freeList' == freeList[ListIndex(size) := Nodes(res, size, nums - 1)]
  {
    var nodes;
    ghost var rest;
    MulAtLeast(size, nums);
    nodes, lens', rest := Link(lens, chunks, bump, bumpLen, res, size, nums);
    BatchDone(freeList, lens, lens', live, chunks, bump, bumpLen, res, nodes, rest, size, nums);
    freeList' := if nums > 1 then freeList[ListIndex(size) := nodes] else freeList;
  }

  /** The linking loop of `ReFill`: the blocks after the first, in address order. */
  method Link(ghost lens0: map<Addr, nat>, ghost chunks: seq<nat>, ghost bump: Addr, ghost bumpLen: nat,
              res: Addr, size: nat, nums: nat)
    returns (nodes: seq<Addr>, ghost lens: map<Addr, nat>, ghost rest: Addr)
    requires Carved(lens0, chunks) && 8 <= size <= 256 && size % 8 == 0 && nums >= 1
    requires RegionOk(bump, bumpLen, lens0, chunks) && RegionOk(res, size * nums, lens0, chunks)
    requires bumpLen > 0 ==> Apart(bump, bumpLen, res, size * nums)
    requires Total(lens0) + bumpLen + size * nums == Obtained(chunks)
    ensures Batch(lens0, lens, chunks, bump, bumpLen, res, nodes, rest, size, 0) && nodes == Nodes(res, size, nums - 1)
  {
    lens, rest := CarveFirst(lens0, chunks, bump, bumpLen, res, size, nums);
    var at := Addr(res.chunk, res.off + size);
    nodes := [];
    for i := 1 to nums
      invariant Batch(lens0, lens, chunks, bump, bumpLen, res, nodes, at, size, nums - i)
      invariant InLine(res, size, i, nodes, at)
    {
      InLineNext(res, size, i, nodes, at);
      CarveNext(lens0, lens, chunks, bump, bumpLen, res, nodes, at, size, nums - i);
      lens := lens[at := size];
      nodes := nodes + [at];
      at := Addr(at.chunk, at.off + size);
    }
    rest := at;
  }

  /** The linking loop has `i` blocks behind it and is at the next. */
  predicate InLine(res: Addr, size: nat, i: nat, nodes: seq<Addr>, at: Addr) {
    i >= 1 && nodes == Nodes(res, size, i - 1) && at == Addr(res.chunk, res.off + size * i)
  }

  lemma InLineNext(res: Addr, size: nat, i: nat, nodes: seq<Addr>, at: Addr)
    requires InLine(res, size, i, nodes, at)
    ensures InLine(res, size, i + 1, nodes + [at], Addr(at.chunk, at.off + size))
  {
    MulNext(size, i);
  }

  /** Freed memory is reused first: what was just returned is what the next request of its class gets, and the pool is
      then as it was. */
  method FreeThenMalloc(pool: PoolAlloter, a: Addr, len: nat, size: nat) returns (p: Ptr)
    requires pool.Valid() && a in pool.live && a in pool.lens
    requires 1 <= len <= MAX_BYTES && 1 <= size <= MAX_BYTES && RoundUp(len) == RoundUp(size) == pool.lens[a]
    modifies pool
    ensures pool.Valid() && p == FromPool(a) && pool.live == old(pool.live) && pool.lens == old(pool.lens)
    ensures pool.freeList == old(pool.freeList) && pool.chunks == old(pool.chunks)
    ensures pool.poolChunk == old(pool.poolChunk) && pool.poolStart == old(pool.poolStart)
    ensures pool.poolEnd == old(pool.poolEnd)
  {
    var i := ListIndex(size);
    assert i == ListIndex(len);
    ghost var list := pool.freeList;
    var _ := pool.Free(FromPool(a), len);
    assert pool.freeList[i][1..] == list[i];
    p := pool.Malloc(size);
    assert pool.freeList == list;
  }

  lemma PopKeeps(freeList: seq<seq<Addr>>, lens: map<Addr, nat>, live: set<Addr>, i: nat)
    requires Listed(freeList, lens, live) && i < 32 && freeList[i] != []
    ensures var head := freeList[i][0];
      && head in lens && head !in live && lens[head] == 8 * (i + 1)
      && Listed(freeList[i := freeList[i][1..]], lens, live + {head})
  {
    var head, rest := freeList[i][0], freeList[i][1..];
    assert freeList[i] == [head] + rest;
    assert ListOk(i, freeList[i], lens, live) && head in freeList[i];
    var freeList' := freeList[i := rest];
    forall j | 0 <= j < 32 ensures ListOk(j, freeList'[j], lens, live + {head}) {
      assert ListOk(j, freeList[j], lens, live);
    }
  }

  lemma ReturnKeeps(freeList: seq<seq<Addr>>, lens: map<Addr, nat>, live: set<Addr>, a: Addr, i: nat)
    requires Listed(freeList, lens, live) && i < 32 && a in live && lens[a] == 8 * (i + 1)
    ensures Listed(freeList[i := [a] + freeList[i]], lens, live - {a})
  {
    var freeList' := freeList[i := [a] + freeList[i]];
    forall j | 0 <= j < 32 ensures ListOk(j, freeList'[j], lens, live - {a}) {
      assert ListOk(j, freeList[j], lens, live);
    }
  }

  /** Part way through a batch: the blocks so far are carved, `left` more of `size` bytes are still in hand. */
  ghost predicate Batch(lens0: map<Addr, nat>, lens: map<Addr, nat>, chunks: seq<nat>, bump: Addr, bumpLen: nat,
                        res: Addr, nodes: seq<Addr>, at: Addr, size: nat, left: nat) {
    && Carved(lens, chunks) && RegionOk(bump, bumpLen, lens, chunks) && RegionOk(at, size * left, lens, chunks)
    && (bumpLen > 0 && left > 0 ==> Apart(bump, bumpLen, at, size * left))
    && Total(lens) + bumpLen + size * left == Obtained(chunks)
    && NoRepeats(nodes) && res !in nodes && res !in lens0
    && (forall a :: a in lens <==> a in lens0 || a == res || a in nodes)
    && (forall a :: a in lens ==> lens[a] == if a in lens0 then lens0[a] else size)
    && (forall a :: a in nodes ==> a !in lens0)
  }

  lemma CarveFirst(lens0: map<Addr, nat>, chunks: seq<nat>, bump: Addr, bumpLen: nat, res: Addr, size: nat, nums: nat)
    returns (lens: map<Addr, nat>, next: Addr)
    requires Carved(lens0, chunks) && 8 <= size <= 256 && size % 8 == 0 && nums >= 1
    requires RegionOk(bump, bumpLen, lens0, chunks) && RegionOk(res, size * nums, lens0, chunks)
    requires bumpLen > 0 ==> Apart(bump, bumpLen, res, size * nums)
    requires Total(lens0) + bumpLen + size * nums == Obtained(chunks)
    ensures lens == lens0[res := size] && next == Addr(res.chunk, res.off + size)
    ensures Batch(lens0, lens, chunks, bump, bumpLen, res, [], next, size, nums - 1)
  {
    MulAtLeast(size, nums);
    RegionSplit(res, size * nums, size, lens0, chunks);
    CarveKeeps(lens0, chunks, res, size);
    lens, next := lens0[res := size], Addr(res.chunk, res.off + size);
    CarveElsewhere(lens0, chunks, res, size, bump, bumpLen);
    CarveElsewhere(lens0, chunks, res, size, next, size * (nums - 1));
  }

  lemma CarveNext(lens0: map<Addr, nat>, lens: map<Addr, nat>, chunks: seq<nat>, bump: Addr, bumpLen: nat,
                  res: Addr, nodes: seq<Addr>, at: Addr, size: nat, left: nat)
    requires Batch(lens0, lens, chunks, bump, bumpLen, res, nodes, at, size, left)
    requires 8 <= size <= 256 && size % 8 == 0 && left >= 1
    ensures Batch(lens0, lens[at := size], chunks, bump, bumpLen, res, nodes + [at],
                  Addr(at.chunk, at.off + size), size, left - 1)
  {
    var next := Addr(at.chunk, at.off + size);
    MulAtLeast(size, left);
    RegionSplit(at, size * left, size, lens, chunks);
    CarveKeeps(lens, chunks, at, size);
    CarveElsewhere(lens, chunks, at, size, bump, bumpLen);
    CarveElsewhere(lens, chunks, at, size, next, size * (left - 1));
  }

  /** The finished batch: overwriting the empty list with the new nodes loses none. */
  lemma BatchDone(freeList: seq<seq<Addr>>, lens0: map<Addr, nat>, lens: map<Addr, nat>, live: set<Addr>,
                  chunks: seq<nat>, bump: Addr, bumpLen: nat, res: Addr, nodes: seq<Addr>, at: Addr, size: nat,
                      nums: nat)
    requires Listed(freeList, lens0, live) && 8 <= size <= 256 && size % 8 == 0 && freeList[ListIndex(size)] == []
    requires Batch(lens0, lens, chunks, bump, bumpLen, res, nodes, at, size, 0) && |nodes| == nums - 1
    ensures res !in lens0 && Kept(lens0, lens) && res in lens && lens[res] == size
    ensures Exact(if nums > 1 then freeList[ListIndex(size) := nodes] else freeList, lens, live + {res}, chunks,
                  bump, bumpLen, Addr(0, 0), 0)
  {
    var i := ListIndex(size);
    var freeList' := freeList[i := nodes];
    assert freeList' == if nums > 1 then freeList' else freeList;
    forall j | 0 <= j < 32 ensures ListOk(j, freeList'[j], lens, live + {res}) {
      assert ListOk(j, freeList[j], lens0, live);
    }
  }

  lemma MulAtLeast(size: nat, n: nat)
    requires n >= 1 && size % 8 == 0
    ensures size <= size * n == size + size * (n - 1)
    ensures size * n % 8 == 0 && size * (n - 1) % 8 == 0
  {
    MulAligned(size, n);
    MulAligned(size, n - 1);
    MulMonotone(size, 1, n);
  }

  lemma MulAligned(size: nat, n: nat)
    requires size % 8 == 0
    ensures size * n % 8 == 0
  {
    var w := size / 8;
    assert size * n == 8 * (w * n);
  }

  lemma MulMonotone(size: nat, m: nat, n: nat)
    requires m <= n
    ensures size * m <= size * n
  {
  }

  lemma DivFits(left: nat, size: nat, nums: nat)
    requires 0 < size <= left < size * nums && size % 8 == 0
    ensures 1 <= left / size <= nums && size * (left / size) <= left < size * (left / size) + size
    ensures size * (left / size) % 8 == 0
  {
    var q := left / size;
    MulAligned(size, q);
    if q > nums { MulMonotone(size, nums, q); }
  }

  /** Bytes on the free lists, counted class by class from the lists themselves. */
  function FreeBytes(freeList: seq<seq<Addr>>): nat {
    if freeList == [] then 0
    else FreeBytes(freeList[..|freeList| - 1]) + 8 * |freeList| * |freeList[|freeList| - 1]|
  }

  /** The carved blocks with their sizes, restricted to a set of addresses. */
  ghost function Only(lens: map<Addr, nat>, keep: set<Addr>): map<Addr, nat> {
    map a | a in lens && a in keep :: lens[a]
  }

  /** `m` with every node of a list added at one size. */
  ghost function WithNodes(m: map<Addr, nat>, nodes: seq<Addr>, len: nat): map<Addr, nat> {
    if nodes == [] then m else WithNodes(m, nodes[..|nodes| - 1], len)[nodes[|nodes| - 1] := len]
  }

  lemma {:induction false} TotalOfNodes(m: map<Addr, nat>, nodes: seq<Addr>, len: nat)
    requires NoRepeats(nodes) && forall a :: a in nodes ==> a !in m
    ensures Total(WithNodes(m, nodes, len)) == Total(m) + len * |nodes|
    ensures forall a :: a in WithNodes(m, nodes, len) <==> a in m || a in nodes
    ensures forall a :: a in WithNodes(m, nodes, len) ==> WithNodes(m, nodes, len)[a] == if a in m then m[a] else len
  {
    if nodes != [] {
      var n := |nodes| - 1;
      var last, rest := nodes[n], nodes[..n];
      assert nodes == rest + [last] && last !in rest;
      TotalOfNodes(m, rest, len);
      TotalAdd(WithNodes(m, rest, len), last, len);
      MulNext(len, n);
    }
  }

  lemma MulNext(len: nat, n: nat)
    ensures len * (n + 1) == len * n + len
  {
  }

  ghost function DeadBelow(lens: map<Addr, nat>, live: set<Addr>, i: nat): map<Addr, nat> {
    map a | a in lens && a !in live && lens[a] <= 8 * i :: lens[a]
  }

  /** Class `i - 1` adds exactly its list to the dead blocks of the smaller classes. */
  lemma DeadStep(freeList: seq<seq<Addr>>, lens: map<Addr, nat>, live: set<Addr>, chunks: seq<nat>, i: nat)
    requires Listed(freeList, lens, live) && Carved(lens, chunks) && 1 <= i <= 32
    ensures Total(DeadBelow(lens, live, i)) == Total(DeadBelow(lens, live, i - 1)) + 8 * i * |freeList[i - 1]|
  {
    var nodes, below := freeList[i - 1], DeadBelow(lens, live, i - 1);
    assert ListOk(i - 1, nodes, lens, live);
    TotalOfNodes(below, nodes, 8 * i);
    forall a | a in lens && lens[a] <= 8 * i ensures lens[a] <= 8 * (i - 1) || lens[a] == 8 * i {
      assert BlockOk(a, lens, chunks);
    }
    assert DeadBelow(lens, live, i) == WithNodes(below, nodes, 8 * i);
  }

  lemma {:induction false} FreeBytesAre(freeList: seq<seq<Addr>>, lens: map<Addr, nat>, live: set<Addr>,
                                        chunks: seq<nat>, i: nat)
    requires Listed(freeList, lens, live) && Carved(lens, chunks) && i <= 32
    ensures FreeBytes(freeList[..i]) == Total(DeadBelow(lens, live, i))
  {
    if i == 0 {
      forall a | a in lens ensures lens[a] > 0 { assert BlockOk(a, lens, chunks); }
      assert DeadBelow(lens, live, 0) == map[];
    } else {
      FreeBytesAre(freeList, lens, live, chunks, i - 1);
      DeadStep(freeList, lens, live, chunks, i);
      assert freeList[..i][..i - 1] == freeList[..i - 1];
    }
  }

  lemma {:induction false} TotalSplit(lens: map<Addr, nat>, keep: set<Addr>)
    requires keep <= lens.Keys
    ensures Total(lens) == Total(Only(lens, keep)) + Total(lens - keep)
    decreases keep
  {
    if keep == {} {
      assert lens - keep == lens && Only(lens, keep) == map[];
    } else {
      var a :| a in keep;
      TotalSplit(lens - {a}, keep - {a});
      TotalWithout(lens, a);
      TotalWithout(Only(lens, keep), a);
      assert Only(lens, keep) - {a} == Only(lens - {a}, keep - {a});
      assert lens - {a} - (keep - {a}) == lens - keep;
    }
  }

  /** Every byte obtained is in exactly one live block (at its class size), one free-listed block, or the bump region.
      */
  lemma Conservation(freeList: seq<seq<Addr>>, lens: map<Addr, nat>, live: set<Addr>, chunks: seq<nat>,
                     bump: Addr, bumpLen: nat)
    requires Exact(freeList, lens, live, chunks, bump, bumpLen, Addr(0, 0), 0)
    ensures Obtained(chunks) == Total(Only(lens, live)) + FreeBytes(freeList) + bumpLen
  {
    TotalSplit(lens, live);
    FreeBytesAre(freeList, lens, live, chunks, 32);
    assert freeList[..32] == freeList;
    forall a | a in lens ensures lens[a] <= 256 {
      assert BlockOk(a, lens, chunks);
    }
    assert DeadBelow(lens, live, 32) == lens - live;
  }

  /** A pointer a caller holds, with the size it asked for. */
  datatype Handle = Handle(ptr: Ptr, size: nat)

  datatype Request = Allocate(size: nat) | Release(k: nat)

  ghost predicate HandlesOk(handles: seq<Handle>, lens: map<Addr, nat>, live: set<Addr>) {
    && (forall i :: 0 <= i < |handles| ==> HandleOk(handles[i], lens, live))
    && (forall i, j :: 0 <= i < j < |handles| && handles[i].ptr.FromPool? ==> handles[i].ptr != handles[j].ptr)
    && (forall a :: a in live ==> exists i :: 0 <= i < |handles| && handles[i].ptr == FromPool(a))
  }

  ghost predicate HandleOk(h: Handle, lens: map<Addr, nat>, live: set<Addr>) {
    && h.size >= 1
    && (h.size <= MAX_BYTES ==>
          h.ptr.FromPool? && h.ptr.addr in live && h.ptr.addr in lens && lens[h.ptr.addr] == RoundUp(h.size))
    && (h.size > MAX_BYTES ==> h.ptr == FromNormal(h.size))
  }

  function HandleBytes(handles: seq<Handle>): nat {
    if handles == [] then 0
    else HandleBytes(handles[..|handles| - 1]) +
         if handles[|handles| - 1].ptr.FromPool? then RoundUp(handles[|handles| - 1].size) else 0
  }

  /** Distinct memory for distinct live pointers, of at least the requested size, aligned, inside one chunk. */
  ghost predicate Separate(handles: seq<Handle>, chunks: seq<nat>) {
    && (forall i :: 0 <= i < |handles| && handles[i].ptr.FromPool? ==>
          Inside(handles[i].ptr.addr, RoundUp(handles[i].size), chunks) && handles[i].size <= RoundUp(handles[i].size))
    && (forall i, j :: 0 <= i < j < |handles| && handles[i].ptr.FromPool? && handles[j].ptr.FromPool? ==>
          Apart(handles[i].ptr.addr, RoundUp(handles[i].size), handles[j].ptr.addr, RoundUp(handles[j].size)))
  }

  lemma HandlesSeparate(handles: seq<Handle>, lens: map<Addr, nat>, live: set<Addr>, chunks: seq<nat>)
    requires HandlesOk(handles, lens, live) && Carved(lens, chunks)
    ensures Separate(handles, chunks)
  {
    forall i | 0 <= i < |handles| && handles[i].ptr.FromPool?
      ensures Inside(handles[i].ptr.addr, RoundUp(handles[i].size), chunks)
    {
      assert HandleOk(handles[i], lens, live) && BlockOk(handles[i].ptr.addr, lens, chunks);
    }
    forall i, j | 0 <= i < j < |handles| && handles[i].ptr.FromPool? && handles[j].ptr.FromPool?
      ensures Apart(handles[i].ptr.addr, RoundUp(handles[i].size), handles[j].ptr.addr, RoundUp(handles[j].size))
    {
      assert HandleOk(handles[i], lens, live) && HandleOk(handles[j], lens, live);
      assert PairOk(handles[i].ptr.addr, handles[j].ptr.addr, lens);
    }
  }

  lemma {:induction false} HandleTotal(handles: seq<Handle>, lens: map<Addr, nat>, live: set<Addr>)
    requires HandlesOk(handles, lens, live) && live <= lens.Keys
    ensures HandleBytes(handles) == Total(Only(lens, live))
  {
    if handles == [] {
      assert Only(lens, live) == map[];
    } else {
      var h, rest := handles[|handles| - 1], handles[..|handles| - 1];
      LastHandle(handles, lens, live);
      if h.ptr.FromPool? {
        HandleTotal(rest, lens, live - {h.ptr.addr});
        TotalOnly(lens, live, h.ptr.addr);
      } else {
        HandleTotal(rest, lens, live);
      }
    }
  }

  /** The last handle's block is live and of its class; the others make do with the rest. */
  lemma LastHandle(handles: seq<Handle>, lens: map<Addr, nat>, live: set<Addr>)
    requires HandlesOk(handles, lens, live) && handles != []
    ensures var n := |handles| - 1; var p := handles[n].ptr;
      && HandlesOk(handles[..n], lens, if p.FromPool? then live - {p.addr} else live)
      && (p.FromPool? ==> p.addr in live && p.addr in lens && lens[p.addr] == RoundUp(handles[n].size))
  {
    var n := |handles| - 1;
    assert HandleOk(handles[n], lens, live);
    HandleDrop(handles, lens, live, n);
    assert handles[..n] + handles[n + 1..] == handles[..n];
  }

  lemma TotalOnly(lens: map<Addr, nat>, live: set<Addr>, a: Addr)
    requires a in live && a in lens
    ensures Total(Only(lens, live)) == lens[a] + Total(Only(lens, live - {a}))
  {
    TotalWithout(Only(lens, live), a);
    assert Only(lens, live) - {a} == Only(lens, live - {a});
  }

  /** No live pointer's memory meets a block on a free list. */
  ghost predicate FreeApart(handles: seq<Handle>, freeList: seq<seq<Addr>>) {
    forall i, c, j ::
      0 <= i < |handles| && handles[i].ptr.FromPool? && 0 <= c < |freeList| && 0 <= j < |freeList[c]| ==>
      Apart(handles[i].ptr.addr, RoundUp(handles[i].size), freeList[c][j], 8 * (c + 1))
  }

  lemma HandlesNotFree(handles: seq<Handle>, freeList: seq<seq<Addr>>, lens: map<Addr, nat>, live: set<Addr>,
                       chunks: seq<nat>)
    requires HandlesOk(handles, lens, live) && Listed(freeList, lens, live) && Carved(lens, chunks)
    ensures FreeApart(handles, freeList)
  {
    forall i, c, j | 0 <= i < |handles| && handles[i].ptr.FromPool? && 0 <= c < |freeList| && 0 <= j < |freeList[c]|
      ensures Apart(handles[i].ptr.addr, RoundUp(handles[i].size), freeList[c][j], 8 * (c + 1))
    {
      assert HandleOk(handles[i], lens, live) && ListOk(c, freeList[c], lens, live);
      assert freeList[c][j] in freeList[c] && PairOk(handles[i].ptr.addr, freeList[c][j], lens);
    }
  }

  /** No live pointer's memory meets the uncarved rest of the last chunk. */
  ghost predicate BumpApart(handles: seq<Handle>, bump: Addr, bumpLen: nat) {
    forall i :: 0 <= i < |handles| && handles[i].ptr.FromPool? && bumpLen > 0 ==>
      Apart(handles[i].ptr.addr, RoundUp(handles[i].size), bump, bumpLen)
  }

  lemma HandlesNotInBump(handles: seq<Handle>, lens: map<Addr, nat>, live: set<Addr>, chunks: seq<nat>, bump: Addr,
                         bumpLen: nat)
    requires HandlesOk(handles, lens, live) && RegionOk(bump, bumpLen, lens, chunks)
    ensures BumpApart(handles, bump, bumpLen)
  {
  }

  /** The sizes still held after a run of requests. */
  function Held(requests: seq<Request>): seq<nat> {
    if requests == [] then []
    else
      var held := Held(requests[..|requests| - 1]);
      match requests[|requests| - 1]
      case Allocate(size) => held + [size]
      case Release(k) => if k < |held| then held[..k] + held[k + 1..] else held
  }

  ghost predicate Holds(handles: seq<Handle>, sizes: seq<nat>) {
    |handles| == |sizes| && forall i :: 0 <= i < |handles| ==> handles[i].size == sizes[i]
  }

  /** Every run of allocations and matching releases on a fresh pool: the pointers still held have memory of their
      own, shared neither with each other nor with a free block nor with the uncarved rest, and every obtained byte
      is accounted for. */
  method RunPool(requests: seq<Request>) returns (handles: seq<Handle>, pool: PoolAlloter)
    requires forall r :: r in requests && r.Allocate? ==> r.size >= 1
    ensures fresh(pool) && pool.Valid() && Holds(handles, Held(requests)) && HandlesOk(handles, pool.lens, pool.live)
    ensures Separate(handles, pool.chunks) && FreeApart(handles, pool.freeList)
    ensures BumpApart(handles, Addr(pool.poolChunk, pool.poolStart), pool.poolEnd - pool.poolStart)
    ensures Obtained(pool.chunks) == HandleBytes(handles) + FreeBytes(pool.freeList) + pool.poolEnd - pool.poolStart
  {
    pool := new PoolAlloter();
    handles := [];
    for n := 0 to |requests|
      invariant fresh(pool) && pool.Valid() && HandlesOk(handles, pool.lens, pool.live)
      invariant Holds(handles, Held(requests[..n]))
    {
      assert requests[n] in requests && requests[..n + 1] == requests[..n] + [requests[n]];
      var next := Serve(pool, handles, requests[n]);
      HoldsNext(handles, next, requests[..n], requests[n]);
      handles := next;
    }
    assert requests[..|requests|] == requests;
    RunSettled(handles, pool.freeList, pool.lens, pool.live, pool.chunks,
               Addr(pool.poolChunk, pool.poolStart), pool.poolEnd - pool.poolStart);
  }

  lemma RunSettled(handles: seq<Handle>, freeList: seq<seq<Addr>>, lens: map<Addr, nat>, live: set<Addr>,
                   chunks: seq<nat>, bump: Addr, bumpLen: nat)
    requires HandlesOk(handles, lens, live) && Exact(freeList, lens, live, chunks, bump, bumpLen, Addr(0, 0), 0)
    ensures Separate(handles, chunks) && FreeApart(handles, freeList) && BumpApart(handles, bump, bumpLen)
    ensures Obtained(chunks) == HandleBytes(handles) + FreeBytes(freeList) + bumpLen
  {
    HandlesNotInBump(handles, lens, live, chunks, bump, bumpLen);
    HandlesSeparate(handles, lens, live, chunks);
    HandlesNotFree(handles, freeList, lens, live, chunks);
    HandleTotal(handles, lens, live);
    Conservation(freeList, lens, live, chunks, bump, bumpLen);
  }

  ghost predicate Served(handles: seq<Handle>, handles': seq<Handle>, request: Request) {
    match request
    case Allocate(size) => |handles'| == |handles| + 1 && handles'[..|handles|] == handles
        && handles'[|handles|].size == size
    case Release(k) => handles' == if k < |handles| then handles[..k] + handles[k + 1..] else handles
  }

  lemma HoldsNext(handles: seq<Handle>, handles': seq<Handle>, requests: seq<Request>, request: Request)
    requires Holds(handles, Held(requests)) && Served(handles, handles', request)
    ensures Holds(handles', Held(requests + [request]))
  {
  }

  method Serve(pool: PoolAlloter, handles: seq<Handle>, request: Request) returns (handles': seq<Handle>)
    requires pool.Valid() && HandlesOk(handles, pool.lens, pool.live) && (request.Allocate? ==> request.size >= 1)
    modifies pool
    ensures pool.Valid() && HandlesOk(handles', pool.lens, pool.live)
    ensures Served(handles, handles', request)
  {
    match request {
      case Allocate(size) =>
        var p := pool.Malloc(size);
        HandleAdd(handles, old(pool.lens), old(pool.live), pool.lens, p, size);
        return handles + [Handle(p, size)];
      case Release(k) =>
        if k >= |handles| {
          return handles;
        }
        assert HandleOk(handles[k], pool.lens, pool.live);
        HandleDrop(handles, pool.lens, pool.live, k);
        var _ := pool.Free(handles[k].ptr, handles[k].size);
        return handles[..k] + handles[k + 1..];
    }
  }

  lemma HandleAdd(handles: seq<Handle>, lens: map<Addr, nat>, live: set<Addr>, lens': map<Addr, nat>, p: Ptr, size: nat)
    requires HandlesOk(handles, lens, live) && Kept(lens, lens') && size >= 1
    requires size > MAX_BYTES ==> p == FromNormal(size)
    requires size <= MAX_BYTES ==> p.FromPool? && p.addr !in live && p.addr in lens' && lens'[p.addr] == RoundUp(size)
    ensures HandlesOk(handles + [Handle(p, size)], lens', if p.FromPool? then live + {p.addr} else live)
  {
    var handles', live' := handles + [Handle(p, size)], if p.FromPool? then live + {p.addr} else live;
    forall i | 0 <= i < |handles'| ensures HandleOk(handles'[i], lens', live') {
      if i < |handles| { assert HandleOk(handles[i], lens, live); }
    }
    forall a | a in live' ensures exists i :: 0 <= i < |handles'| && handles'[i].ptr == FromPool(a) {
      if a in live {
        var i :| 0 <= i < |handles| && handles[i].ptr == FromPool(a);
        assert handles'[i].ptr == FromPool(a);
      } else {
        assert handles'[|handles|].ptr == FromPool(a);
      }
    }
    forall i, j | 0 <= i < j < |handles'| && handles'[i].ptr.FromPool? ensures handles'[i].ptr != handles'[j].ptr {
      assert HandleOk(handles[i], lens, live);
    }
  }

  lemma HandleDrop(handles: seq<Handle>, lens: map<Addr, nat>, live: set<Addr>, k: nat)
    requires HandlesOk(handles, lens, live) && k < |handles|
    ensures var live' := if handles[k].ptr.FromPool? then live - {handles[k].ptr.addr} else live;
      HandlesOk(handles[..k] + handles[k + 1..], lens, live')
  {
    var p := handles[k].ptr;
    var handles', live' := handles[..k] + handles[k + 1..], if p.FromPool? then live - {p.addr} else live;
    forall i | 0 <= i < |handles'| ensures HandleOk(handles'[i], lens, live') {
      var i' := if i < k then i else i + 1;
      assert handles'[i] == handles[i'] && HandleOk(handles[i'], lens, live);
    }
    forall a | a in live' ensures exists i :: 0 <= i < |handles'| && handles'[i].ptr == FromPool(a) {
      var i :| 0 <= i < |handles| && handles[i].ptr == FromPool(a);
      assert handles'[if i < k then i else i - 1].ptr == FromPool(a);
    }
  }
}
