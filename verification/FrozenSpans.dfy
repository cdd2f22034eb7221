/** The freeze protocol between one writable buffer and the zero-copy spans handed out over its chunk. */
module FrozenSpans {
  import opened Common
  import opened Varint

  /** A block of memory with the watermark below which live spans forbid writing. */
  class BufferChunk {
    const data: array<byte>
    var writeFloor: nat
    var freezeCount: nat

    constructor (data: array<byte>)
      ensures this.data == data && writeFloor == 0 && freezeCount == 0
    {
      this.data := data;
      writeFloor, freezeCount := 0, 0;
    }

    /** Pin `[0, end)`. */
    method FreezeUpTo(end: nat)
      modifies this
      ensures freezeCount == old(freezeCount) + 1
      ensures writeFloor == if Min(end, data.Length) > old(writeFloor) then Min(end, data.Length) else old(writeFloor)
    {
      if end == 0 {
        freezeCount := freezeCount + 1;
        return;
      }
      var offset := end;
      if offset > data.Length {
        offset := data.Length;
      }
      if offset > writeFloor {
        writeFloor := offset;
      }
      freezeCount := freezeCount + 1;
    }

    /** Release one pin; the watermark falls only with the last one. */
    method Unfreeze()
      modifies this
      ensures freezeCount == if old(freezeCount) == 0 then 0 else old(freezeCount) - 1
      ensures writeFloor == if old(freezeCount) == 1 then 0 else old(writeFloor)
    {
      if freezeCount == 0 {
        return;
      }
      freezeCount := freezeCount - 1;
      if freezeCount == 0 {
        writeFloor := 0;
      }
    }
  }

  class SingleBlockBuffer {
    const chunk: BufferChunk
    const bufferEnd: nat
    var readPos: nat
    var writePos: nat

    /** The write position never goes below the chunk's watermark. */
    ghost predicate Valid()
      reads this, chunk
    {
      readPos <= writePos <= bufferEnd <= chunk.data.Length && chunk.writeFloor <= writePos
    }

    /** `limit` is the capacity limit; 0 means the whole chunk. */
    constructor (chunk: BufferChunk, limit: nat)
      requires chunk.writeFloor == 0
      ensures Valid() && this.chunk == chunk && readPos == writePos == 0
      ensures bufferEnd == if limit == 0 then chunk.data.Length else Min(limit, chunk.data.Length)
    {
      this.chunk := chunk;
      bufferEnd := if limit == 0 then chunk.data.Length else Min(limit, chunk.data.Length);
      readPos, writePos := 0, 0;
    }

    /** Give back the space above the watermark: all of it once no span is live. */
    method Clear()
      requires Valid()
      modifies this
      ensures Valid() && readPos == writePos == chunk.writeFloor
    {
      var target := chunk.writeFloor;
      if target > bufferEnd {
        target := bufferEnd;
      }
      readPos, writePos := target, target;
    }

    method MoveReadPt(len: nat) returns (moved: nat)
      requires Valid()
      modifies this
      ensures Valid() && moved == Min(len, old(writePos) - old(readPos))
      ensures if old(writePos) - old(readPos) <= len then readPos == writePos == chunk.writeFloor
              else readPos == old(readPos) + len && writePos == old(writePos)
    {
      var size := writePos - readPos;
      if size <= len {
        Clear();
        return size;
      }
      readPos := readPos + len;
      return len;
    }

    method Read(len: nat) returns (out: seq<byte>)
      requires Valid()
      modifies this
      ensures Valid() && out == old(chunk.data[readPos..writePos])[..Min(len, old(writePos) - old(readPos))]
      ensures if old(writePos) - old(readPos) <= len then readPos == writePos == chunk.writeFloor
              else readPos == old(readPos) + len && writePos == old(writePos)
    {
      var size := Min(len, writePos - readPos);
      out := chunk.data[readPos..readPos + size];
      assert out == chunk.data[readPos..writePos][..size];
      var _ := MoveReadPt(len);
    }

    /** Copy as much as fits at the write position; nothing below it is touched. */
    method Write(src: seq<byte>) returns (written: nat)
      requires Valid()
      modifies this, chunk.data
      ensures Valid() && written == Min(|src|, bufferEnd - old(writePos))
      ensures readPos == old(readPos) && writePos == old(writePos) + written
      ensures chunk.data[..] == old(chunk.data[..writePos]) + src[..written] + old(chunk.data[writePos + written..])
    {
      written := Min(|src|, bufferEnd - writePos);
      forall i | 0 <= i < written {
        chunk.data[writePos + i] := src[i];
      }
      writePos := writePos + written;
    }

    /** Expose bytes a caller put into the writable span. */
    method MoveWritePt(len: nat) returns (moved: nat)
      requires Valid()
      modifies this
      ensures Valid() && moved == Min(len, bufferEnd - old(writePos))
      ensures readPos == old(readPos) && writePos == old(writePos) + moved
    {
      moved := Min(len, bufferEnd - writePos);
      writePos := writePos + moved;
    }

    /** A caller writes one byte through the writable span `[writePos, bufferEnd)`. */
    method WriteThroughSpan(at: nat, b: byte)
      requires Valid() && writePos <= at < bufferEnd
      modifies chunk.data
      ensures chunk.data[..] == old(chunk.data[..])[at := b]
    {
      chunk.data[at] := b;
    }
  }

  /** A span variable: default-constructed or moved-from, or pinning a byte range of the chunk. */
  datatype Span = Invalid | Live(start: nat, end: nat)

  function LiveKeys(spans: map<nat, Span>): set<nat> {
    set k | k in spans && spans[k].Live?
  }

  /** Every live span lies below the watermark, there is one freeze per live span, and the bytes under each
      are those it was given. */
  ghost predicate Pinned(spans: map<nat, Span>, taken: map<nat, seq<byte>>, count: nat, floor: nat, memory: seq<byte>) {
    && count == |LiveKeys(spans)| && floor <= |memory|
    && (count == 0 ==> floor == 0)
    && (forall k {:trigger SpanOk(spans[k], k, taken, floor, memory)} ::
          k in spans ==> SpanOk(spans[k], k, taken, floor, memory))
  }

  ghost predicate SpanOk(span: Span, k: nat, taken: map<nat, seq<byte>>, floor: nat, memory: seq<byte>) {
    span.Live? ==> span.start <= span.end <= floor <= |memory| && k in taken && memory[span.start..span.end] == taken[k]
  }

  lemma SameBelow(memory: seq<byte>, memory': seq<byte>, floor: nat, lo: nat, hi: nat)
    requires lo <= hi <= floor <= |memory| == |memory'| && memory'[..floor] == memory[..floor]
    ensures memory'[lo..hi] == memory[lo..hi]
  {
    assert memory'[lo..hi] == memory'[..floor][lo..hi] && memory[lo..hi] == memory[..floor][lo..hi];
  }

  /** Writing at or above the watermark changes no pinned byte. */
  lemma WriteAboveKeeps(spans: map<nat, Span>, taken: map<nat, seq<byte>>, count: nat, floor: nat,
                        memory: seq<byte>, memory': seq<byte>)
    requires Pinned(spans, taken, count, floor, memory)
    requires |memory'| == |memory| && memory'[..floor] == memory[..floor]
    ensures Pinned(spans, taken, count, floor, memory')
  {
    forall k | k in spans ensures SpanOk(spans[k], k, taken, floor, memory') {
      assert SpanOk(spans[k], k, taken, floor, memory);
      if spans[k].Live? {
        SameBelow(memory, memory', floor, spans[k].start, spans[k].end);
      }
    }
  }

  /** A new live span under a raised watermark. */
  lemma PinKeeps(spans: map<nat, Span>, taken: map<nat, seq<byte>>, count: nat, floor: nat, memory: seq<byte>,
                 k: nat, start: nat, end: nat, floor': nat)
    requires Pinned(spans, taken, count, floor, memory) && (k in spans ==> spans[k].Invalid?)
    requires start <= end <= floor' <= |memory| && floor <= floor'
    ensures Pinned(spans[k := Live(start, end)], taken[k := memory[start..end]], count + 1, floor', memory)
  {
    var spans', taken' := spans[k := Live(start, end)], taken[k := memory[start..end]];
    assert LiveKeys(spans') == LiveKeys(spans) + {k};
    forall j | j in spans' ensures SpanOk(spans'[j], j, taken', floor', memory) {
      if j != k { assert SpanOk(spans[j], j, taken, floor, memory); }
    }
  }

  /** A live span variable that lets go. */
  lemma UnpinKeeps(spans: map<nat, Span>, taken: map<nat, seq<byte>>, count: nat, floor: nat, memory: seq<byte>, k: nat)
    requires Pinned(spans, taken, count, floor, memory) && k in spans && spans[k].Live?
    ensures count > 0 && Pinned(spans[k := Invalid], taken, count - 1, if count == 1 then 0 else floor, memory)
  {
    var spans' := spans[k := Invalid];
    assert LiveKeys(spans) == LiveKeys(spans') + {k};
    assert count == 1 ==> LiveKeys(spans') == {};
    forall j | j in spans' ensures SpanOk(spans'[j], j, taken, if count == 1 then 0 else floor, memory) {
      assert SpanOk(spans[j], j, taken, floor, memory);
      assert spans'[j].Live? ==> j in LiveKeys(spans');
    }
  }

  /** A freeze handed from one variable to another. */
  lemma TransferKeeps(spans: map<nat, Span>, taken: map<nat, seq<byte>>, count: nat, floor: nat, memory: seq<byte>,
                      dst: nat, src: nat)
    requires Pinned(spans, taken, count, floor, memory) && src in spans && src != dst
    requires dst in spans ==> spans[dst].Invalid?
    ensures Pinned(spans[dst := spans[src]][src := Invalid],
                   if src in taken then taken[dst := taken[src]] else taken, count, floor, memory)
  {
    var spans' := spans[dst := spans[src]][src := Invalid];
    var taken' := if src in taken then taken[dst := taken[src]] else taken;
    assert SpanOk(spans[src], src, taken, floor, memory);
    if spans[src].Live? {
      assert LiveKeys(spans') == LiveKeys(spans) - {src} + {dst};
    } else {
      assert LiveKeys(spans') == LiveKeys(spans);
    }
    forall j | j in spans' ensures SpanOk(spans'[j], j, taken', floor, memory) {
      if j != dst && j != src { assert SpanOk(spans[j], j, taken, floor, memory); }
    }
  }

  /** Names that are not live can come and go. */
  lemma DeadNameKeeps(spans: map<nat, Span>, taken: map<nat, seq<byte>>, count: nat, floor: nat, memory: seq<byte>,
                      k: nat)
    requires Pinned(spans, taken, count, floor, memory) && (k in spans ==> spans[k].Invalid?)
    ensures Pinned(spans - {k}, taken, count, floor, memory)
    ensures Pinned(spans[k := Invalid], taken, count, floor, memory)
  {
    assert LiveKeys(spans - {k}) == LiveKeys(spans) == LiveKeys(spans[k := Invalid]);
    forall j | j in spans ensures SpanOk(spans[j], j, taken, floor, memory) {
    }
  }

  /** A buffer over one chunk and every span variable over that chunk: the value the source's pointers and counters
      stand for. `taken` records the bytes each span was handed when it, or the span it descends from by copy and
      move, was taken. */
  datatype Arena = Arena(spans: map<nat, Span>, taken: map<nat, seq<byte>>, readPos: nat, writePos: nat, end: nat,
                         floor: nat, count: nat, memory: seq<byte>) {
    predicate Shape() {
      readPos <= writePos <= end <= |memory|
    }

    /** The write position never goes below the watermark, and the watermark covers every live span. */
    ghost predicate Sound() {
      Shape() && floor <= writePos && Pinned(spans, taken, count, floor, memory)
    }
  }

  function Raised(a: Arena, end: nat): nat {
    if Min(end, |a.memory|) > a.floor then Min(end, |a.memory|) else a.floor
  }

  /** Variable `k` becomes `span`, with a freeze if that is live. */
  function Frozen(a: Arena, k: nat, span: Span, bytes: seq<byte>): Arena {
    if span.Invalid? then a.(spans := a.spans[k := Invalid])
    else a.(spans := a.spans[k := span], taken := a.taken[k := bytes], count := a.count + 1, floor := Raised(a,
        span.end))
  }

  /** Variable `k` gives back its freeze, if it has one. */
  function Released(a: Arena, k: nat): Arena
    requires k in a.spans
  {
    if a.spans[k].Invalid? then a
    else a.(spans := a.spans[k := Invalid], count := if a.count == 0 then 0 else a.count - 1,
            floor := if a.count == 1 then 0 else a.floor)
  }

  /** The freeze of `src` changes hands to `k`. */
  function Transferred(a: Arena, k: nat, src: nat): Arena
    requires src in a.spans
  {
    a.(spans := a.spans[k := a.spans[src]][src := Invalid],
       taken := if src in a.taken then a.taken[k := a.taken[src]] else a.taken)
  }

  function BytesOf(a: Arena, k: nat): seq<byte> {
    if k in a.taken then a.taken[k] else []
  }

  datatype Op =
    | Take(k: nat, length: nat, mustFill: bool) | Copy(k: nat, src: nat) | Move(k: nat, src: nat)
    | Assign(dst: nat, src: nat) | MoveAssign(dst: nat, src: nat) | Drop(k: nat)
    | Write(bytes: seq<byte>) | WriteAt(at: nat, b: byte) | MoveWrite(len: nat)
    | Read(len: nat) | MoveRead(len: nat) | Clear

  predicate SpanOp(op: Op) {
    op.Take? || op.Copy? || op.Move? || op.Assign? || op.MoveAssign? || op.Drop?
  }

  function Taking(a: Arena, k: nat, length: nat, mustFill: bool): Arena
    requires a.Shape()
  {
    var available := a.writePos - a.readPos;
    var want := if length == 0 then available else length;
    var stop := a.readPos + Min(want, available);
    if mustFill && want > available then a.(spans := a.spans[k := Invalid])
    else Frozen(a, k, Live(a.readPos, stop), a.memory[a.readPos..stop])
  }

  /** A step on span variables; one that names a missing or already used variable does nothing. */
  function SpanStep(a: Arena, op: Op): Arena
    requires a.Shape() && SpanOp(op)
  {
    match op
    case Take(k, length, mustFill) => if k in a.spans then a else Taking(a, k, length, mustFill)
    case Copy(k, src) => if k in a.spans || src !in a.spans then a else Frozen(a, k, a.spans[src], BytesOf(a, src))
    case Move(k, src) => if k in a.spans || src !in a.spans then a else Transferred(a, k, src)
    case Assign(dst, src) =>
      if dst !in a.spans || src !in a.spans || dst == src then a
      else Frozen(Released(a, dst), dst, a.spans[src], BytesOf(a, src))
    case MoveAssign(dst, src) =>
      if dst !in a.spans || src !in a.spans || dst == src then a else Transferred(Released(a, dst), dst, src)
    case Drop(k) => if k !in a.spans then a else Released(a, k).(spans := a.spans - {k})
  }

  /** Reading past everything gives the space above the watermark back. */
  function Drained(a: Arena, len: nat): Arena
    requires a.Shape()
  {
    if a.writePos - a.readPos <= len then Cleared(a) else a.(readPos := a.readPos + len)
  }

  function Cleared(a: Arena): Arena {
    var target := Min(a.floor, a.end);
    a.(readPos := target, writePos := target)
  }

  function BufferStep(a: Arena, op: Op): Arena
    requires a.Shape() && !SpanOp(op)
  {
    match op
    case Write(bytes) =>
      var n := Min(|bytes|, a.end - a.writePos);
      a.(memory := a.memory[..a.writePos] + bytes[..n] + a.memory[a.writePos + n..], writePos := a.writePos + n)
    case WriteAt(at, b) => if a.writePos <= at < a.end then a.(memory := a.memory[at := b]) else a
    case MoveWrite(len) => a.(writePos := a.writePos + Min(len, a.end - a.writePos))
    case Read(len) => Drained(a, len)
    case MoveRead(len) => Drained(a, len)
    case Clear => Cleared(a)
  }

  function Step(a: Arena, op: Op): (r: Arena)
    requires a.Shape()
    ensures r.Shape() && |r.memory| == |a.memory|
  {
    if SpanOp(op) then SpanStep(a, op) else BufferStep(a, op)
  }

  /** What a step returns: the bytes of a read, the count of a write or a pointer move. */
  datatype Result = Nothing | Count(n: nat) | Bytes(s: seq<byte>)

  function ResultOf(a: Arena, op: Op): Result
    requires a.Shape()
  {
    match op
    case Write(bytes) => Count(Min(|bytes|, a.end - a.writePos))
    case MoveWrite(len) => Count(Min(len, a.end - a.writePos))
    case Read(len) => Bytes(a.memory[a.readPos..a.readPos + Min(len, a.writePos - a.readPos)])
    case MoveRead(len) => Count(Min(len, a.writePos - a.readPos))
    case _ => Nothing
  }

  function Replay(a: Arena, ops: seq<Op>): (r: Arena)
    requires a.Shape()
    ensures r.Shape() && |r.memory| == |a.memory|
  {
    if ops == [] then a else Step(Replay(a, ops[..|ops| - 1]), ops[|ops| - 1])
  }

  lemma FrozenSound(a: Arena, k: nat, span: Span, bytes: seq<byte>)
    requires a.Sound() && (k in a.spans ==> a.spans[k].Invalid?)
    requires span.Live? ==> span.start <= span.end <= a.writePos && bytes == a.memory[span.start..span.end]
    ensures Frozen(a, k, span, bytes).Sound()
  {
    if span.Live? {
      PinKeeps(a.spans, a.taken, a.count, a.floor, a.memory, k, span.start, span.end, Raised(a, span.end));
    } else {
      DeadNameKeeps(a.spans, a.taken, a.count, a.floor, a.memory, k);
    }
  }

  lemma ReleasedSound(a: Arena, k: nat)
    requires a.Sound() && k in a.spans
    ensures Released(a, k).Sound() && k in Released(a, k).spans && Released(a, k).spans[k].Invalid?
    ensures Released(a, k).count + (if a.spans[k].Live? then 1 else 0) == a.count
  {
    if a.spans[k].Live? {
      UnpinKeeps(a.spans, a.taken, a.count, a.floor, a.memory, k);
    }
  }

  lemma TransferredSound(a: Arena, k: nat, src: nat)
    requires a.Sound() && src in a.spans && src != k && (k in a.spans ==> a.spans[k].Invalid?)
    ensures Transferred(a, k, src).Sound()
  {
    TransferKeeps(a.spans, a.taken, a.count, a.floor, a.memory, k, src);
  }

  /** In a sound arena the bytes recorded for a live span are the ones under it. */
  lemma BytesUnder(a: Arena, k: nat)
    requires a.Sound() && k in a.spans && a.spans[k].Live?
    ensures a.spans[k].start <= a.spans[k].end <= a.floor
    ensures BytesOf(a, k) == a.memory[a.spans[k].start..a.spans[k].end]
  {
    assert SpanOk(a.spans[k], k, a.taken, a.floor, a.memory);
  }

  lemma SpanStepSound(a: Arena, op: Op)
    requires a.Sound() && SpanOp(op)
    ensures SpanStep(a, op).Sound()
  {
    match op
    case Take(k, length, mustFill) => if k !in a.spans { TakingSound(a, k, length, mustFill); }
    case Copy(k, src) =>
      if k !in a.spans && src in a.spans {
        if a.spans[src].Live? { BytesUnder(a, src); }
        FrozenSound(a, k, a.spans[src], BytesOf(a, src));
      }
    case Move(k, src) => if k !in a.spans && src in a.spans { TransferredSound(a, k, src); }
    case Assign(dst, src) => if dst in a.spans && src in a.spans && dst != src { AssignSound(a, dst, src); }
    case MoveAssign(dst, src) =>
      if dst in a.spans && src in a.spans && dst != src {
        ReleasedSound(a, dst);
        TransferredSound(Released(a, dst), dst, src);
      }
    case Drop(k) =>
      if k in a.spans {
        ReleasedSound(a, k);
        var b := Released(a, k);
        DeadNameKeeps(b.spans, b.taken, b.count, b.floor, b.memory, k);
        assert b.spans - {k} == a.spans - {k};
      }
  }

  lemma TakingSound(a: Arena, k: nat, length: nat, mustFill: bool)
    requires a.Sound() && k !in a.spans
    ensures Taking(a, k, length, mustFill).Sound()
  {
    var available := a.writePos - a.readPos;
    var stop := a.readPos + Min(if length == 0 then available else length, available);
    FrozenSound(a, k, Live(a.readPos, stop), a.memory[a.readPos..stop]);
    DeadNameKeeps(a.spans, a.taken, a.count, a.floor, a.memory, k);
  }

  lemma AssignSound(a: Arena, dst: nat, src: nat)
    requires a.Sound() && dst in a.spans && src in a.spans && dst != src
    ensures Frozen(Released(a, dst), dst, a.spans[src], BytesOf(a, src)).Sound()
  {
    ReleasedSound(a, dst);
    var b := Released(a, dst);
    if a.spans[src].Live? { BytesUnder(b, src); }
    FrozenSound(b, dst, a.spans[src], BytesOf(a, src));
  }

  lemma BufferStepSound(a: Arena, op: Op)
    requires a.Sound() && !SpanOp(op)
    ensures BufferStep(a, op).Sound()
    ensures BufferStep(a, op).memory[..a.floor] == a.memory[..a.floor]
  {
    var b := BufferStep(a, op);
    assert b.memory[..a.floor] == a.memory[..a.floor];
    WriteAboveKeeps(a.spans, a.taken, a.count, a.floor, a.memory, b.memory);
  }

  /** In every state a run reaches: freezes = live spans, every live span lies below the watermark and the write
      position, and the bytes under it are those handed out when it was taken, through all copies and moves. */
  lemma {:induction false} ReplaySound(a: Arena, ops: seq<Op>)
    requires a.Sound()
    ensures Replay(a, ops).Sound()
  {
    if ops != [] {
      ReplaySound(a, ops[..|ops| - 1]);
      var b, op := Replay(a, ops[..|ops| - 1]), ops[|ops| - 1];
      if SpanOp(op) { SpanStepSound(b, op); } else { BufferStepSound(b, op); }
    }
  }

  /** The step may rebind, empty or end variable `k`. */
  predicate Touches(op: Op, k: nat) {
    match op
    case Move(_, src) => src == k
    case Assign(dst, _) => dst == k
    case MoveAssign(dst, src) => dst == k || src == k
    case Drop(name) => name == k
    case _ => false
  }

  /** A live span that no step of a run touches is there at the end, over the same bytes. */
  lemma {:induction false} ReplaySurvives(a: Arena, ops: seq<Op>, k: nat)
    requires a.Sound() && k in a.spans && a.spans[k].Live? && forall i :: 0 <= i < |ops| ==> !Touches(ops[i], k)
    ensures var b, s := Replay(a, ops), a.spans[k];
      && k in b.spans && b.spans[k] == s && s.start <= s.end <= |a.memory|
      && b.memory[s.start..s.end] == a.memory[s.start..s.end]
  {
    BytesUnder(a, k);
    if ops != [] {
      var n := |ops| - 1;
      ReplaySurvives(a, ops[..n], k);
      ReplaySound(a, ops[..n]);
      StepSpares(Replay(a, ops[..n]), ops[n], k);
    }
  }

  lemma StepSpares(a: Arena, op: Op, k: nat)
    requires a.Sound() && k in a.spans && a.spans[k].Live? && !Touches(op, k)
    ensures var b, s := Step(a, op), a.spans[k];
      && k in b.spans && b.spans[k] == s && s.start <= s.end <= |a.memory|
      && b.memory[s.start..s.end] == a.memory[s.start..s.end]
  {
    BytesUnder(a, k);
    if !SpanOp(op) {
      BufferStepSound(a, op);
      SameBelow(a.memory, BufferStep(a, op).memory, a.floor, a.spans[k].start, a.spans[k].end);
    }
  }

  /** One buffer, its chunk, and every span variable over that chunk. */
  class SpanTable {
    const chunk: BufferChunk
    const buffer: SingleBlockBuffer
    var spans: map<nat, Span>
    /** The bytes each span was handed. */
    ghost var taken: map<nat, seq<byte>>

    ghost function State(): Arena
      reads this, chunk, chunk.data, buffer
    {
      Arena(spans, taken, buffer.readPos, buffer.writePos, buffer.bufferEnd, chunk.writeFloor, chunk.freezeCount,
          chunk.data[..])
    }

    ghost predicate Valid()
      reads this, chunk, chunk.data, buffer
    {
      buffer.chunk == chunk && State().Sound()
    }

    /** If variable `k` is live, the bytes recorded for it are the ones in its range. */
    ghost predicate Covers(k: nat)
      reads this, chunk, chunk.data
    {
      k in spans && (spans[k].Live? ==>
        && spans[k].start <= spans[k].end <= chunk.data.Length
        && k in taken && taken[k] == chunk.data[spans[k].start..spans[k].end])
    }

    lemma ValidCovers(k: nat)
      requires Valid() && k in spans
      ensures Covers(k)
    {
      assert SpanOk(spans[k], k, taken, chunk.writeFloor, chunk.data[..]);
    }

    constructor (memory: array<byte>, limit: nat)
      ensures Valid() && fresh(chunk) && fresh(buffer) && chunk.data == memory && spans == map[]
      ensures buffer.readPos == buffer.writePos == 0
      ensures buffer.bufferEnd == if limit == 0 then memory.Length else Min(limit, memory.Length)
    {
      var block := new BufferChunk(memory);
      chunk := block;
      buffer := new SingleBlockBuffer(block, limit);
      spans, taken := map[], map[];
    }

    /** The span constructor: freeze up to the span's end. */
    method Pin(k: nat, span: Span, ghost bytes: seq<byte>)
      requires Valid() && (k in spans ==> spans[k].Invalid?)
      requires span.Live? ==> span.start <= span.end <= buffer.writePos && bytes == chunk.data[span.start..span.end]
      modifies this, chunk
      ensures Valid() && State() == Frozen(old(State()), k, span, bytes)
    {
      FrozenSound(State(), k, span, bytes);
      if span.Live? {
        chunk.FreezeUpTo(span.end);
        taken := taken[k := bytes];
      }
      spans := spans[k := span];
    }

    /** Let go of whatever variable `k` pins. */
    method Unpin(k: nat)
      requires Valid() && k in spans
      modifies this, chunk
      ensures Valid() && State() == Released(old(State()), k)
      ensures spans == old(spans)[k := Invalid]
      ensures chunk.freezeCount + (if old(spans)[k].Live? then 1 else 0) == old(chunk.freezeCount)
    {
      ReleasedSound(State(), k);
      if spans[k].Live? {
        chunk.Unfreeze();
        spans := spans[k := Invalid];
      } else {
        assert spans[k := Invalid] == spans;
      }
    }

    /** `GetSharedReadableSpan` into a new variable `k`. */
    method Take(k: nat, length: nat, mustFill: bool)
      requires Valid() && k !in spans
      modifies this, chunk
      ensures Valid() && State() == SpanStep(old(State()), Op.Take(k, length, mustFill))
      ensures var readable := buffer.writePos - buffer.readPos;
        var n := if length == 0 then readable else Min(length, readable);
        if mustFill && length > readable then
          spans == old(spans)[k := Invalid] && chunk.freezeCount == old(chunk.freezeCount)
        else
          && spans == old(spans)[k := Live(buffer.readPos, buffer.readPos + n)]
          && k in taken && taken[k] == chunk.data[buffer.readPos..buffer.writePos][..n]
          && chunk.freezeCount == old(chunk.freezeCount) + 1
    {
      var available := buffer.writePos - buffer.readPos;
      var want := if length == 0 then available else length;
      if mustFill && want > available {
        Pin(k, Invalid, []);
        return;
      }
      PinFront(k, Min(want, available));
    }

    /** A span over the first `n` readable bytes. */
    method PinFront(k: nat, n: nat)
      requires Valid() && k !in spans && n <= buffer.writePos - buffer.readPos
      modifies this, chunk
      ensures Valid()
      ensures var a := old(State());
        State() == Frozen(a, k, Live(a.readPos, a.readPos + n), a.memory[a.readPos..a.readPos + n])
      ensures k in taken && taken[k] == chunk.data[buffer.readPos..buffer.writePos][..n]
    {
      ghost var a := State();
      SliceTake(a.memory, a.readPos, a.writePos, n);
      assert chunk.data[buffer.readPos..buffer.writePos] == a.memory[a.readPos..a.writePos];
      var span := Live(buffer.readPos, buffer.readPos + n);
      assert chunk.data[span.start..span.end] == a.memory[span.start..span.end];
      Pin(k, span, a.memory[span.start..span.end]);
    }

    method CopyConstruct(k: nat, src: nat)
      requires Valid() && k !in spans && src in spans
      modifies this, chunk
      ensures Valid() && State() == SpanStep(old(State()), Copy(k, src))
      ensures spans == old(spans)[k := old(spans)[src]] && Covers(k)
      ensures chunk.freezeCount == old(chunk.freezeCount) + if spans[k].Live? then 1 else 0
    {
      if spans[src].Live? { BytesUnder(State(), src); }
      Pin(k, spans[src], BytesOf(State(), src));
      ValidCovers(k);
    }

    method MoveConstruct(k: nat, src: nat)
      requires Valid() && k !in spans && src in spans
      modifies this
      ensures Valid() && State() == SpanStep(old(State()), Move(k, src))
      ensures spans == old(spans)[k := old(spans)[src]][src := Invalid] && Covers(k)
    {
      HandOver(k, src);
      ValidCovers(k);
    }

    /** The source's pointers go to `k` and the source becomes invalid; no freeze is taken or given back. */
    method HandOver(k: nat, src: nat)
      requires Valid() && src in spans && src != k && (k in spans ==> spans[k].Invalid?)
      modifies this
      ensures Valid() && State() == Transferred(old(State()), k, src)
    {
      TransferredSound(State(), k, src);
      taken := if src in taken then taken[k := taken[src]] else taken;
      spans := spans[k := spans[src]][src := Invalid];
    }

    /** Copy assignment: release the old freeze, then take one for the source's range. */
    method CopyAssign(dst: nat, src: nat)
      requires Valid() && dst in spans && src in spans
      modifies this, chunk
      ensures Valid() && State() == SpanStep(old(State()), Assign(dst, src))
      ensures spans == old(spans)[dst := old(spans)[src]] && Covers(dst)
      ensures dst != src ==>
        chunk.freezeCount + (if old(spans)[dst].Live? then 1 else 0)
        == old(chunk.freezeCount) + if old(spans)[src].Live? then 1 else 0
    {
      if dst == src {
        ValidCovers(dst);
        return;
      }
      ghost var bytes := BytesOf(State(), src);
      var span := spans[src];
      Unpin(dst);
      if span.Live? { BytesUnder(State(), src); }
      Pin(dst, span, bytes);
      ValidCovers(dst);
    }

    /** Move assignment: release the old freeze and take over the source's. */
    method MoveAssign(dst: nat, src: nat)
      requires Valid() && dst in spans && src in spans
      modifies this, chunk
      ensures Valid() && State() == SpanStep(old(State()), Op.MoveAssign(dst, src))
      ensures spans == if dst == src then old(spans) else old(spans)[dst := old(spans)[src]][src := Invalid]
      ensures Covers(dst)
      ensures dst != src ==>
        chunk.freezeCount + (if old(spans)[dst].Live? then 1 else 0) == old(chunk.freezeCount)
    {
      if dst == src {
        ValidCovers(dst);
        return;
      }
      Unpin(dst);
      HandOver(dst, src);
      ValidCovers(dst);
    }

    /** The destructor. */
    method Drop(k: nat)
      requires Valid() && k in spans
      modifies this, chunk
      ensures Valid() && State() == SpanStep(old(State()), Op.Drop(k))
      ensures spans == old(spans) - {k}
      ensures chunk.freezeCount + (if old(spans)[k].Live? then 1 else 0) == old(chunk.freezeCount)
    {
      SpanStepSound(State(), Op.Drop(k));
      ghost var all := spans;
      Unpin(k);
      assert spans - {k} == all - {k};
      spans := spans - {k};
    }
  }

  /** One step of the classes is one step of the arena. */
  method Apply(table: SpanTable, op: Op) returns (result: Result)
    requires table.Valid()
    modifies table, table.chunk, table.buffer, table.chunk.data
    ensures table.Valid() && table.State() == Step(old(table.State()), op)
    ensures result == ResultOf(old(table.State()), op)
  {
    if SpanOp(op) {
      ApplyToSpans(table, op);
      result := Nothing;
    } else {
      result := ApplyToBuffer(table, op);
    }
  }

  method ApplyToSpans(table: SpanTable, op: Op)
    requires table.Valid() && SpanOp(op)
    modifies table, table.chunk
    ensures table.Valid() && table.State() == SpanStep(old(table.State()), op)
  {
    var names := table.spans.Keys;
    match op {
      case Take(k, length, mustFill) => if k !in names { table.Take(k, length, mustFill); }
      case Copy(k, src) => if k !in names && src in names { table.CopyConstruct(k, src); }
      case Move(k, src) => if k !in names && src in names { table.MoveConstruct(k, src); }
      case Assign(dst, src) => if dst in names && src in names { table.CopyAssign(dst, src); }
      case MoveAssign(dst, src) => if dst in names && src in names { table.MoveAssign(dst, src); }
      case Drop(k) => if k in names { table.Drop(k); }
    }
  }

  method ApplyToBuffer(table: SpanTable, op: Op) returns (result: Result)
    requires table.Valid() && !SpanOp(op)
    modifies table.buffer, table.chunk.data
    ensures table.Valid() && table.State() == BufferStep(old(table.State()), op)
    ensures result == ResultOf(old(table.State()), op)
  {
    if op.Write? {
      result := ApplyWrite(table, op.bytes);
    } else if op.Read? {
      result := ApplyRead(table, op.len);
    } else if op.WriteAt? {
      BufferStepSound(table.State(), op);
      if table.buffer.writePos <= op.at < table.buffer.bufferEnd {
        table.buffer.WriteThroughSpan(op.at, op.b);
      }
      result := Nothing;
    } else {
      result := ApplyMove(table, op);
    }
  }

  method ApplyWrite(table: SpanTable, bytes: seq<byte>) returns (result: Result)
    requires table.Valid()
    modifies table.buffer, table.chunk.data
    ensures table.Valid() && table.State() == BufferStep(old(table.State()), Write(bytes))
    ensures result == ResultOf(old(table.State()), Write(bytes))
  {
    ghost var a := table.State();
    BufferStepSound(a, Write(bytes));
    var n := table.buffer.Write(bytes);
    assert old(table.chunk.data[..table.buffer.writePos]) == a.memory[..a.writePos];
    assert old(table.chunk.data[table.buffer.writePos + n..]) == a.memory[a.writePos + n..];
    result := Count(n);
  }

  /** The steps that only move the buffer's positions. */
  method ApplyMove(table: SpanTable, op: Op) returns (result: Result)
    requires table.Valid() && (op.MoveWrite? || op.MoveRead? || op.Clear?)
    modifies table.buffer
    ensures table.Valid() && table.State() == BufferStep(old(table.State()), op)
    ensures result == ResultOf(old(table.State()), op)
  {
    BufferStepSound(table.State(), op);
    match op {
      case MoveWrite(len) =>
        var n := table.buffer.MoveWritePt(len);
        result := Count(n);
      case MoveRead(len) =>
        var n := table.buffer.MoveReadPt(len);
        result := Count(n);
      case Clear =>
        table.buffer.Clear();
        result := Nothing;
    }
  }

  method ApplyRead(table: SpanTable, len: nat) returns (result: Result)
    requires table.Valid()
    modifies table.buffer
    ensures table.Valid() && table.State() == BufferStep(old(table.State()), Read(len))
    ensures result == ResultOf(old(table.State()), Read(len))
  {
    ghost var a := table.State();
    BufferStepSound(a, Read(len));
    assert table.chunk.data[a.readPos..a.writePos] == a.memory[a.readPos..a.writePos];
    SliceTake(a.memory, a.readPos, a.writePos, len);
    var bytes := table.buffer.Read(len);
    result := Bytes(bytes);
  }

  lemma SliceTake(memory: seq<byte>, lo: nat, hi: nat, len: nat)
    requires lo <= hi <= |memory|
    ensures memory[lo..hi][..Min(len, hi - lo)] == memory[lo..lo + Min(len, hi - lo)]
  {
  }

  /** Each step of a run returns what the arena says. */
  ghost predicate Returns(a: Arena, ops: seq<Op>, results: seq<Result>)
    requires a.Shape()
  {
    |results| == |ops| && forall n :: 0 <= n < |ops| ==> results[n] == ResultOf(Replay(a, ops[..n]), ops[n])
  }

  lemma ReturnsNext(a: Arena, ops: seq<Op>, results: seq<Result>, op: Op)
    requires a.Shape() && Returns(a, ops, results)
    ensures Replay(a, ops + [op]) == Step(Replay(a, ops), op)
    ensures Returns(a, ops + [op], results + [ResultOf(Replay(a, ops), op)])
  {
    var ops', results' := ops + [op], results + [ResultOf(Replay(a, ops), op)];
    assert ops'[..|ops|] == ops;
    forall n | 0 <= n < |ops'| ensures results'[n] == ResultOf(Replay(a, ops'[..n]), ops'[n]) {
      if n < |ops| {
        assert ops'[..n] == ops[..n];
      }
    }
  }

  /** Every run over one buffer and its spans, from any valid state: the classes end in the replayed arena and
      return what it returns, so `ReplaySound` and `ReplaySurvives` speak of them. */
  method RunSpans(table: SpanTable, ops: seq<Op>) returns (results: seq<Result>)
    requires table.Valid()
    modifies table, table.chunk, table.buffer, table.chunk.data
    ensures table.Valid() && table.State() == Replay(old(table.State()), ops)
    ensures Returns(old(table.State()), ops, results)
    ensures forall k :: k in old(table.spans) && old(table.spans)[k].Live? && (forall i :: 0 <= i < |ops| ==>
        !Touches(ops[i], k)) ==>
      k in table.spans && table.spans[k] == old(table.spans)[k] && SameBytes(old(table.State()), table.State(), k)
  {
    ghost var a := table.State();
    results := [];
    for n := 0 to |ops|
      invariant table.Valid() && table.State() == Replay(a, ops[..n]) && Returns(a, ops[..n], results)
    {
      ReturnsNext(a, ops[..n], results, ops[n]);
      assert ops[..n + 1] == ops[..n] + [ops[n]];
      var result := Apply(table, ops[n]);
      results := results + [result];
    }
    assert ops[..|ops|] == ops;
    forall k | k in a.spans && a.spans[k].Live? && forall i :: 0 <= i < |ops| ==> !Touches(ops[i], k)
      ensures k in table.spans && table.spans[k] == a.spans[k] && SameBytes(a, table.State(), k)
    {
      ReplaySurvives(a, ops, k);
    }
  }

  /** The bytes under span `k` of `a` are the same in `b`. */
  predicate SameBytes(a: Arena, b: Arena, k: nat) {
    && k in a.spans && a.spans[k].Live? && a.spans[k].start <= a.spans[k].end <= |a.memory| == |b.memory|
    && b.memory[a.spans[k].start..a.spans[k].end] == a.memory[a.spans[k].start..a.spans[k].end]
  }
}
