/** Staged decoding over a buffer: a fast path on one contiguous chunk and a slow path across chunks, both
    meeting one contract stated on the flattened bytes. */
module DecodeWrapper {
  import opened Common
  import opened Varint
  import opened MultiBlock

  /** The visitor of `ReadNotMovePt`: gather `[from, from + n)` chunk by chunk. */
  method CopyWindow(chunks: seq<ChunkState>, from: nat, n: nat) returns (data: seq<byte>)
    requires AllOk(chunks) && from + n <= |Content(chunks)|
    ensures data == Content(chunks)[from..from + n]
  {
    data := [];
    var currentOffset := 0;
    for i := 0 to |chunks|
      invariant currentOffset == |Content(chunks[..i])|
      invariant data == Content(chunks)[from..Clamp(currentOffset, from, from + n)]
    {
      ContentLength(chunks, i);
      var chunkStart, chunkEnd := currentOffset, currentOffset + chunks[i].Readable();
      currentOffset := chunkEnd;
      if chunkEnd <= from {
        continue;
      }
      if chunkStart >= from + n {
        break;
      }
      var overlapStart := if chunkStart < from then from else chunkStart;
      var overlapEnd := Min(chunkEnd, from + n);
      data := CopyOverlap(chunks, i, from, chunkStart, overlapStart, overlapEnd, data);
      if |data| >= n {
        break;
      }
    }
    assert chunks[..|chunks|] == chunks;
  }

  lemma ContentLength(chunks: seq<ChunkState>, i: nat)
    requires AllOk(chunks) && i < |chunks|
    ensures |Content(chunks[..i + 1])| == |Content(chunks[..i])| + chunks[i].Readable() <= |Content(chunks)|
  {
    ContentNext(chunks, i);
  }

  /** Extend the window from `lo` to `hi`, both inside chunk `i`. */
  method CopyOverlap(chunks: seq<ChunkState>, i: nat, from: nat, chunkStart: nat, lo: nat, hi: nat,
                     data: seq<byte>)
    returns (data': seq<byte>)
    requires AllOk(chunks) && i < |chunks| && from <= lo <= hi <= |Content(chunks)|
    requires |Content(chunks[..i])| == chunkStart <= lo && hi <= chunkStart + chunks[i].Readable()
    requires data == Content(chunks)[from..lo]
    ensures data' == Content(chunks)[from..hi]
  {
    ContentNext(chunks, i);
    ghost var before := Content(chunks[..i]);
    WindowStep(Content(chunks), before, chunks[i].Bytes(), from, lo, hi);
    data' := data + chunks[i].Bytes()[lo - chunkStart..hi - chunkStart];
  }

  function Clamp(x: nat, lo: nat, hi: nat): nat
    requires lo <= hi
  {
    if x < lo then lo else if x > hi then hi else x
  }

  lemma WindowStep(content: seq<byte>, before: seq<byte>, bytes: seq<byte>, from: nat, lo: nat, hi: nat)
    requires before + bytes <= content && from <= lo <= hi && |before| <= lo && hi <= |before| + |bytes|
    ensures content[from..lo] + bytes[lo - |before|..hi - |before|] == content[from..hi]
  {
  }

  /** A reader over a buffer that stages its progress as an offset. */
  class BufferReader {
    const buffer: MultiBlockBuffer
    var readOffset: nat

    ghost predicate Valid()
      reads this, buffer
    {
      buffer.Valid() && |buffer.Data()| < UINT32 && readOffset <= |buffer.Data()|
    }

    /** The bytes past the staged offset. */
    ghost function Ahead(): seq<byte>
      requires Valid()
      reads this, buffer
    {
      From(buffer.Data(), readOffset)
    }

    constructor (buffer: MultiBlockBuffer)
      requires buffer.Valid() && |buffer.Data()| < UINT32
      ensures Valid() && this.buffer == buffer && readOffset == 0
    {
      this.buffer := buffer;
      readOffset := 0;
    }

    method GetDataLength() returns (n: nat)
      requires Valid()
      ensures n == |Ahead()|
    {
      var available := buffer.GetDataLength();
      n := if available <= readOffset then 0 else available - readOffset;
    }

    method ReadNotMovePt(len: nat) returns (data: seq<byte>)
      requires Valid()
      ensures data == Ahead()[..Min(len, |Ahead()|)]
    {
      var available := buffer.GetDataLength();
      if available <= readOffset {
        return [];
      }
      var toRead := Min(len, available - readOffset);
      if toRead == 0 {
        return [];
      }
      data := CopyWindow(buffer.chunks, readOffset, toRead);
      FromTake(buffer.Data(), readOffset, toRead);
    }

    method MoveReadPt(len: nat) returns (moved: nat)
      requires Valid()
      modifies this
      ensures Valid() && moved == Min(len, |old(Ahead())|) && readOffset == old(readOffset) + moved
    {
      var available := buffer.GetDataLength();
      if available <= readOffset {
        return 0;
      }
      moved := Min(len, available - readOffset);
      readOffset := readOffset + moved;
    }

    method Read(len: nat) returns (data: seq<byte>)
      requires Valid()
      modifies this
      ensures Valid() && data == old(Ahead())[..Min(len, |old(Ahead())|)] && readOffset == old(readOffset) + |data|
    {
      data := ReadNotMovePt(len);
      if |data| > 0 {
        readOffset := readOffset + |data|;
      }
    }

    /** Commit the staged offset to the buffer. */
    method Sync()
      requires Valid()
      modifies this, buffer
      ensures Valid() && readOffset == 0 && buffer.Data() == old(Ahead())
    {
      if readOffset == 0 {
        return;
      }
      var _ := buffer.MoveReadPt(readOffset);
      readOffset := 0;
    }

    method Reset()
      requires Valid()
      modifies this
      ensures Valid() && readOffset == 0
    {
      readOffset := 0;
    }
  }

  /** The value as stored: the 32-bit form keeps the low 32 bits, which is the value if that fits. */
  function Narrowed(v: nat, narrow: bool): (r: nat)
    ensures !narrow || v < UINT32 ==> r == v
    ensures narrow ==> r < UINT32 && exists q: nat :: v == UINT32 * q + r
  {
    assert v == UINT32 * (v / UINT32) + v % UINT32;
    if narrow then v % UINT32 else v
  }

  /** A successful decode of `d.len` bytes is staged and unflushed; a failed one changes nothing. */
  predicate Stages(d: Option<Decoded>, before: nat, after: nat, flushed: bool, flushed': bool) {
    match d
    case None => after == before && flushed' == flushed
    case Some(v) => after == before + v.len && !flushed'
  }

  class BufferDecodeWrapper {
    const buffer: MultiBlockBuffer
    const contiguous: bool
    const reader: BufferReader
    /** The fast path's pointers are null: there was nothing readable at construction. */
    const void: bool
    var flushed: bool
    /** The bytes between `start_` and `end_`, and the distance of `pos_` from `start_`. */
    var span: seq<byte>
    var pos: nat

    ghost predicate Valid()
      reads this, reader, buffer
    {
      && buffer.Valid() && |buffer.Data()| < UINT32
      && reader.buffer == buffer && reader.Valid()
      && (contiguous ==> reader.readOffset == 0 && pos <= |span| && buffer.Data() == span)
      && (void ==> contiguous && span == [])
    }

    /** Bytes consumed since construction or the last flush. */
    ghost function Staged(): (n: nat)
      requires Valid()
      reads this, reader, buffer
      ensures n <= |buffer.Data()|
    {
      if contiguous then pos else reader.readOffset
    }

    ghost function Here(): View
      requires Valid()
      reads this, reader, buffer
    {
      View(buffer.Data(), Staged(), flushed, contiguous, void)
    }

    /** The flattened bytes not yet decoded. */
    ghost function Pending(): seq<byte>
      requires Valid()
      reads this, reader, buffer
    {
      From(buffer.Data(), Staged())
    }

    constructor (buffer: MultiBlockBuffer)
      requires buffer.Valid() && |buffer.Data()| < UINT32
      ensures Valid() && fresh(reader) && this.buffer == buffer && Staged() == 0 && !flushed
      ensures contiguous == (|buffer.chunks| <= 1) && void == (contiguous && buffer.Data() == [])
    {
      this.buffer := buffer;
      contiguous := |buffer.chunks| <= 1;
      reader := new BufferReader(buffer);
      flushed := false;
      span := if buffer.chunks == [] then [] else buffer.chunks[0].Bytes();
      void := |buffer.chunks| <= 1 && (buffer.chunks == [] || buffer.chunks[0].Readable() == 0);
      pos := 0;
      new;
      if contiguous && buffer.chunks != [] {
        ContentCons(buffer.chunks[0], []);
        assert buffer.chunks == [buffer.chunks[0]] + [];
        assert Content(buffer.chunks) == span + [] == span;
      }
    }

    /** `narrow` is the 32-bit instantiation of the template. */
    method DecodeVarint(narrow: bool) returns (r: Option<nat>)
      requires Valid()
      modifies this, reader
      ensures Valid() && Stages(Decode(old(Pending())), old(Staged()), Staged(), old(flushed), flushed)
      ensures r == match Decode(old(Pending())) case None => None case Some(d) => Some(Narrowed(d.value, narrow))
    {
      if contiguous {
        r := DecodeFast();
      } else {
        r := DecodeSlow();
      }
      if r.Some? {
        r := Some(Narrowed(r.value, narrow));
      }
    }

    method DecodeFast() returns (r: Option<nat>)
      requires Valid() && contiguous
      modifies this
      ensures Valid() && Stages(Decode(old(Pending())), old(Staged()), Staged(), old(flushed), flushed)
      ensures r == match Decode(old(Pending())) case None => None case Some(d) => Some(d.value)
    {
      FromTake(span, pos, 0);
      var d := Varint.DecodeVarint(span, pos, |span|);
      if d.None? {
        return None;
      }
      flushed := false;
      pos := pos + d.value.len;
      return Some(d.value.value);
    }

    /** At most eight bytes are gathered across chunks and decoded. */
    method DecodeSlow() returns (r: Option<nat>)
      requires Valid() && !contiguous
      modifies this, reader
      ensures Valid() && Stages(Decode(old(Pending())), old(Staged()), Staged(), old(flushed), flushed)
      ensures r == match Decode(old(Pending())) case None => None case Some(d) => Some(d.value)
    {
      var available := reader.GetDataLength();
      if available == 0 {
        return None;
      }
      var toRead := if available > 8 then 8 else available;
      var buf := reader.ReadNotMovePt(toRead);
      DecodePrefix(reader.Ahead(), toRead);
      var d := Varint.DecodeVarint(buf, 0, |buf|);
      assert buf[0..|buf|] == buf;
      if d.None? {
        return None;
      }
      var _ := reader.MoveReadPt(d.value.len);
      flushed := false;
      return Some(d.value.value);
    }

    /** `DecodeFixedUint8`, `16`, `32` and `64` with `n` = 1, 2, 4, 8. */
    method DecodeFixedUint(n: nat) returns (r: Option<nat>)
      requires Valid() && n in {1, 2, 4, 8}
      modifies this, reader
      ensures Valid() && Stages(DecodeFixed(old(Pending()), n), old(Staged()), Staged(), old(flushed), flushed)
      ensures r == match DecodeFixed(old(Pending()), n) case None => None case Some(d) => Some(d.value)
    {
      if contiguous {
        if pos + n > |span| {
          return None;
        }
        r := Some(FromBigEndian(span[pos..pos + n]));
        FromTake(span, pos, n);
        flushed := false;
        pos := pos + n;
        return;
      }
      var buf := reader.ReadNotMovePt(n);
      if |buf| < n {
        return None;
      }
      r := Some(FromBigEndian(buf));
      var _ := reader.MoveReadPt(n);
      flushed := false;
    }

    /** Unlike the other decoders, a failure across chunks consumes everything that was left; and null pointers
        refuse even zero bytes. */
    method DecodeBytes(len: nat) returns (r: Option<seq<byte>>)
      requires Valid()
      modifies this, reader
      ensures Valid()
      ensures r == if len <= |old(Pending())| && !void then Some(old(Pending())[..len]) else None
      ensures Staged() == old(Staged()) + (if r.Some? then len else if contiguous then 0 else |old(Pending())|)
      ensures flushed == (r.None? && old(flushed))
    {
      if contiguous {
        if void || |span| - pos < len {
          return None;
        }
        FromTake(span, pos, len);
        r := Some(span[pos..pos + len]);
        flushed := false;
        pos := pos + len;
        return;
      }
      var data := reader.Read(len);
      if |data| < len {
        return None;
      }
      flushed := false;
      return Some(data);
    }

    /** Commit the staged bytes: the buffer now starts where decoding has got to. */
    method Flush()
      requires Valid()
      modifies this, reader, buffer
      ensures Valid() && flushed && Staged() == 0 && buffer.Data() == old(Pending())
    {
      flushed := true;
      if contiguous {
        var _ := buffer.MoveReadPt(pos);
        span, pos := From(span, pos), 0;
      } else {
        reader.Sync();
      }
    }

    /** Drop the staged bytes; the buffer is not written. */
    method CancelDecode()
      requires Valid()
      modifies this, reader
      ensures Valid() && flushed && Staged() == 0
    {
      flushed := true;
      if contiguous {
        pos := 0;
      } else {
        reader.Reset();
      }
    }

    /** The destructor: commit unless the last thing done was a flush or a cancel. */
    method Close()
      requires Valid()
      modifies this, reader, buffer
      ensures Valid()
      ensures buffer.Data() == if old(flushed) then old(buffer.Data()) else old(Pending())
    {
      if !flushed {
        Flush();
      }
    }
  }

  /** A wrapper and its buffer, flattened: the buffer's bytes, how many of them are decoded but not committed, and
      which path the wrapper is on. */
  datatype View = View(data: seq<byte>, staged: nat, flushed: bool, fast: bool, void: bool) {
    predicate Ok() {
      staged <= |data| && (void ==> fast && data == [])
    }

    function Pending(): seq<byte>
      requires Ok()
    {
      From(data, staged)
    }

    /** Same bytes, same progress, perhaps another path. */
    predicate Like(other: View) {
      data == other.data && staged == other.staged && flushed == other.flushed
    }
  }

  datatype DecodeOp = Variable(narrow: bool) | Fixed(width: nat) | Bytes(len: nat) | Flush | Cancel

  datatype Outcome = Failed | Number(value: nat) | Copied(bytes: seq<byte>) | Done

  predicate Allowed(op: DecodeOp) {
    op.Fixed? ==> op.width in {1, 2, 4, 8}
  }

  /** The number a step decodes from the flattened bytes, if it decodes one. */
  function Numeric(op: DecodeOp, pending: seq<byte>): (d: Option<Decoded>)
    ensures d.Some? ==> d.value.len <= |pending|
  {
    match op
    case Variable(narrow) =>
      var d := Decode(pending);
      if d.None? then None else Some(Decoded(Narrowed(d.value.value, narrow), d.value.len))
    case Fixed(n) => DecodeFixed(pending, n)
    case _ => None
  }

  function StepView(v: View, op: DecodeOp): (r: View)
    requires v.Ok()
    ensures r.Ok() && r.fast == v.fast && r.void == v.void
  {
    match op
    case Bytes(len) =>
      if len <= |v.Pending()| && !v.void then v.(staged := v.staged + len, flushed := false)
      else if v.fast then v
      else v.(staged := |v.data|)
    case Flush => v.(data := v.Pending(), staged := 0, flushed := true)
    case Cancel => v.(staged := 0, flushed := true)
    case _ =>
      var d := Numeric(op, v.Pending());
      if d.None? then v else v.(staged := v.staged + d.value.len, flushed := false)
  }

  function OutcomeOf(v: View, op: DecodeOp): Outcome
    requires v.Ok()
  {
    match op
    case Bytes(len) => if len <= |v.Pending()| && !v.void then Copied(v.Pending()[..len]) else Failed
    case Flush => Done
    case Cancel => Done
    case _ =>
      var d := Numeric(op, v.Pending());
      if d.None? then Failed else Number(d.value.value)
  }

  function After(v: View, ops: seq<DecodeOp>): (r: View)
    requires v.Ok()
    ensures r.Ok() && r.fast == v.fast && r.void == v.void
  {
    if ops == [] then v else StepView(After(v, ops[..|ops| - 1]), ops[|ops| - 1])
  }

  /** What the destructor leaves in the buffer. */
  function Closed(v: View): seq<byte>
    requires v.Ok()
  {
    if v.flushed then v.data else v.Pending()
  }

  /** Without a flush nothing reaches the buffer, however much is decoded or cancelled. */
  lemma {:induction false} NothingBeforeFlush(v: View, ops: seq<DecodeOp>)
    requires v.Ok() && forall i :: 0 <= i < |ops| ==> !ops[i].Flush?
    ensures After(v, ops).data == v.data
  {
    if ops != [] {
      NothingBeforeFlush(v, ops[..|ops| - 1]);
    }
  }

  /** A cancel undoes everything since the last flush: the wrapper is where cancelling at once would have put it. */
  lemma {:induction false} CancelUndoes(v: View, ops: seq<DecodeOp>)
    requires v.Ok() && forall i :: 0 <= i < |ops| ==> !ops[i].Flush?
    ensures After(v, ops + [Cancel]) == StepView(v, Cancel)
    ensures Closed(After(v, ops + [Cancel])) == v.data
  {
    NothingBeforeFlush(v, ops);
    assert (ops + [Cancel])[..|ops|] == ops;
  }

  /** A flush commits exactly what has been decoded and not cancelled. */
  lemma {:induction false} FlushCommits(v: View, ops: seq<DecodeOp>)
    requires v.Ok() && forall i :: 0 <= i < |ops| ==> !ops[i].Flush?
    ensures var staged := After(v, ops).staged;
      staged <= |v.data| && After(v, ops + [Flush]) == v.(data := From(v.data, staged), staged := 0, flushed := true)
  {
    NothingBeforeFlush(v, ops);
    assert (ops + [Flush])[..|ops|] == ops;
  }

  /** Without byte decodes the two paths never differ, flushes and cancels included. */
  lemma {:induction false} PathsAgree(v: View, w: View, ops: seq<DecodeOp>)
    requires v.Ok() && w.Ok() && v.Like(w) && forall i :: 0 <= i < |ops| ==> !ops[i].Bytes?
    ensures After(v, ops).Like(After(w, ops))
  {
    if ops != [] {
      PathsAgree(v, w, ops[..|ops| - 1]);
    }
  }

  /** For a byte decode the paths agree on outcome and progress exactly when enough is left and the pointers are
      not null, or nothing is left and something is asked for. */
  lemma BytesAgreeIff(v: View, w: View, len: nat)
    requires v.Ok() && w.Ok() && v.Like(w) && v.fast && !w.fast
    ensures OutcomeOf(v, Bytes(len)) == OutcomeOf(w, Bytes(len))
        && StepView(v, Bytes(len)).Like(StepView(w, Bytes(len)))
       <==> if len <= |v.Pending()| then !v.void else v.Pending() == []
  {
    if len <= |v.Pending()| {
      assert OutcomeOf(w, Bytes(len)).Copied?;
    } else {
      assert StepView(w, Bytes(len)).staged == |w.data|;
    }
  }

  /** Zero bytes of an empty buffer: refused by null pointers, granted across chunks. */
  lemma ZeroBytesWitness()
    ensures OutcomeOf(View([], 0, false, true, true), Bytes(0)) == Failed
    ensures OutcomeOf(View([], 0, false, false, false), Bytes(0)) == Copied([])
  {
  }

  /** One step of a wrapper is one step of its view. */
  method Perform(wrapper: BufferDecodeWrapper, op: DecodeOp) returns (outcome: Outcome)
    requires wrapper.Valid() && Allowed(op)
    modifies wrapper, wrapper.reader, wrapper.buffer
    ensures wrapper.Valid() && wrapper.Here() == StepView(old(wrapper.Here()), op)
    ensures outcome == OutcomeOf(old(wrapper.Here()), op)
  {
    match op {
      case Bytes(len) => outcome := PerformBytes(wrapper, len);
      case Flush => wrapper.Flush(); outcome := Done;
      case Cancel => wrapper.CancelDecode(); outcome := Done;
      case _ => outcome := PerformNumeric(wrapper, op);
    }
  }

  method PerformNumeric(wrapper: BufferDecodeWrapper, op: DecodeOp) returns (outcome: Outcome)
    requires wrapper.Valid() && Allowed(op) && (op.Variable? || op.Fixed?)
    modifies wrapper, wrapper.reader
    ensures wrapper.Valid() && wrapper.Here() == StepView(old(wrapper.Here()), op)
    ensures outcome == OutcomeOf(old(wrapper.Here()), op)
  {
    var r;
    match op {
      case Variable(narrow) => r := wrapper.DecodeVarint(narrow);
      case Fixed(n) => r := wrapper.DecodeFixedUint(n);
    }
    outcome := if r.None? then Failed else Number(r.value);
  }

  method PerformBytes(wrapper: BufferDecodeWrapper, len: nat) returns (outcome: Outcome)
    requires wrapper.Valid()
    modifies wrapper, wrapper.reader
    ensures wrapper.Valid() && wrapper.Here() == StepView(old(wrapper.Here()), Bytes(len))
    ensures outcome == OutcomeOf(old(wrapper.Here()), Bytes(len))
  {
    var r := wrapper.DecodeBytes(len);
    outcome := if r.None? then Failed else Copied(r.value);
  }

  /** The outcomes of a run, step by step, are those of the view. */
  ghost predicate Follows(v: View, ops: seq<DecodeOp>, outcomes: seq<Outcome>)
    requires v.Ok()
  {
    |outcomes| == |ops| && forall n :: 0 <= n < |ops| ==> outcomes[n] == OutcomeOf(After(v, ops[..n]), ops[n])
  }

  lemma FollowsNext(v: View, ops: seq<DecodeOp>, outcomes: seq<Outcome>, op: DecodeOp)
    requires v.Ok() && Follows(v, ops, outcomes)
    ensures After(v, ops + [op]) == StepView(After(v, ops), op)
    ensures Follows(v, ops + [op], outcomes + [OutcomeOf(After(v, ops), op)])
  {
    var ops' := ops + [op];
    assert ops'[..|ops|] == ops;
    assert forall n :: 0 <= n < |ops| ==> ops'[..n] == ops[..n] && ops'[n] == ops[n];
  }

  /** Any sequence of decodes, flushes and cancels through a wrapper. */
  method RunScript(wrapper: BufferDecodeWrapper, ops: seq<DecodeOp>) returns (outcomes: seq<Outcome>)
    requires wrapper.Valid() && forall i :: 0 <= i < |ops| ==> Allowed(ops[i])
    modifies wrapper, wrapper.reader, wrapper.buffer
    ensures wrapper.Valid() && wrapper.Here() == After(old(wrapper.Here()), ops)
    ensures Follows(old(wrapper.Here()), ops, outcomes)
  {
    outcomes := [];
    ghost var v := wrapper.Here();
    for n := 0 to |ops|
      invariant wrapper.Valid() && wrapper.Here() == After(v, ops[..n]) && Follows(v, ops[..n], outcomes)
    {
      FollowsNext(v, ops[..n], outcomes, ops[n]);
      assert ops[..n + 1] == ops[..n] + [ops[n]];
      var outcome := Perform(wrapper, ops[n]);
      outcomes := outcomes + [outcome];
    }
    assert ops[..|ops|] == ops;
  }

  /** A wrapper's whole life on a buffer, from construction to destruction. */
  method RunWrapper(buffer: MultiBlockBuffer, ops: seq<DecodeOp>) returns (outcomes: seq<Outcome>)
    requires buffer.Valid() && |buffer.Data()| < UINT32 && forall i :: 0 <= i < |ops| ==> Allowed(ops[i])
    modifies buffer
    ensures buffer.Valid() && Follows(old(Opened(buffer)), ops, outcomes)
    ensures buffer.Data() == Closed(After(old(Opened(buffer)), ops))
  {
    var wrapper := new BufferDecodeWrapper(buffer);
    assert wrapper.Here() == Opened(buffer);
    outcomes := RunScript(wrapper, ops);
    wrapper.Close();
  }

  ghost function Opened(buffer: MultiBlockBuffer): (v: View)
    requires buffer.Valid()
    reads buffer
    ensures v.Ok()
  {
    var fast := |buffer.chunks| <= 1;
    View(buffer.Data(), 0, false, fast, fast && buffer.Data() == [])
  }

  /** Two buffers with the same bytes, however these are cut into chunks: every sequence of varint and fixed-width
      decodes, flushes and cancels has the same outcomes and leaves the same bytes. */
  method SegmentationIrrelevant(a: MultiBlockBuffer, b: MultiBlockBuffer, ops: seq<DecodeOp>)
    returns (ra: seq<Outcome>, rb: seq<Outcome>)
    requires a != b && a.Valid() && b.Valid() && a.Data() == b.Data() && |a.Data()| < UINT32
    requires forall i :: 0 <= i < |ops| ==> Allowed(ops[i]) && !ops[i].Bytes?
    modifies a, b
    ensures a.Valid() && b.Valid() && a.Data() == b.Data() && ra == rb && Follows(old(Opened(a)), ops, ra)
    ensures a.Data() == Closed(After(old(Opened(a)), ops))
  {
    ghost var v, w := Opened(a), Opened(b);
    ra := RunWrapper(a, ops);
    rb := RunWrapper(b, ops);
    forall n | 0 <= n < |ops| ensures ra[n] == rb[n] {
      PathsAgree(v, w, ops[..n]);
    }
    PathsAgree(v, w, ops);
  }

  /** One number as a sender encodes it. A receiver may read a varint that fits into 32 bits. */
  datatype Item = Var(v: nat, narrow: bool) | Fix(v: nat, width: nat)

  predicate ItemOk(item: Item) {
    match item
    case Var(v, narrow) => v <= MAX_VARINT && (narrow ==> v < UINT32)
    case Fix(v, n) => n in {1, 2, 4, 8} && v < Pow256(n)
  }

  predicate ItemsOk(items: seq<Item>) {
    forall i :: 0 <= i < |items| ==> ItemOk(items[i])
  }

  function ItemBytes(item: Item): seq<byte>
    requires ItemOk(item)
  {
    match item
    case Var(v, _) => Encoded(v)
    case Fix(v, n) => BigEndian(v, n)
  }

  function ItemOp(item: Item): DecodeOp {
    match item
    case Var(_, narrow) => Variable(narrow)
    case Fix(_, n) => Fixed(n)
  }

  function AllBytes(items: seq<Item>): seq<byte>
    requires ItemsOk(items)
  {
    if items == [] then [] else ItemBytes(items[0]) + AllBytes(items[1..])
  }

  function ItemOps(items: seq<Item>): (ops: seq<DecodeOp>)
    ensures |ops| == |items| && forall i :: 0 <= i < |items| ==> ops[i] == ItemOp(items[i])
  {
    seq(|items|, i requires 0 <= i < |items| => ItemOp(items[i]))
  }

  /** The matching decode of one encoded number gives it back and leaves the rest. */
  lemma {:induction false} DecodeFirst(v: View, item: Item, rest: seq<byte>)
    requires v.Ok() && ItemOk(item) && v.Pending() == ItemBytes(item) + rest
    ensures OutcomeOf(v, ItemOp(item)) == Number(item.v)
    ensures StepView(v, ItemOp(item)).Pending() == rest && !StepView(v, ItemOp(item)).flushed
  {
    NumericFirst(item, rest);
    StageNumber(v, ItemOp(item), item.v, |ItemBytes(item)|);
    Cut(ItemBytes(item), rest);
  }

  lemma {:induction false} NumericFirst(item: Item, rest: seq<byte>)
    requires ItemOk(item)
    ensures Numeric(ItemOp(item), ItemBytes(item) + rest) == Some(Decoded(item.v, |ItemBytes(item)|))
  {
    match item
    case Var(x, _) => DecodeEncoded(x, rest);
    case Fix(x, n) => DecodeFixedEncoded(x, n, rest);
  }

  lemma {:induction false} StageNumber(v: View, op: DecodeOp, x: nat, len: nat)
    requires v.Ok() && (op.Variable? || op.Fixed?) && Numeric(op, v.Pending()) == Some(Decoded(x, len))
    ensures OutcomeOf(v, op) == Number(x) && !StepView(v, op).flushed
    ensures len <= |v.Pending()| && StepView(v, op).Pending() == v.Pending()[len..]
  {
  }

  lemma {:induction false} FirstOf(v: View, items: seq<Item>, suffix: seq<byte>, n: nat)
    requires v.Ok() && n < |items| && ItemsOk(items) && v.Pending() == AllBytes(items[n..]) + suffix
    ensures OutcomeOf(v, ItemOp(items[n])) == Number(items[n].v)
    ensures StepView(v, ItemOp(items[n])).Pending() == AllBytes(items[n + 1..]) + suffix
    ensures !StepView(v, ItemOp(items[n])).flushed
  {
    assert items[n..][0] == items[n] && items[n..][1..] == items[n + 1..];
    Concat3(ItemBytes(items[n]), AllBytes(items[n + 1..]), suffix);
    DecodeFirst(v, items[n], AllBytes(items[n + 1..]) + suffix);
  }

  /** Decoding a concatenation of encodings, varints and fixed widths in any mix, yields the values one by one and
      leaves the suffix. */
  lemma {:induction false} AfterEncodings(v: View, items: seq<Item>, suffix: seq<byte>, n: nat)
    requires v.Ok() && n <= |items| && ItemsOk(items) && v.Pending() == AllBytes(items) + suffix
    ensures After(v, ItemOps(items)[..n]).Pending() == AllBytes(items[n..]) + suffix
    ensures !v.flushed ==> !After(v, ItemOps(items)[..n]).flushed
  {
    var ops := ItemOps(items);
    if n == 0 {
      assert items[0..] == items && ops[..0] == [];
    } else {
      AfterEncodings(v, items, suffix, n - 1);
      AfterNext(v, ops, n - 1);
      FirstOf(After(v, ops[..n - 1]), items, suffix, n - 1);
    }
  }

  lemma {:induction false} AfterNext(v: View, ops: seq<DecodeOp>, n: nat)
    requires v.Ok() && n < |ops|
    ensures After(v, ops[..n + 1]) == StepView(After(v, ops[..n]), ops[n])
  {
    assert ops[..n + 1][..n] == ops[..n];
  }

  /** End to end: numbers encoded back to back, written through chunks of any size and decoded again, all of them. */
  method EncodeWriteDecode(items: seq<Item>, blockLen: nat)
    returns (outcomes: seq<Outcome>, buffer: MultiBlockBuffer)
    requires blockLen > 0 && ItemsOk(items) && |AllBytes(items)| < UINT32
    ensures |outcomes| == |items| && forall i :: 0 <= i < |items| ==> outcomes[i] == Number(items[i].v)
    ensures fresh(buffer) && buffer.Valid() && buffer.Data() == []
  {
    buffer := new MultiBlockBuffer(blockLen);
    var bytes, ops := AllBytes(items), ItemOps(items);
    var _ := buffer.Write(bytes);
    assert [] + bytes == bytes == bytes + [];
    ghost var v := Opened(buffer);
    assert v.Pending() == bytes + [];
    outcomes := RunWrapper(buffer, ops);
    forall n | 0 <= n < |items| ensures outcomes[n] == Number(items[n].v) {
      AfterEncodings(v, items, [], n);
      FirstOf(After(v, ops[..n]), items, [], n);
    }
    AfterEncodings(v, items, [], |items|);
    assert ops[..|items|] == ops && items[|items|..] == [] && AllBytes(items[|items|..]) + [] == [];
  }
}
