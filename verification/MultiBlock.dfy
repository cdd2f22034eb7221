/** The growable byte queue over fixed-size chunks, and its read-outs. A chunk is its block of bytes with a
    read and a write position; chunks are owned by one buffer. */
module MultiBlock {
  import opened Common
  import opened Varint

  datatype ChunkState = ChunkState(block: seq<byte>, readPos: nat, writePos: nat) {
    predicate Ok() {
      readPos <= writePos <= |block|
    }

    function Readable(): nat
      requires Ok()
    {
      writePos - readPos
    }

    function Writable(): nat
      requires Ok()
    {
      |block| - writePos
    }

    function Bytes(): seq<byte>
      requires Ok()
    {
      block[readPos..writePos]
    }
  }

  predicate AllOk(chunks: seq<ChunkState>) {
    forall i :: 0 <= i < |chunks| ==> chunks[i].Ok()
  }

  /** The readable bytes, chunk after chunk. */
  function Content(chunks: seq<ChunkState>): seq<byte>
    requires AllOk(chunks)
  {
    if chunks == [] then [] else chunks[0].Bytes() + Content(chunks[1..])
  }

  lemma {:induction false} ContentAppend(chunks: seq<ChunkState>, last: ChunkState)
    requires AllOk(chunks) && last.Ok()
    ensures AllOk(chunks + [last]) && Content(chunks + [last]) == Content(chunks) + last.Bytes()
  {
    if chunks == [] {
      assert chunks + [last] == [last];
    } else {
      ContentAppend(chunks[1..], last);
      assert (chunks + [last])[1..] == chunks[1..] + [last];
    }
  }

  lemma {:induction false} SliceOfSlice(s: seq<byte>, a: nat, b: nat, n: nat)
    requires a <= b <= |s| && n <= b - a
    ensures s[a..b][..n] == s[a..a + n] && s[a..b][n..] == s[a + n..b]
    ensures s[a..a + n] + s[a + n..b] == s[a..b]
  {
  }

  /** Extending a prefix by the front of what follows it. */
  lemma {:induction false} PrefixGrows(content: seq<byte>, prefix: seq<byte>, next: seq<byte>, n: nat)
    requires prefix + next <= content && n <= |next|
    ensures prefix + next[..n] == content[..|prefix| + n]
  {
  }

  /** Advance the first chunk's read position; a drained chunk is dropped. */
  function Advanced(chunks: seq<ChunkState>, step: nat): seq<ChunkState>
    requires AllOk(chunks) && chunks != [] && step <= chunks[0].Readable()
  {
    var front := chunks[0].(readPos := chunks[0].readPos + step);
    if front.readPos >= front.writePos then chunks[1..] else [front] + chunks[1..]
  }

  lemma {:induction false} ContentCons(front: ChunkState, rest: seq<ChunkState>)
    requires front.Ok() && AllOk(rest)
    ensures AllOk([front] + rest) && Content([front] + rest) == front.Bytes() + Content(rest)
  {
  }

  /** The bytes passed over, followed by what is left, are what there was. */
  lemma {:induction false} AdvancedContent(chunks: seq<ChunkState>, step: nat)
    requires AllOk(chunks) && chunks != [] && step <= chunks[0].Readable()
    ensures AllOk(Advanced(chunks, step))
    ensures Content(chunks) == chunks[0].Bytes()[..step] + Content(Advanced(chunks, step))
  {
    var front, rest := chunks[0], chunks[1..];
    var front' := front.(readPos := front.readPos + step);
    FrontCut(front, step);
    SplitHead(front.Bytes(), Content(rest), step);
    if front'.readPos < front'.writePos {
      ContentCons(front', rest);
    }
  }

  lemma SplitHead(head: seq<byte>, tail: seq<byte>, step: nat)
    requires step <= |head|
    ensures head + tail == head[..step] + (head[step..] + tail)
    ensures step == |head| ==> head + tail == head[..step] + tail
  {
  }

  /** Advancing a chunk's read position drops the bytes passed over. */
  lemma {:induction false} FrontCut(front: ChunkState, step: nat)
    requires front.Ok() && step <= front.Readable()
    ensures front.(readPos := front.readPos + step).Bytes() == front.Bytes()[step..]
    ensures front.block[front.readPos..front.readPos + step] == front.Bytes()[..step]
  {
    SliceOfSlice(front.block, front.readPos, front.writePos, step);
  }

  lemma {:induction false} Concat3(a: seq<byte>, b: seq<byte>, c: seq<byte>)
    ensures (a + b) + c == a + (b + c)
  {
  }

  lemma {:induction false} Cut(a: seq<byte>, b: seq<byte>)
    ensures (a + b)[..|a|] == a && (a + b)[|a|..] == b
  {
  }

  /** One turn of that loop: drop an empty first chunk, or take up to `want` bytes from it. */
  method TakeFront(chunks: seq<ChunkState>, want: nat) returns (chunks': seq<ChunkState>, piece: seq<byte>)
    requires AllOk(chunks) && chunks != [] && want > 0
    ensures AllOk(chunks') && Content(chunks) == piece + Content(chunks') && |piece| <= want
    ensures |chunks'| < |chunks| || (|chunks'| == |chunks| && |piece| == want)
  {
    var front := chunks[0];
    var available := front.Readable();
    if available == 0 {
      assert front.Bytes() == [];
      return chunks[1..], [];
    }
    var step := Min(want, available);
    FrontCut(front, step);
    AdvancedContent(chunks, step);
    return Advanced(chunks, step), front.block[front.readPos..front.readPos + step];
  }

  /** The loop of `Read` and of `MoveReadPt`: drop drained chunks and advance the first one. */
  method Consume(chunks: seq<ChunkState>, total: nat, len: nat)
    returns (chunks': seq<ChunkState>, total': nat, data: seq<byte>)
    requires AllOk(chunks) && total == |Content(chunks)|
    ensures AllOk(chunks') && total' == |Content(chunks')|
    ensures data == Content(chunks)[..Min(len, total)]
    ensures Content(chunks') == Content(chunks)[Min(len, total)..]
  {
    chunks', total', data := chunks, total, [];
    while chunks' != [] && |data| < len
      invariant AllOk(chunks') && total' == |Content(chunks')| && |data| <= len
      invariant Content(chunks) == data + Content(chunks')
      decreases |chunks'|, len - |data|
    {
      var rest, piece := TakeFront(chunks', len - |data|);
      Concat3(data, piece, Content(rest));
      chunks', data, total' := rest, data + piece, total' - |piece|;
    }
    Cut(data, Content(chunks'));
  }

  /** Copy into the last chunk's free space. */
  function Filled(last: ChunkState, data: seq<byte>): (r: ChunkState)
    requires last.Ok() && |data| <= last.Writable()
    ensures r.Ok() && r.Bytes() == last.Bytes() + data && |r.block| == |last.block|
  {
    ChunkState(last.block[..last.writePos] + data + last.block[last.writePos + |data|..],
               last.readPos, last.writePos + |data|)
  }

  lemma {:induction false} FilledContent(chunks: seq<ChunkState>, data: seq<byte>)
    requires AllOk(chunks) && chunks != [] && |data| <= chunks[|chunks| - 1].Writable()
    ensures var n := |chunks| - 1; var chunks' := chunks[..n] + [Filled(chunks[n], data)];
      AllOk(chunks') && Content(chunks') == Content(chunks) + data
  {
    var n := |chunks| - 1;
    assert chunks == chunks[..n] + [chunks[n]];
    ContentAppend(chunks[..n], chunks[n]);
    ContentAppend(chunks[..n], Filled(chunks[n], data));
    assert Content(chunks[..n]) + (chunks[n].Bytes() + data) == Content(chunks[..n]) + chunks[n].Bytes() + data;
  }

  /** One fresh block at the end. */
  predicate Extends(chunks: seq<ChunkState>, chunks': seq<ChunkState>, blockLen: nat) {
    && |chunks'| == |chunks| + 1 && chunks'[..|chunks|] == chunks
    && |chunks'[|chunks|].block| == blockLen && chunks'[|chunks|].readPos == chunks'[|chunks|].writePos == 0
  }

  /** `EnsureWritableChunk`: the last chunk if it has room, else a fresh block from the pool, which grows on demand. */
  method EnsureWritableChunk(chunks: seq<ChunkState>, blockLen: nat) returns (chunks': seq<ChunkState>)
    requires AllOk(chunks) && blockLen > 0
    ensures AllOk(chunks') && Content(chunks') == Content(chunks)
    ensures chunks' != [] && chunks'[|chunks'| - 1].Writable() > 0
    ensures if chunks != [] && chunks[|chunks| - 1].Writable() > 0 then chunks' == chunks
            else Extends(chunks, chunks', blockLen)
  {
    if chunks != [] && chunks[|chunks| - 1].Writable() > 0 {
      return chunks;
    }
    var added := ChunkState(seq(blockLen, _ => 0), 0, 0);
    ContentAppend(chunks, added);
    return chunks + [added];
  }

  /** No block is taken while there is room: of the chunks from the old last one on, all but the new last are full. */
  predicate Packed(chunks: seq<ChunkState>, chunks': seq<ChunkState>) {
    && AllOk(chunks') && |chunks| <= |chunks'|
    && (forall i :: 0 <= i < |chunks| - 1 ==> chunks'[i] == chunks[i])
    && (forall i :: 0 <= i < |chunks'| - 1 && |chunks| - 1 <= i ==> chunks'[i].Writable() == 0)
  }

  /** The loop of `Write`. */
  method Append(chunks: seq<ChunkState>, total: nat, data: seq<byte>, blockLen: nat)
    returns (chunks': seq<ChunkState>, total': nat, written: nat)
    requires AllOk(chunks) && total == |Content(chunks)| && blockLen > 0
    ensures AllOk(chunks') && total' == |Content(chunks')|
    ensures written == |data| && Content(chunks') == Content(chunks) + data
    ensures Packed(chunks, chunks')
  {
    chunks', total', written := chunks, total, 0;
    while written < |data|
      invariant AllOk(chunks') && total' == |Content(chunks')|
      invariant written <= |data| && Content(chunks') == Content(chunks) + data[..written]
      invariant Packed(chunks, chunks')
      decreases |data| - written
    {
      var step;
      chunks', step := FillLast(chunks', data[written..], blockLen);
      TakeMore(Content(chunks), data, written, step);
      total' := total' + step;
      written := written + step;
    }
  }

  /** One turn of that loop: as much of `data` as the last chunk holds. */
  method FillLast(chunks: seq<ChunkState>, data: seq<byte>, blockLen: nat)
    returns (chunks': seq<ChunkState>, step: nat)
    requires AllOk(chunks) && data != [] && blockLen > 0
    ensures AllOk(chunks') && 0 < step <= |data| && Content(chunks') == Content(chunks) + data[..step]
    ensures Packed(chunks, chunks')
  {
    var ready := EnsureWritableChunk(chunks, blockLen);
    var n := |ready| - 1;
    step := Min(|data|, ready[n].Writable());
    FilledContent(ready, data[..step]);
    chunks' := ready[..n] + [Filled(ready[n], data[..step])];
  }

  lemma TakeMore(before: seq<byte>, data: seq<byte>, w: nat, step: nat)
    requires w + step <= |data|
    ensures (before + data[..w]) + data[w..][..step] == before + data[..w + step]
  {
  }

  /** Where a span's bytes live: in place in one chunk, or copied into a chunk of its own. */
  datatype Origin = InChunk(index: nat) | Standalone
  datatype Span = Span(bytes: seq<byte>, origin: Origin)

  function Joined(spans: seq<Span>): seq<byte> {
    if spans == [] then [] else Joined(spans[..|spans| - 1]) + spans[|spans| - 1].bytes
  }

  /** The span is the non-empty front of one chunk's readable region, in place. */
  predicate InPlace(span: Span, chunks: seq<ChunkState>)
    requires AllOk(chunks)
  {
    && span.origin.InChunk? && span.origin.index < |chunks|
    && span.bytes != [] && span.bytes <= chunks[span.origin.index].Bytes()
  }

  /** Chunk `k` is the first with readable bytes. */
  predicate FirstFull(chunks: seq<ChunkState>, k: nat)
    requires AllOk(chunks)
  {
    k < |chunks| && chunks[k].Readable() > 0 && forall i :: 0 <= i < k ==> chunks[i].Readable() == 0
  }

  predicate Precedes(spans: seq<Span>, i: nat, j: nat)
    requires i < |spans| && j < |spans|
  {
    spans[i].origin.InChunk? && spans[j].origin.InChunk? && spans[i].origin.index < spans[j].origin.index
  }

  /** Each span is the front of one chunk's readable region, and the chunks come in order. */
  predicate OnePerChunk(spans: seq<Span>, chunks: seq<ChunkState>)
    requires AllOk(chunks)
  {
    && (forall i {:trigger InPlace(spans[i], chunks)} :: 0 <= i < |spans| ==> InPlace(spans[i], chunks))
    && (forall i, j {:trigger Precedes(spans, i, j)} :: 0 <= i < j < |spans| ==> Precedes(spans, i, j))
  }

  lemma {:induction false} ContentNext(chunks: seq<ChunkState>, i: nat)
    requires AllOk(chunks) && i < |chunks|
    ensures Content(chunks[..i + 1]) == Content(chunks[..i]) + chunks[i].Bytes()
    ensures Content(chunks[..i + 1]) <= Content(chunks)
  {
    ContentOneMore(chunks, i);
    ContentPrefix(chunks, i + 1);
  }

  lemma {:induction false} ContentOneMore(chunks: seq<ChunkState>, i: nat)
    requires AllOk(chunks) && i < |chunks|
    ensures Content(chunks[..i + 1]) == Content(chunks[..i]) + chunks[i].Bytes()
  {
    assert chunks[..i + 1] == chunks[..i] + [chunks[i]];
    ContentAppend(chunks[..i], chunks[i]);
  }

  lemma {:induction false} ContentPrefix(chunks: seq<ChunkState>, i: nat)
    requires AllOk(chunks) && i <= |chunks|
    ensures Content(chunks[..i]) <= Content(chunks)
    decreases |chunks| - i
  {
    if i == |chunks| {
      assert chunks[..i] == chunks;
    } else {
      ContentPrefix(chunks, i + 1);
      ContentOneMore(chunks, i);
    }
  }

  class MultiBlockBuffer {
    const blockLen: nat
    var chunks: seq<ChunkState>
    var totalDataLength: nat

    ghost predicate Valid()
      reads this
    {
      blockLen > 0 && AllOk(chunks) && totalDataLength == |Content(chunks)|
    }

    ghost function Data(): seq<byte>
      requires Valid()
      reads this
    {
      Content(chunks)
    }

    constructor (blockLen: nat)
      requires blockLen > 0
      ensures Valid() && Data() == [] && this.blockLen == blockLen && chunks == []
    {
      this.blockLen := blockLen;
      chunks, totalDataLength := [], 0;
    }

    method Read(len: nat) returns (data: seq<byte>)
      requires Valid()
      modifies this
      ensures Valid()
      ensures data == old(Data())[..Min(len, |old(Data())|)] && Data() == old(Data())[Min(len, |old(Data())|)..]
    {
      chunks, totalDataLength, data := Consume(chunks, totalDataLength, len);
    }

    method MoveReadPt(len: nat) returns (moved: nat)
      requires Valid()
      modifies this
      ensures Valid()
      ensures moved == Min(len, |old(Data())|) && Data() == old(Data())[moved..]
    {
      var data;
      chunks, totalDataLength, data := Consume(chunks, totalDataLength, len);
      moved := |data|;
    }

    method Write(data: seq<byte>) returns (written: nat)
      requires Valid()
      modifies this
      ensures Valid() && written == |data| && Data() == old(Data()) + data
    {
      chunks, totalDataLength, written := Append(chunks, totalDataLength, data, blockLen);
    }

    /** 64-bit length returned through a 32-bit result. */
    method GetDataLength() returns (n: nat)
      requires Valid()
      ensures n == |Data()| % UINT32
    {
      n := totalDataLength % UINT32;
    }

    /** The first chunk with readable bytes, or `|chunks|`. */
    method FirstReadable() returns (k: nat)
      requires Valid()
      ensures k <= |chunks| && Content(chunks[..k]) == []
      ensures k == |chunks| ==> Data() == []
      ensures k < |chunks| ==> chunks[k].Readable() > 0 && chunks[k].Bytes() <= Data()
      ensures forall i :: 0 <= i < k ==> chunks[i].Readable() == 0
    {
      k := 0;
      while k < |chunks| && chunks[k].Readable() == 0
        invariant k <= |chunks| && Content(chunks[..k]) == []
        invariant forall i :: 0 <= i < k ==> chunks[i].Readable() == 0
      {
        ContentNext(chunks, k);
        k := k + 1;
      }
      if k < |chunks| {
        ContentNext(chunks, k);
      } else {
        assert chunks[..k] == chunks;
      }
    }

    method GetFirstChunkReadable(maxLength: nat) returns (span: Option<Span>)
      requires Valid()
      ensures span.None? <==> maxLength == 0 || Data() == []
      ensures span.Some? ==> InPlace(span.value, chunks)
      ensures span.Some? ==> span.value.bytes <= Data() && |span.value.bytes| <= maxLength
      ensures span.Some? && |span.value.bytes| < maxLength ==>
        span.value.bytes == chunks[span.value.origin.index].Bytes()
    {
      if maxLength == 0 {
        return None;
      }
      var k := FirstReadable();
      if k == |chunks| {
        return None;
      }
      var take := Min(chunks[k].Readable(), maxLength);
      return Some(Span(chunks[k].Bytes()[..take], InChunk(k)));
    }

    /** The first `maxLength` bytes as one span: in place when one chunk has them, else copied together. */
    method GetCoalescedReadable(maxLength: nat) returns (span: Option<Span>)
      requires Valid()
      ensures span.None? <==> maxLength == 0 || Data() == []
      ensures span.Some? ==> span.value.bytes == Data()[..Min(maxLength, |Data()|)]
      ensures span.Some? && span.value.origin.InChunk? ==> InPlace(span.value, chunks)
      ensures span.Some? ==> forall k: nat :: FirstFull(chunks, k) ==>
        (span.value.origin.Standalone? <==> chunks[k].Readable() < Min(maxLength, |Data()|))
    {
      if maxLength == 0 || chunks == [] || totalDataLength == 0 {
        return None;
      }
      var k := FirstReadable();
      if k == |chunks| {
        return None;
      }
      var firstReadable := chunks[k].Readable();
      assert firstReadable <= |Data()| && forall j: nat :: FirstFull(chunks, j) ==> j == k;
      if firstReadable >= maxLength {
        return Some(Span(chunks[k].Bytes()[..maxLength], InChunk(k)));
      }
      if firstReadable >= totalDataLength {
        return Some(Span(chunks[k].Bytes(), InChunk(k)));
      }
      var take := Min(maxLength, totalDataLength);
      var copied := CopyPrefix(chunks, k, take);
      return Some(Span(copied, Standalone));
    }

    /** The first `length` bytes (0: all, at most 2^32 - 1) as in-place spans, one per chunk touched. */
    method GetSharedReadableSpans(length: nat) returns (spans: seq<Span>)
      requires Valid()
      ensures OnePerChunk(spans, chunks)
      ensures var available := Min(|Data()|, UINT32 - 1);
        Joined(spans) == Data()[..if length == 0 then available else Min(length, available)]
    {
      var available := Min(totalDataLength, UINT32 - 1);
      var want := if length == 0 then available else Min(length, available);
      spans := Slices(chunks, want);
    }

    /** A second buffer over the first `length` bytes; optionally this one moves past them. */
    method CloneReadable(length: nat, move: bool) returns (clone: MultiBlockBuffer?)
      requires Valid()
      modifies this
      ensures Valid()
      ensures clone == null <==> |old(Data())| % UINT32 < length
      ensures clone == null ==> Data() == old(Data())
      ensures clone != null ==> fresh(clone) && clone.Valid() && clone.Data() == old(Data())[..length]
      ensures clone != null ==> Data() == if move then old(Data())[length..] else old(Data())
    {
      if totalDataLength % UINT32 < length {
        return null;
      }
      var states := Prefix(chunks, length);
      clone := new MultiBlockBuffer(blockLen);
      clone.chunks, clone.totalDataLength := states, length;
      if move {
        var _ := MoveReadPt(length);
      }
    }
  }

  /** `prefix` is the front of the content, as far as the first `i` chunks give `want` bytes. */
  ghost predicate Covers(chunks: seq<ChunkState>, i: nat, want: nat, prefix: seq<byte>)
    requires AllOk(chunks) && i <= |chunks|
  {
    && |prefix| <= want <= |Content(chunks)| && prefix == Content(chunks)[..|prefix|]
    && (|prefix| < want ==> prefix == Content(chunks[..i]))
  }

  /** The next chunk's share of the prefix. */
  lemma {:induction false} CoversNext(chunks: seq<ChunkState>, i: nat, want: nat, prefix: seq<byte>)
    requires AllOk(chunks) && i < |chunks| && Covers(chunks, i, want, prefix) && |prefix| < want
    ensures var piece := Min(chunks[i].Readable(), want - |prefix|);
      Covers(chunks, i + 1, want, prefix + chunks[i].Bytes()[..piece])
  {
    var piece := Min(chunks[i].Readable(), want - |prefix|);
    ContentNext(chunks, i);
    PrefixGrows(Content(chunks), prefix, chunks[i].Bytes(), piece);
    if piece == chunks[i].Readable() {
      assert chunks[i].Bytes()[..piece] == chunks[i].Bytes();
    }
  }

  lemma {:induction false} CoversAll(chunks: seq<ChunkState>, want: nat, prefix: seq<byte>)
    requires AllOk(chunks) && Covers(chunks, |chunks|, want, prefix)
    ensures prefix == Content(chunks)[..want]
  {
    assert chunks[..|chunks|] == chunks;
  }

  /** The copy loop of `GetCoalescedReadable`, from the first readable chunk on. */
  method CopyPrefix(chunks: seq<ChunkState>, k: nat, take: nat) returns (copied: seq<byte>)
    requires AllOk(chunks) && k <= |chunks| && Content(chunks[..k]) == [] && take <= |Content(chunks)|
    ensures copied == Content(chunks)[..take]
  {
    copied := [];
    var i := k;
    while i < |chunks| && |copied| < take
      invariant k <= i <= |chunks| && Covers(chunks, i, take, copied)
    {
      CoversNext(chunks, i, take, copied);
      var piece := Min(chunks[i].Readable(), take - |copied|);
      copied := copied + chunks[i].Bytes()[..piece];
      i := i + 1;
    }
    if i == |chunks| {
      CoversAll(chunks, take, copied);
    }
  }

  /** The loop of `GetSharedReadableSpans`. */
  method Slices(chunks: seq<ChunkState>, want: nat) returns (spans: seq<Span>)
    requires AllOk(chunks) && want <= |Content(chunks)|
    ensures OnePerChunk(spans, chunks) && Joined(spans) == Content(chunks)[..want]
  {
    spans := [];
    var remaining: nat := want;
    for i := 0 to |chunks|
      invariant remaining + |Joined(spans)| == want && Gathered(spans, chunks, i, want)
    {
      if remaining == 0 {
        return;
      }
      CoversNext(chunks, i, want, Joined(spans));
      var readable := chunks[i].Readable();
      if readable > 0 {
        var take := Min(readable, remaining);
        SpanNext(spans, chunks, Span(chunks[i].Bytes()[..take], InChunk(i)));
        spans := spans + [Span(chunks[i].Bytes()[..take], InChunk(i))];
        remaining := remaining - take;
      } else {
        assert Joined(spans) + chunks[i].Bytes()[..0] == Joined(spans);
      }
    }
    CoversAll(chunks, want, Joined(spans));
  }

  /** The spans of the first `i` chunks, one for each that has something to give. */
  ghost predicate Gathered(spans: seq<Span>, chunks: seq<ChunkState>, i: nat, want: nat)
    requires AllOk(chunks) && i <= |chunks|
  {
    OnePerChunk(spans, chunks) && (spans != [] ==> Before(Last(spans), i)) && Covers(chunks, i, want, Joined(spans))
  }

  function Last(spans: seq<Span>): Span
    requires spans != []
  {
    spans[|spans| - 1]
  }

  predicate Before(span: Span, index: nat) {
    span.origin.InChunk? && span.origin.index < index
  }

  lemma {:induction false} SpanNext(spans: seq<Span>, chunks: seq<ChunkState>, span: Span)
    requires AllOk(chunks) && OnePerChunk(spans, chunks) && InPlace(span, chunks)
    requires spans != [] ==> Before(Last(spans), span.origin.index)
    ensures OnePerChunk(spans + [span], chunks) && Joined(spans + [span]) == Joined(spans) + span.bytes
  {
    var all := spans + [span];
    assert all[..|spans|] == spans;
    forall i | 0 <= i < |all| ensures InPlace(all[i], chunks) {
      if i < |spans| { assert InPlace(spans[i], chunks); }
    }
    forall i, j | 0 <= i < j < |all| ensures Precedes(all, i, j) {
      if j < |spans| {
        assert Precedes(spans, i, j);
      } else if i < |spans| - 1 {
        assert Precedes(spans, i, |spans| - 1);
      }
    }
  }

  /** The loop of `CloneReadable`: chunk states cut to the first `length` bytes. */
  method Prefix(chunks: seq<ChunkState>, length: nat) returns (states: seq<ChunkState>)
    requires AllOk(chunks) && length <= |Content(chunks)|
    ensures AllOk(states) && Content(states) == Content(chunks)[..length]
  {
    states := [];
    var remaining: nat := length;
    for i := 0 to |chunks|
      invariant AllOk(states) && remaining + |Content(states)| == length && Covers(chunks, i, length, Content(states))
    {
      if remaining == 0 {
        return;
      }
      CoversNext(chunks, i, length, Content(states));
      var available := chunks[i].Readable();
      if available > 0 {
        var piece := Min(available, remaining);
        states := AppendCut(states, chunks[i], piece);
        remaining := remaining - piece;
      } else {
        assert Content(states) + chunks[i].Bytes()[..0] == Content(states);
      }
    }
    CoversAll(chunks, length, Content(states));
  }

  /** Add a chunk cut to its first `piece` readable bytes. */
  method AppendCut(states: seq<ChunkState>, chunk: ChunkState, piece: nat) returns (states': seq<ChunkState>)
    requires AllOk(states) && chunk.Ok() && piece <= chunk.Readable()
    ensures AllOk(states') && Content(states') == Content(states) + chunk.Bytes()[..piece]
  {
    var state := chunk.(writePos := chunk.readPos + piece);
    ContentAppend(states, state);
    SliceOfSlice(chunk.block, chunk.readPos, chunk.writePos, piece);
    states' := states + [state];
  }

  datatype QueueOp = Put(data: seq<byte>) | Get(len: nat) | Skip(len: nat)

  /** The plain byte queue after a run. */
  function Queue(ops: seq<QueueOp>): seq<byte> {
    if ops == [] then []
    else
      var n := |ops| - 1;
      AfterStep(ops[n], Queue(ops[..n]))
  }

  function AfterStep(op: QueueOp, queue: seq<byte>): seq<byte> {
    match op
    case Put(data) => queue + data
    case Get(len) => queue[Min(len, |queue|)..]
    case Skip(len) => queue[Min(len, |queue|)..]
  }

  /** What a step takes off the front of the queue. */
  function Taken(op: QueueOp, queue: seq<byte>): seq<byte> {
    match op
    case Put(_) => []
    case Get(len) => queue[..Min(len, |queue|)]
    case Skip(len) => queue[..Min(len, |queue|)]
  }

  /** All bytes written, and all bytes read or skipped, in order. */
  function Written(ops: seq<QueueOp>): seq<byte> {
    if ops == [] then []
    else
      var n := |ops| - 1;
      Written(ops[..n]) + if ops[n].Put? then ops[n].data else []
  }

  function Removed(ops: seq<QueueOp>): seq<byte> {
    if ops == [] then []
    else
      var n := |ops| - 1;
      Removed(ops[..n]) + Taken(ops[n], Queue(ops[..n]))
  }

  /** First in, first out: what left, followed by what is still there, is everything that was written. */
  lemma {:induction false} FirstInFirstOut(ops: seq<QueueOp>)
    ensures Removed(ops) + Queue(ops) == Written(ops)
  {
    if ops != [] {
      var n := |ops| - 1;
      FirstInFirstOut(ops[..n]);
      var queue, removed := Queue(ops[..n]), Removed(ops[..n]);
      if ops[n].Put? {
        Concat3(removed, queue, ops[n].data);
      } else {
        var c := Min(ops[n].len, |queue|);
        assert queue == queue[..c] + queue[c..];
        Concat3(removed, queue[..c], queue[c..]);
      }
    }
  }

  /** What a step returns: the bytes moved, and for a read the bytes themselves. */
  datatype Moved = Moved(count: nat, bytes: seq<byte>)

  function Answer(op: QueueOp, queue: seq<byte>): Moved {
    match op
    case Put(data) => Moved(|data|, [])
    case Get(_) => Moved(|Taken(op, queue)|, Taken(op, queue))
    case Skip(_) => Moved(|Taken(op, queue)|, [])
  }

  /** Each step is answered as the plain queue answers it. */
  ghost predicate Answers(ops: seq<QueueOp>, answers: seq<Moved>) {
    |answers| == |ops| && forall n :: 0 <= n < |ops| ==> answers[n] == Answer(ops[n], Queue(ops[..n]))
  }

  lemma AnswersNext(ops: seq<QueueOp>, answers: seq<Moved>, op: QueueOp)
    requires Answers(ops, answers)
    ensures Answers(ops + [op], answers + [Answer(op, Queue(ops))])
    ensures Queue(ops + [op]) == AfterStep(op, Queue(ops))
  {
    var ops' := ops + [op];
    assert ops'[..|ops|] == ops;
    assert forall n :: 0 <= n < |ops| ==> ops'[..n] == ops[..n] && ops'[n] == ops[n];
  }

  /** Every run of the buffer, over chunks of any size, answers as the plain queue does and ends with its content. */
  method RunQueue(ops: seq<QueueOp>, blockLen: nat) returns (answers: seq<Moved>, buffer: MultiBlockBuffer)
    requires blockLen > 0
    ensures fresh(buffer) && buffer.Valid() && buffer.Data() == Queue(ops)
    ensures Answers(ops, answers)
  {
    buffer := new MultiBlockBuffer(blockLen);
    answers := [];
    for n := 0 to |ops|
      invariant fresh(buffer) && buffer.Valid() && buffer.Data() == Queue(ops[..n]) && Answers(ops[..n], answers)
    {
      AnswersNext(ops[..n], answers, ops[n]);
      assert ops[..n + 1] == ops[..n] + [ops[n]];
      var answer := QueueStep(buffer, ops[n]);
      answers := answers + [answer];
    }
    assert ops[..|ops|] == ops;
  }

  method QueueStep(buffer: MultiBlockBuffer, op: QueueOp) returns (answer: Moved)
    requires buffer.Valid()
    modifies buffer
    ensures buffer.Valid() && answer == Answer(op, old(buffer.Data()))
    ensures buffer.Data() == AfterStep(op, old(buffer.Data()))
  {
    match op {
      case Put(data) =>
        var count := buffer.Write(data);
        return Moved(count, []);
      case Get(len) =>
        var bytes := buffer.Read(len);
        return Moved(|bytes|, bytes);
      case Skip(len) =>
        var count := buffer.MoveReadPt(len);
        return Moved(count, []);
    }
  }
}
