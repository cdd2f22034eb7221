/** Variable-length integers of section 16 of RFC 9000, and big-endian fixed-width integers. */
module Varint {
  import opened Common

  type byte = b: int | 0 <= b < 256

  /** A decoded value and the number of bytes it took. */
  datatype Decoded = Decoded(value: nat, len: nat)

  const MAX_VARINT := 0x3fff_ffff_ffff_ffff

  /** `GetEncodeVarintLength` */
  function VarintLength(v: nat): (n: nat)
    ensures n in {1, 2, 4, 8}
  {
    if v <= 0x3f then 1 else if v <= 0x3fff then 2 else if v <= 0x3fff_ffff then 4 else 8
  }

  /** The length tag in the two top bits of the first byte. */
  function Tag(n: nat): (t: nat)
    requires n in {1, 2, 4, 8}
    ensures t < 4 && TagLength(t) == n
  {
    if n == 1 then 0 else if n == 2 then 1 else if n == 4 then 2 else 3
  }

  /** `1 << tag` */
  function TagLength(t: nat): nat {
    if t == 0 then 1 else if t == 1 then 2 else if t == 2 then 4 else 8
  }

  function Pow256(n: nat): (p: nat)
    ensures p >= 1
  {
    if n == 0 then 1 else 256 * Pow256(n - 1)
  }

  /** `v >> (8 * k)` */
  function Shifted(v: nat, k: nat): nat {
    if k == 0 then v else Shifted(v / 256, k - 1)
  }

  /** The low `n` bytes of `v`, most significant first. */
  function BigEndian(v: nat, n: nat): (s: seq<byte>)
    ensures |s| == n
  {
    if n == 0 then [] else BigEndian(v / 256, n - 1) + [v % 256]
  }

  function FromBigEndian(s: seq<byte>): nat {
    if s == [] then 0 else 256 * FromBigEndian(s[..|s| - 1]) + s[|s| - 1]
  }

  lemma {:induction false} BigEndianInverse(v: nat, n: nat)
    requires v < Pow256(n)
    ensures FromBigEndian(BigEndian(v, n)) == v
  {
    if n > 0 {
      BigEndianInverse(v / 256, n - 1);
      assert BigEndian(v, n)[..n - 1] == BigEndian(v / 256, n - 1);
    }
  }

  lemma {:induction false} BigEndianAt(v: nat, n: nat, i: nat)
    requires i < n
    ensures BigEndian(v, n)[i] == Shifted(v, n - 1 - i) % 256
  {
    if i < n - 1 {
      BigEndianAt(v / 256, n - 1, i);
    }
  }

  lemma {:induction false} FromBigEndianBound(s: seq<byte>)
    ensures FromBigEndian(s) < Pow256(|s|)
  {
    if s != [] {
      FromBigEndianBound(s[..|s| - 1]);
    }
  }

  lemma {:induction false} FromBigEndianFirst(b: byte, s: seq<byte>)
    ensures FromBigEndian([b] + s) == b * Pow256(|s|) + FromBigEndian(s)
  {
    if s == [] {
      assert ([b] + s)[..0] == [];
    } else {
      var init := s[..|s| - 1];
      FromBigEndianFirst(b, init);
      assert ([b] + s)[..|s|] == [b] + init;
      MulShift(b, Pow256(|init|));
    }
  }

  lemma {:induction false} FromBigEndianNext(s: seq<byte>, b: byte)
    ensures FromBigEndian(s + [b]) == 256 * FromBigEndian(s) + b
  {
  }

  lemma {:induction false} MulShift(b: nat, p: nat)
    ensures 256 * (b * p) == b * (256 * p)
  {
  }

  lemma {:induction false} PowValues()
    ensures Pow256(0) == 1 && Pow256(1) == 0x100 && Pow256(2) == 0x1_0000 && Pow256(3) == 0x100_0000
    ensures Pow256(4) == 0x1_0000_0000 && Pow256(5) == 0x100_0000_0000 && Pow256(6) == 0x1_0000_0000_0000
    ensures Pow256(7) == 0x100_0000_0000_0000 && Pow256(8) == 0x1_0000_0000_0000_0000
  {
    assert Pow256(2) == 256 * Pow256(1) && Pow256(4) == 256 * Pow256(3) && Pow256(6) == 256 * Pow256(5);
  }

  /** The two widths a length tag allows for: `v` leaves the two top bits of `n` bytes free. */
  predicate Fits(v: nat, n: nat) {
    n in {1, 2, 4, 8} && v < 64 * Pow256(n - 1)
  }

  /** The value leaves the two top bits of its first byte free. */
  lemma {:induction false} TopByte(v: nat, n: nat)
    requires Fits(v, n)
    ensures v < Pow256(n) && BigEndian(v, n)[0] < 64
  {
    var s := BigEndian(v, n);
    BigEndianInverse(v, n);
    assert s == [s[0]] + s[1..];
    FromBigEndianFirst(s[0], s[1..]);
    if s[0] >= 64 { MulAtLeast(s[0], Pow256(n - 1)); }
  }

  lemma {:induction false} MulAtLeast(b: nat, p: nat)
    requires b >= 64
    ensures b * p >= 64 * p
  {
  }

  /** `v` in `n` bytes, most significant first, with the length tag in the two top bits. */
  function Form(v: nat, n: nat): (s: seq<byte>)
    requires Fits(v, n)
    ensures |s| == n
  {
    TopByte(v, n);
    BigEndian(v, n)[0 := BigEndian(v, n)[0] + 64 * Tag(n)]
  }

  /** Every value that fits the format has a form, and the encoder takes the shortest. */
  lemma {:induction false} LengthFits(v: nat)
    requires v <= MAX_VARINT
    ensures Fits(v, VarintLength(v))
    ensures forall n :: Fits(v, n) ==> VarintLength(v) <= n
  {
    PowValues();
  }

  function Encoded(v: nat): (s: seq<byte>)
    requires v <= MAX_VARINT
    ensures |s| == VarintLength(v)
  {
    LengthFits(v);
    Form(v, VarintLength(v))
  }

  lemma {:induction false} ShiftedIs(v: nat, k: nat)
    ensures Shifted(v, k) == v / Pow256(k)
  {
    if k > 0 {
      ShiftedIs(v / 256, k - 1);
      DivideTwice(v, Pow256(k - 1));
    }
  }

  lemma {:induction false} DivideTwice(v: nat, p: nat)
    requires p >= 1
    ensures v / 256 / p == v / (256 * p)
  {
    var m, q, r := v / 256, v / 256 / p, v / 256 % p;
    assert m == q * p + r && v == 256 * m + v % 256;
    Quotient(v, 256 * p, q, 256 * r + v % 256);
  }

  lemma {:induction false} Quotient(v: nat, d: nat, q: nat, r: nat)
    requires 0 <= r < d && v == q * d + r
    ensures v / d == q
  {
    var k := v / d - q;
    assert k * d == r - v % d;
    Multiple(k, d);
  }

  lemma {:induction false} Multiple(k: int, d: int)
    requires d >= 1
    ensures k >= 1 ==> k * d >= d
    ensures k <= -1 ==> k * d <= -d
  {
  }

  /** Byte `i` of an `n`-byte integer: network order. */
  lemma {:induction false} BigEndianIs(v: nat, n: nat, i: nat)
    requires i < n
    ensures BigEndian(v, n)[i] == v / Pow256(n - 1 - i) % 256
  {
    BigEndianAt(v, n, i);
    ShiftedIs(v, n - 1 - i);
  }

  /** Byte `i` of a varint form: the table of section 16 of RFC 9000. */
  lemma {:induction false} FormIs(v: nat, n: nat, i: nat)
    requires Fits(v, n) && i < n
    ensures Form(v, n)[i] == v / Pow256(n - 1 - i) % 256
      + if i > 0 || n == 1 then 0 else if n == 2 then 0x40 else if n == 4 then 0x80 else 0xc0
  {
    TopByte(v, n);
    BigEndianIs(v, n, i);
  }

  /** What `DecodeVarint` reads from a byte string. */
  function Decode(s: seq<byte>): (r: Option<Decoded>)
    ensures r.Some? ==> 1 <= r.value.len <= 8 && r.value.len <= |s|
  {
    if s == [] then None else
      var len := TagLength(s[0] / 64);
      if |s| < len then None else Some(Decoded(FromBigEndian([s[0] % 64] + s[1..len]), len))
  }

  /** Every form of a value, shortest or not, decodes to it and is consumed exactly. */
  lemma {:induction false} DecodeForm(v: nat, n: nat, suffix: seq<byte>)
    requires Fits(v, n)
    ensures Decode(Form(v, n) + suffix) == Some(Decoded(v, n))
  {
    var s, plain := Form(v, n) + suffix, BigEndian(v, n);
    TopByte(v, n);
    BigEndianInverse(v, n);
    assert s[0] == plain[0] + 64 * Tag(n);
    assert s[0] / 64 == Tag(n) && s[0] % 64 == plain[0];
    assert [s[0] % 64] + s[1..n] == plain;
  }

  /** And nothing else decodes: a byte string gives `v` from its first `n` bytes exactly if these are a form of `v`. */
  lemma {:induction false} DecodeIff(s: seq<byte>, v: nat, n: nat)
    ensures Decode(s) == Some(Decoded(v, n)) <==> Fits(v, n) && Form(v, n) <= s
  {
    if Fits(v, n) && Form(v, n) <= s {
      DecodeForm(v, n, s[n..]);
      assert Form(v, n) + s[n..] == s;
    }
    if Decode(s) == Some(Decoded(v, n)) {
      DecodedFits(s, v, n);
      SameForm([s[0] % 64] + s[1..n], v, n, s);
    }
  }

  lemma {:induction false} DecodedFits(s: seq<byte>, v: nat, n: nat)
    requires Decode(s) == Some(Decoded(v, n))
    ensures Fits(v, n)
  {
    FromBigEndianBound(s[1..n]);
    FromBigEndianFirst(s[0] % 64, s[1..n]);
    MulBelow(s[0] % 64, Pow256(n - 1));
  }

  lemma {:induction false} SameForm(plain: seq<byte>, v: nat, n: nat, s: seq<byte>)
    requires Fits(v, n) && n <= |s| && plain == [s[0] % 64] + s[1..n] && FromBigEndian(plain) == v
    requires s[0] / 64 == Tag(n)
    ensures Form(v, n) <= s
  {
    FromBigEndianInverse(plain);
    FormPrefix(v, n, s);
  }

  lemma {:induction false} FormPrefix(v: nat, n: nat, s: seq<byte>)
    requires Fits(v, n) && n <= |s| && BigEndian(v, n) == [s[0] % 64] + s[1..n] && s[0] / 64 == Tag(n)
    ensures Form(v, n) <= s
  {
    var f, plain := Form(v, n), [s[0] % 64] + s[1..n];
    FormOf(v, n, plain);
    assert f[0] == s[0] % 64 + 64 * (s[0] / 64) == s[0];
    assert forall i :: 1 <= i < n ==> f[i] == plain[i] == s[i];
  }

  lemma {:induction false} FormOf(v: nat, n: nat, plain: seq<byte>)
    requires Fits(v, n) && plain == BigEndian(v, n)
    ensures Form(v, n)[0] == plain[0] + 64 * Tag(n) && forall i :: 1 <= i < n ==> Form(v, n)[i] == plain[i]
  {
    TopByte(v, n);
  }

  lemma {:induction false} FromBigEndianInverse(s: seq<byte>)
    ensures BigEndian(FromBigEndian(s), |s|) == s
  {
    if s != [] {
      FromBigEndianInverse(s[..|s| - 1]);
      assert s == s[..|s| - 1] + [s[|s| - 1]];
    }
  }

  /** Decoding an encoding followed by anything gives the value back and consumes exactly the encoding. */
  lemma {:induction false} DecodeEncoded(v: nat, suffix: seq<byte>)
    requires v <= MAX_VARINT
    ensures Decode(Encoded(v) + suffix) == Some(Decoded(v, VarintLength(v)))
  {
    LengthFits(v);
    DecodeForm(v, VarintLength(v), suffix);
  }

  lemma {:induction false} EncodedIs(v: nat, n: nat)
    requires v <= MAX_VARINT && Fits(v, n) && forall m :: Fits(v, m) ==> n <= m
    ensures Encoded(v) == Form(v, n)
  {
    LengthFits(v);
  }

  /** Sample encodings of appendix A.1 of RFC 9000. */
  lemma {:induction false} SampleEncodings(b: nat, c: nat, d: nat)
    requires b == 494878333 && c == 15293 && d == 37
    ensures Encoded(b) == [0x9d, 0x7f, 0x3e, 0x7d] && Encoded(c) == [0x7b, 0xbd] && Encoded(d) == [0x25]
  {
    Sample4(b);
    Sample2(c);
    PowValues();
    EncodedIs(d, 1);
    FormIs(d, 1, 0);
  }

  lemma {:induction false} Sample4(b: nat)
    requires b == 494878333
    ensures Encoded(b) == [0x9d, 0x7f, 0x3e, 0x7d]
  {
    PowValues();
    EncodedIs(b, 4);
    FormIs(b, 4, 0);
    FormIs(b, 4, 1);
    FormIs(b, 4, 2);
    FormIs(b, 4, 3);
  }

  lemma {:induction false} Sample2(c: nat)
    requires c == 15293
    ensures Encoded(c) == [0x7b, 0xbd]
  {
    PowValues();
    EncodedIs(c, 2);
    FormIs(c, 2, 0);
    FormIs(c, 2, 1);
  }

  /** The longer form that appendix decodes. */
  lemma {:induction false} SampleLongForm(d: nat)
    requires d == 37
    ensures Decode([0x40, 0x25]) == Some(Decoded(d, 2))
  {
    PowValues();
    FormIs(d, 2, 0);
    FormIs(d, 2, 1);
    DecodeForm(d, 2, []);
    assert Form(d, 2) + [] == [0x40, 0x25];
  }

  /** No byte string decodes to `v` in fewer bytes than its encoding. */
  lemma {:induction false} EncodedShortest(v: nat, s: seq<byte>)
    requires v <= MAX_VARINT && Decode(s).Some? && Decode(s).value.value == v
    ensures VarintLength(v) <= Decode(s).value.len
  {
    DecodedFits(s, v, Decode(s).value.len);
    LengthFits(v);
  }

  lemma {:induction false} MulBelow(b: nat, p: nat)
    requires b < 64
    ensures b * p + p <= 64 * p
  {
  }

  /** Values encoded back to back. */
  function EncodedAll(vs: seq<nat>): seq<byte>
    requires forall i :: 0 <= i < |vs| ==> vs[i] <= MAX_VARINT
  {
    if vs == [] then [] else Encoded(vs[0]) + EncodedAll(vs[1..])
  }

  /** Decode `n` values one after the other; also the number of bytes consumed. */
  function DecodeEach(decode: seq<byte> -> Option<Decoded>, s: seq<byte>, n: nat): Option<(seq<nat>, nat)> {
    if n == 0 then Some(([], 0)) else
      match decode(s)
      case None => None
      case Some(d) =>
        if d.len > |s| then None else
          match DecodeEach(decode, From(s, d.len), n - 1)
          case None => None
          case Some((vs, len)) => Some(([d.value] + vs, d.len + len))
  }

  function DecodeAll(s: seq<byte>, n: nat): Option<(seq<nat>, nat)> {
    DecodeEach(Decode, s, n)
  }

  lemma {:induction false} DecodeAllEncoded(vs: seq<nat>, suffix: seq<byte>)
    requires forall i :: 0 <= i < |vs| ==> vs[i] <= MAX_VARINT
    ensures DecodeAll(EncodedAll(vs) + suffix, |vs|) == Some((vs, |EncodedAll(vs)|))
  {
    if vs != [] {
      var first, rest := Encoded(vs[0]), EncodedAll(vs[1..]);
      EncodedSplit(first, rest, suffix);
      DecodeEncoded(vs[0], rest + suffix);
      DecodeAllEncoded(vs[1..], suffix);
      DecodeAllNext(Decode, first, vs[0], rest + suffix, vs[1..], |rest|);
      assert [vs[0]] + vs[1..] == vs;
    }
  }

  lemma {:induction false} DecodeAllNext(decode: seq<byte> -> Option<Decoded>, first: seq<byte>, v: nat,
                                         rest: seq<byte>, vs: seq<nat>, len: nat)
    requires decode(first + rest) == Some(Decoded(v, |first|)) && DecodeEach(decode, rest, |vs|) == Some((vs, len))
    ensures DecodeEach(decode, first + rest, |vs| + 1) == Some(([v] + vs, |first| + len))
  {
    assert From(first + rest, |first|) == rest;
  }

  lemma {:induction false} EncodedSplit(first: seq<byte>, rest: seq<byte>, suffix: seq<byte>)
    ensures first + rest + suffix == first + (rest + suffix)
  {
  }

  /** Only the first eight bytes matter. */
  lemma {:induction false} DecodePrefix(s: seq<byte>, n: nat)
    requires n <= |s| && (n >= 8 || n == |s|)
    ensures Decode(s[..n]) == Decode(s)
  {
    if s != [] {
      var len := TagLength(s[0] / 64);
      if len <= n { assert s[..n][1..len] == s[1..len]; }
    }
  }

  /** One byte of `IntSet`: bits `8k..8k+7` of the value, with `bits` in the two top bits. */
  function IntSet(v: nat, k: nat, bits: nat): int {
    Shifted(v, k) % 256 + 64 * bits
  }

  /** `EncodeVarint` into `buf[start..end]`; the new position, or None with the buffer untouched. */
  method EncodeVarint(buf: array<byte>, start: nat, end: nat, value: nat) returns (r: Option<nat>)
    requires end <= buf.Length
    modifies buf
    ensures r.Some? <==> start < end && start + VarintLength(value) <= end && value <= MAX_VARINT
    ensures r.None? ==> buf[..] == old(buf[..])
    ensures r.Some? ==>
      r.value == start + VarintLength(value) && buf[..] == old(buf[..start]) + Encoded(value) + old(buf[r.value..])
  {
    if start >= end {
      return None;
    }
    var needLen := VarintLength(value);
    if start + needLen > end {
      return None;
    }
    if value > MAX_VARINT {
      return None;
    }
    LengthFits(value);
    TopByte(value, needLen);
    BigEndianAt(value, needLen, 0);
    if value < 0x40 {
      buf[start] := IntSet(value, 0, 0);
    } else if value < 0x4000 {
      PutBytes2(buf, start, value);
    } else if value < 0x4000_0000 {
      PutBytes4(buf, start, value);
    } else {
      PutBytes8(buf, start, value);
    }
    WrittenForm(old(buf[..]), buf[..], start, value);
    return Some(start + needLen);
  }

  /** `after` has the bytes of `v` (tag on the first) at `start` and is otherwise `before`. */
  ghost predicate Written(before: seq<byte>, after: seq<byte>, start: nat, v: nat, n: nat) {
    && |after| == |before| && start + n <= |before|
    && (forall i :: 0 <= i < |before| && !(start <= i < start + n) ==> after[i] == before[i])
    && (forall i :: start <= i < start + n ==>
          after[i] == IntSet(v, start + n - 1 - i, if i == start && n in {1, 2, 4, 8} then Tag(n) else 0))
  }

  lemma {:induction false} WrittenForm(before: seq<byte>, after: seq<byte>, start: nat, v: nat)
    requires v <= MAX_VARINT && Written(before, after, start, v, VarintLength(v))
    ensures after == before[..start] + Encoded(v) + before[start + VarintLength(v)..]
  {
    var n := VarintLength(v);
    LengthFits(v);
    FormOf(v, n, BigEndian(v, n));
    forall i | start <= i < start + n ensures after[i] == Encoded(v)[i - start] {
      BigEndianAt(v, n, i - start);
    }
  }

  method PutBytes2(buf: array<byte>, p: nat, v: nat)
    requires p + 2 <= buf.Length && Shifted(v, 1) % 256 < 64
    modifies buf
    ensures Written(old(buf[..]), buf[..], p, v, 2)
  {
    buf[p] := IntSet(v, 1, 1);
    buf[p + 1] := IntSet(v, 0, 0);
  }

  method PutBytes4(buf: array<byte>, p: nat, v: nat)
    requires p + 4 <= buf.Length && Shifted(v, 3) % 256 < 64
    modifies buf
    ensures Written(old(buf[..]), buf[..], p, v, 4)
  {
    buf[p] := IntSet(v, 3, 2);
    buf[p + 1] := IntSet(v, 2, 0);
    buf[p + 2] := IntSet(v, 1, 0);
    buf[p + 3] := IntSet(v, 0, 0);
  }

  method PutBytes8(buf: array<byte>, p: nat, v: nat)
    requires p + 8 <= buf.Length && Shifted(v, 7) % 256 < 64
    modifies buf
    ensures Written(old(buf[..]), buf[..], p, v, 8)
  {
    buf[p] := IntSet(v, 7, 3);
    buf[p + 1] := IntSet(v, 6, 0);
    buf[p + 2] := IntSet(v, 5, 0);
    buf[p + 3] := IntSet(v, 4, 0);
    buf[p + 4] := IntSet(v, 3, 0);
    buf[p + 5] := IntSet(v, 2, 0);
    buf[p + 6] := IntSet(v, 1, 0);
    buf[p + 7] := IntSet(v, 0, 0);
  }

  /** One turn of the accumulator. */
  lemma {:induction false} AccumulateNext(s: seq<byte>, k: nat)
    requires 1 <= k < |s|
    ensures FromBigEndian([s[0] % 64] + s[1..k + 1]) == 256 * FromBigEndian([s[0] % 64] + s[1..k]) + s[k]
  {
    assert [s[0] % 64] + s[1..k + 1] == [s[0] % 64] + s[1..k] + [s[k]];
    FromBigEndianNext([s[0] % 64] + s[1..k], s[k]);
  }

  /** `DecodeVarint` over `s[start..end]`: a loop over an accumulator. */
  method DecodeVarint(s: seq<byte>, start: nat, end: nat) returns (r: Option<Decoded>)
    requires start <= end <= |s|
    ensures r == Decode(s[start..end])
  {
    if start >= end {
      return None;
    }
    var len := TagLength(s[start] / 64);
    var value: nat := s[start] % 64;
    var p := start + 1;
    if end - p < len - 1 {
      return None;
    }
    ghost var input := s[start..end];
    while p < start + len
      invariant start + 1 <= p <= start + len
      invariant value == FromBigEndian([input[0] % 64] + input[1..p - start])
    {
      var k := p - start;
      AccumulateNext(input, k);
      value := value * 256 + s[p];
      p := p + 1;
      if p >= end {
        assert k + 1 == len;
        break;
      }
    }
    return Some(Decoded(value, p - start));
  }

  /** The value a fixed-width decoder reads, and how many bytes it takes. */
  function DecodeFixed(s: seq<byte>, n: nat): Option<Decoded> {
    if |s| < n then None else Some(Decoded(FromBigEndian(s[..n]), n))
  }

  /** Decoding a fixed-width encoding followed by anything gives the value back. */
  lemma {:induction false} DecodeFixedEncoded(v: nat, n: nat, suffix: seq<byte>)
    requires v < Pow256(n)
    ensures DecodeFixed(BigEndian(v, n) + suffix, n) == Some(Decoded(v, n))
  {
    BigEndianInverse(v, n);
    assert (BigEndian(v, n) + suffix)[..n] == BigEndian(v, n);
  }

  /** And nothing else decodes to it. */
  lemma {:induction false} DecodeFixedIff(s: seq<byte>, v: nat, n: nat)
    ensures DecodeFixed(s, n) == Some(Decoded(v, n)) <==> v < Pow256(n) && BigEndian(v, n) <= s
  {
    if v < Pow256(n) && BigEndian(v, n) <= s {
      DecodeFixedEncoded(v, n, s[n..]);
      assert BigEndian(v, n) + s[n..] == s;
    }
    if DecodeFixed(s, n) == Some(Decoded(v, n)) {
      FromBigEndianInverse(s[..n]);
      FromBigEndianBound(s[..n]);
    }
  }

  /** `FixedEncodeUint8`, `16`, `32` and `64` with `n` = 1, 2, 4, 8: the value in network order, copied in. */
  method FixedEncodeUint(buf: array<byte>, start: nat, end: nat, value: nat, n: nat) returns (r: Option<nat>)
    requires end <= buf.Length && n in {1, 2, 4, 8} && value < Pow256(n)
    modifies buf
    ensures r == if start + n <= end then Some(start + n) else None
    ensures r.None? ==> buf[..] == old(buf[..])
    ensures r.Some? ==> buf[..] == old(buf[..start]) + BigEndian(value, n) + old(buf[start + n..])
  {
    if start + n > end {
      return None;
    }
    var network := BigEndian(value, n);
    forall i | 0 <= i < n {
      buf[start + i] := network[i];
    }
    return Some(start + n);
  }
}
