/** The 64-bit occupancy words of the timing wheel, bit by bit (least significant first), with the
    machine operations the wheel uses on them: or, and, not, `1ull << k`, `~0ull << k`, minus one,
    and count-trailing-zeros. */
module Bits {

  type Word = w: seq<bool> | |w| == 64 witness seq(64, i => false)

  const ZERO: Word := seq(64, i => false)

  function Or(a: Word, b: Word): Word {
    seq(64, i requires 0 <= i < 64 => a[i] || b[i])
  }

  function And(a: Word, b: Word): Word {
    seq(64, i requires 0 <= i < 64 => a[i] && b[i])
  }

  function Not(a: Word): Word {
    seq(64, i requires 0 <= i < 64 => !a[i])
  }

  /** `1ull << k` */
  function OneAt(k: nat): Word {
    seq(64, i => i == k)
  }

  /** `~0ull << k` */
  function OnesFrom(k: nat): Word {
    seq(64, i => i >= k)
  }

  function SetBit(w: Word, k: nat): Word {
    Or(w, OneAt(k))
  }

  function ClearBit(w: Word, k: nat): Word {
    And(w, Not(OneAt(k)))
  }

  /** Subtract one: borrow through the low zeros, wrapping at zero. */
  function Borrow(bits: seq<bool>): (r: seq<bool>)
    ensures |r| == |bits|
  {
    if bits == [] then []
    else if bits[0] then [false] + bits[1..]
    else [true] + Borrow(bits[1..])
  }

  function MinusOne(w: Word): Word {
    Borrow(w)
  }

  predicate IsLowest(bits: seq<bool>, k: nat) {
    k < |bits| && bits[k] && forall j | 0 <= j < k :: !bits[j]
  }

  /** `__builtin_ctzll`: the position of the lowest set bit. */
  function Ctz(w: Word): (k: nat)
    requires w != ZERO
    ensures IsLowest(w, k)
  {
    assert exists i :: 0 <= i < 64 && w[i] by {
      var i :| 0 <= i < 64 && w[i] != ZERO[i];
    }
    LowestFrom(w)
  }

  function LowestFrom(bits: seq<bool>): (k: nat)
    requires exists i :: 0 <= i < |bits| && bits[i]
    ensures IsLowest(bits, k)
  {
    if bits[0] then 0 else
      assert exists i :: 0 <= i < |bits[1..]| && bits[1..][i] by {
        var i :| 0 <= i < |bits| && bits[i];
        assert bits[1..][i - 1];
      }
      1 + LowestFrom(bits[1..])
  }

  lemma {:induction false} BorrowAt(bits: seq<bool>, k: nat, j: nat)
    requires IsLowest(bits, k) && j < |bits|
    ensures Borrow(bits)[j] == if j < k then true else j != k && bits[j]
  {
    if k > 0 && j > 0 {
      BorrowAt(bits[1..], k - 1, j - 1);
    }
  }

  /** `w & (w - 1)` removes exactly the lowest set bit. */
  lemma ClearLowest(w: Word)
    requires w != ZERO
    ensures And(w, MinusOne(w)) == ClearBit(w, Ctz(w))
  {
    forall j | 0 <= j < 64 ensures And(w, MinusOne(w))[j] == ClearBit(w, Ctz(w))[j] {
      BorrowAt(w, Ctz(w), j);
    }
  }

  /** Set bit `s` of a 256-bit map held in four words. */
  predicate Has256(words: seq<Word>, s: nat)
    requires |words| == 4 && s < 256
  {
    words[s / 64][s % 64]
  }

  /** `Wheel0NextSetFrom`: the first set position at or after `from`, or 256. */
  method NextSetFrom256(words: seq<Word>, from: nat) returns (r: nat)
    requires |words| == 4
    ensures r <= 256
    ensures r < 256 ==> from <= r && Has256(words, r)
    ensures forall j: nat :: from <= j < r ==> !Has256(words, j)
  {
    if from >= 256 { return 256; }
    var word, bit := from / 64, from % 64;
    var masked := And(words[word], OnesFrom(bit));
    assert forall j :: bit <= j < 64 ==> words[word][j] == masked[j];
    if masked != ZERO {
      ClearUpTo(words, from, word, Ctz(masked));
      return word * 64 + Ctz(masked);
    }
    ClearUpTo(words, from, word, 64);
    for w := word + 1 to 4
      invariant forall j: nat :: from <= j < w * 64 ==> !Has256(words, j)
    {
      if words[w] != ZERO {
        ClearUpTo(words, from, w, Ctz(words[w]));
        return w * 64 + Ctz(words[w]);
      }
      ClearUpTo(words, from, w, 64);
    }
    return 256;
  }

  /** With nothing set from `from` up to word `w`, and nothing relevant in its first `k` bits, the gap extends. */
  lemma ClearUpTo(words: seq<Word>, from: nat, w: nat, k: nat)
    requires |words| == 4 && w < 4 && k <= 64
    requires forall j: nat :: from <= j < w * 64 ==> !Has256(words, j)
    requires forall b :: 0 <= b < k && from <= w * 64 + b ==> !words[w][b]
    ensures forall j: nat :: from <= j < w * 64 + k ==> !Has256(words, j)
  {
  }
}
