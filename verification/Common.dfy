/** Shared vocabulary. */
module Common {

  const UINT32 := 0x1_0000_0000
  const UINT64 := 0x1_0000_0000_0000_0000

  datatype Option<+T> = None | Some(value: T)

  function Min(a: nat, b: nat): nat {
    if a < b then a else b
  }

  /** All but the first `n` elements. */
  function From<T>(s: seq<T>, n: nat): (r: seq<T>)
    requires n <= |s|
    ensures |r| == |s| - n
  {
    if n == 0 then s else s[n..]
  }

  lemma FromTake<T>(s: seq<T>, n: nat, k: nat)
    requires n + k <= |s|
    ensures From(s, n)[..k] == s[n..n + k]
    ensures From(s, n) == s[n..|s|]
  {
  }
}
