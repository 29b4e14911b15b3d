/** Facts about concatenation and slicing that the layout proofs use, stated
    once for any element type so that each use is a single step. */
module Slices {

  lemma AppendAssoc<T>(x: seq<T>, y: seq<T>, z: seq<T>)
    ensures (x + y) + z == x + (y + z)
  {
  }

  lemma AppendEmpty<T>(x: seq<T>)
    ensures x + [] == x
  {
  }

  /** A slice that lies inside the left operand of `+`. */
  lemma SliceOfLeft<T>(s: seq<T>, t: seq<T>, lo: nat, hi: nat)
    requires lo <= hi <= |s|
    ensures (s + t)[lo..hi] == s[lo..hi]
  {
  }

  /** A slice that starts `k` elements into the right operand of `+`. */
  lemma SliceOfRight<T>(s: seq<T>, t: seq<T>, lo: nat, k: nat, len: nat)
    requires lo == |s| + k && k + len <= |t|
    ensures (s + t)[lo..lo + len] == t[k..k + len]
  {
  }

  /** A suffix that starts `k` elements into the right operand of `+`. */
  lemma DropOfRight<T>(s: seq<T>, t: seq<T>, lo: nat, k: nat)
    requires lo == |s| + k && k <= |t|
    ensures (s + t)[lo..] == t[k..]
  {
  }

  lemma SliceWhole<T>(s: seq<T>)
    ensures s[0..|s|] == s && s[0..] == s
  {
  }
}
