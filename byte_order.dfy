/** Byte-level vocabulary of the AIFF codec: fixed-width unsigned integers,
    the in-place byte reversal the C++ program calls `ntoh_base`, and the
    big-endian and little-endian readings of a byte sequence.

    The program copies wire bytes straight into an integer's storage and then
    reverses them; on the little-endian host it assumes, that makes every
    integer big-endian on the wire. This module states both readings and
    proves that "reverse, then read as little-endian" is "read as big-endian",
    so nothing below depends on the host's byte order. */
module ByteOrder {

  type byte = x: int | 0 <= x < 0x100
  type u16 = x: int | 0 <= x < 0x1_0000
  type u32 = x: int | 0 <= x < 0x1_0000_0000

  /** 2^32: the modulus of `uint32_t` arithmetic. */
  const U32_MOD: nat := 0x1_0000_0000

  /** The number of distinct values `w` bytes can hold. */
  function Pow256(w: nat): (p: nat)
    ensures p >= 1
  {
    if w == 0 then 1 else 0x100 * Pow256(w - 1)
  }

  lemma Pow256Widths()
    ensures Pow256(1) == 0x100 && Pow256(2) == 0x1_0000 && Pow256(4) == U32_MOD
  {
  }

  /** `s` back to front. */
  function Reversed<T>(s: seq<T>): seq<T>
  {
    seq(|s|, k requires 0 <= k < |s| => s[|s| - 1 - k])
  }

  /** Reading bytes as a number, least significant byte first: how the host
      interprets the storage of an integer. */
  function LeValue(s: seq<byte>): (v: nat)
    ensures v < Pow256(|s|)
  {
    if |s| == 0 then 0 else s[0] + 0x100 * LeValue(s[1..])
  }

  /** Reading bytes as a number, most significant byte first: the wire format. */
  function BeValue(s: seq<byte>): (v: nat)
    ensures v < Pow256(|s|)
  {
    if |s| == 0 then 0 else 0x100 * BeValue(s[..|s| - 1]) + s[|s| - 1]
  }

  /** The `w`-byte storage of `v` on a little-endian host. */
  function LeBytes(v: nat, w: nat): (s: seq<byte>)
    ensures |s| == w
  {
    if w == 0 then [] else [v % 0x100] + LeBytes(v / 0x100, w - 1)
  }

  /** The `w`-byte big-endian encoding of `v` (its low `w` bytes). */
  function BeBytes(v: nat, w: nat): (s: seq<byte>)
    ensures |s| == w
  {
    if w == 0 then [] else BeBytes(v / 0x100, w - 1) + [v % 0x100]
  }

  /** Reversing twice gives back the original bytes. */
  lemma ReversedTwice<T>(s: seq<T>)
    ensures Reversed(Reversed(s)) == s
  {
  }

  lemma ReversedCons<T>(x: T, s: seq<T>)
    ensures Reversed([x] + s) == Reversed(s) + [x]
  {
  }

  /** Swapping the bytes of a value and then reading them in host order
      is reading them in wire (big-endian) order. */
  lemma {:induction false} LeValueOfReversed(s: seq<byte>)
    ensures LeValue(Reversed(s)) == BeValue(s)
  {
    if |s| > 0 {
      var init, last := s[..|s| - 1], s[|s| - 1];
      assert s == init + [last];
      ReversedConsLast(init, last);
      assert Reversed(s) == [last] + Reversed(init);
      assert (Reversed(s))[1..] == Reversed(init);
      LeValueOfReversed(init);
    }
  }

  lemma ReversedConsLast<T>(s: seq<T>, x: T)
    ensures Reversed(s + [x]) == [x] + Reversed(s)
  {
  }

  /** Swapping the host storage of `v` gives its big-endian encoding. */
  lemma {:induction false} ReversedLeBytes(v: nat, w: nat)
    ensures Reversed(LeBytes(v, w)) == BeBytes(v, w)
  {
    if w > 0 {
      ReversedCons(v % 0x100, LeBytes(v / 0x100, w - 1));
      ReversedLeBytes(v / 0x100, w - 1);
    }
  }

  /** Decoding the big-endian encoding of a value that fits gives it back. */
  lemma {:induction false} BeValueOfBytes(v: nat, w: nat)
    requires v < Pow256(w)
    ensures BeValue(BeBytes(v, w)) == v
  {
    if w > 0 {
      var s := BeBytes(v, w);
      var q, r := v / 0x100, v % 0x100;
      assert q < Pow256(w - 1);
      assert s[..w - 1] == BeBytes(q, w - 1) && s[w - 1] == r;
      BeValueOfBytes(q, w - 1);
      assert BeValue(s) == 0x100 * q + r;
    }
  }

  /** Encoding the value of `|s|` big-endian bytes gives back those bytes. */
  lemma {:induction false} BeBytesOfValue(s: seq<byte>)
    ensures BeBytes(BeValue(s), |s|) == s
  {
    if |s| > 0 {
      var init := s[..|s| - 1];
      var v := BeValue(s);
      assert v / 0x100 == BeValue(init) && v % 0x100 == s[|s| - 1];
      BeBytesOfValue(init);
      assert s == init + [s[|s| - 1]];
    }
  }

  /** Two byte strings of the same width are equal exactly when their
      big-endian values are. */
  lemma BeValueInjective(s: seq<byte>, t: seq<byte>)
    requires |s| == |t|
    ensures BeValue(s) == BeValue(t) <==> s == t
  {
    BeBytesOfValue(s);
    BeBytesOfValue(t);
  }

  /** `ntoh_base`: reverses the first `len` bytes of `value` in place. */
  method ReverseBytes(value: array<byte>, len: nat)
    requires len <= value.Length
    modifies value
    ensures value[..] == Reversed(old(value[..len])) + old(value[len..])
  {
    var i := 0;
    while i < len / 2
      invariant 0 <= i <= len / 2
      invariant forall k :: 0 <= k < i ==> value[k] == old(value[len - 1 - k])
      invariant forall k :: len - i <= k < len ==> value[k] == old(value[len - 1 - k])
      invariant forall k :: i <= k < len - i ==> value[k] == old(value[k])
      invariant forall k :: len <= k < value.Length ==> value[k] == old(value[k])
    {
      var tmp := value[i];
      value[i] := value[len - 1 - i];
      value[len - 1 - i] := tmp;
      i := i + 1;
    }
    assert value[..] == Reversed(old(value[..len])) + old(value[len..]);
  }
}
