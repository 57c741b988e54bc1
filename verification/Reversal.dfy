/** Reversing a string in place: strReverse and the last loop of itoa in src/util/stringops.h. */
module Reversal {

  function Reversed<T>(s: seq<T>): (r: seq<T>)
    ensures |r| == |s| && forall i :: 0 <= i < |s| ==> r[i] == s[|s| - 1 - i]
  {
    seq(|s|, i requires 0 <= i < |s| => s[|s| - 1 - i])
  }

  lemma {:induction false} ReversedTwice<T>(s: seq<T>)
    ensures Reversed(Reversed(s)) == s
  {
  }

  lemma {:induction false} ReversedConcat<T>(s: seq<T>, t: seq<T>)
    ensures Reversed(s + t) == Reversed(t) + Reversed(s)
  {
  }

  /** A C char, as the bits that ^ works on. */
  datatype Byte = Byte(bits: bv8)

  function Xor(x: Byte, y: Byte): Byte {
    Byte(x.bits ^ y.bits)
  }

  lemma {:induction false} XorCancels(x: Byte, y: Byte)
    ensures Xor(y, Xor(x, y)) == x && Xor(Xor(x, y), x) == y
  {
  }

  /** XOR_SWAP on two different bytes exchanges them. */
  method XorSwap(str: array<Byte>, i: nat, j: nat)
    requires i < str.Length && j < str.Length && i != j
    modifies str
    ensures str[i] == old(str[j]) && str[j] == old(str[i])
    ensures forall k :: 0 <= k < str.Length && k != i && k != j ==> str[k] == old(str[k])
  {
    XorCancels(str[i], str[j]);
    str[i] := Xor(str[i], str[j]);
    str[j] := Xor(str[j], str[i]);
    str[i] := Xor(str[i], str[j]);
  }

  /** The array holds the bytes before the NUL; the C code needs at least one of them. */
  method StrReverse(str: array<Byte>)
    requires str.Length > 0
    modifies str
    ensures str[..] == Reversed(old(str[..]))
  {
    var start, end := 0, str.Length - 1;
    while start < end
      invariant 0 <= start <= end + 1 && start + end == str.Length - 1
      invariant forall k :: 0 <= k < start ==> str[k] == old(str[str.Length - 1 - k])
      invariant forall k :: end < k < str.Length ==> str[k] == old(str[str.Length - 1 - k])
      invariant forall k :: start <= k <= end ==> str[k] == old(str[k])
    {
      XorSwap(str, start, end);
      start := start + 1;
      end := end - 1;
    }
  }

  /** The temp-variable loop of itoa, on the first n characters of a buffer. */
  method SwapEnds(str: array<char>, n: nat)
    requires 0 < n <= str.Length
    modifies str
    ensures str[..n] == Reversed(old(str[..n]))
  {
    var p, q := 0, n - 1;
    while p < q
      invariant 0 <= p <= q + 1 && p + q == n - 1
      invariant forall k :: 0 <= k < p || q < k < n ==> str[k] == old(str[n - 1 - k])
      invariant forall k :: p <= k <= q ==> str[k] == old(str[k])
    {
      var c := str[p];
      str[p] := str[q];
      str[q] := c;
      p := p + 1;
      q := q - 1;
    }
  }
}
