/** Bytes, the integer constants of the C code, and the block moves of <string.h>. */
module Bytes {
  newtype byte = x: int | 0 <= x < 256

  const BSTR_OK: int := 0
  const BSTR_ERR: int := -1
  const INT_MIN: int := -0x8000_0000
  const INT_MAX: int := 0x7fff_ffff

  /** The values of a C `int`. */
  type cint = x: int | INT_MIN <= x <= INT_MAX

  /** tolower of the C locale. */
  function Downcase(c: byte): byte {
    if 65 <= c <= 90 then c + 32 else c
  }

  /** Two bytes are the same up to case exactly when they are equal or the two forms of one letter. */
  lemma SameUpToCase(a: byte, b: byte)
    ensures Downcase(a) == Downcase(b) <==> a == b || TwoForms(a, b) || TwoForms(b, a)
  {
  }

  /** a is a capital letter and b the small one. */
  predicate TwoForms(a: byte, b: byte) {
    65 <= a <= 90 && b as int == a as int + 32
  }

  /** The value of a byte read through a signed `char`. */
  function Signed(c: byte): (v: int)
    ensures -128 <= v < 128 && (v == c as int || v == c as int - 256)
  {
    if c < 128 then c as int else c as int - 256
  }

  /** x with s written over it from dst on. */
  function Spliced(x: seq<byte>, dst: nat, s: seq<byte>): (r: seq<byte>)
    requires dst + |s| <= |x|
    ensures |r| == |x|
  {
    x[..dst] + s + x[dst + |s|..]
  }

  /** Writing bytes over themselves, or no bytes at all, changes nothing. */
  lemma SplicedSame(x: seq<byte>, dst: nat, s: seq<byte>)
    requires dst + |s| <= |x| && x[dst..dst + |s|] == s
    ensures Spliced(x, dst, s) == x
  {
  }

  /** Up to the end of what was written. */
  lemma SplicedUpTo(x: seq<byte>, dst: nat, s: seq<byte>)
    requires dst + |s| <= |x|
    ensures Spliced(x, dst, s)[..dst + |s|] == x[..dst] + s
  {
  }

  /** What lies before or after it stays. */
  lemma SplicedApart(x: seq<byte>, dst: nat, s: seq<byte>, i: nat, j: nat)
    requires dst + |s| <= |x| && i <= j <= |x| && (j <= dst || dst + |s| <= i)
    ensures Spliced(x, dst, s)[i..j] == x[i..j]
  {
  }

  lemma SplicedBefore(x: seq<byte>, dst: nat, s: seq<byte>, m: nat)
    requires m <= dst && dst + |s| <= |x|
    ensures Spliced(x, dst, s)[..m] == x[..m]
  {
  }

  lemma SplicedPrefix(x: seq<byte>, dst: nat, s: seq<byte>, n: nat)
    requires dst + |s| <= n <= |x|
    ensures Spliced(x, dst, s)[..n] == Spliced(x[..n], dst, s)
  {
  }

  /** memmove inside one block: the source and the destination may overlap. */
  method MemMove(a: array<byte>, dst: nat, src: nat, n: nat)
    requires dst + n <= a.Length && src + n <= a.Length
    modifies a
    ensures a[..] == Spliced(old(a[..]), dst, old(a[..])[src..src + n])
  {
    forall k | 0 <= k < n {
      a[dst + k] := a[src + k];
    }
  }

  /** memcpy of a block that does not overlap the destination. */
  method MemCpy(a: array<byte>, dst: nat, src: seq<byte>)
    requires dst + |src| <= a.Length
    modifies a
    ensures a[..] == Spliced(old(a[..]), dst, src)
  {
    forall k | 0 <= k < |src| {
      a[dst + k] := src[k];
    }
  }

  method MemSet(a: array<byte>, dst: nat, c: byte, n: nat)
    requires dst + n <= a.Length
    modifies a
    ensures a[..] == Spliced(old(a[..]), dst, Fill(c, n))
  {
    forall k | 0 <= k < n {
      a[dst + k] := c;
    }
  }

  /** n copies of one byte. */
  function Fill(c: byte, n: nat): (s: seq<byte>)
    ensures |s| == n && forall k :: 0 <= k < n ==> s[k] == c
  {
    seq(n, _ => c)
  }

  lemma ConcatAssoc(a: seq<byte>, b: seq<byte>, c: seq<byte>)
    ensures a + b + c == a + (b + c)
  {
  }

  lemma ConcatAssoc4(a: seq<byte>, b: seq<byte>, c: seq<byte>, d: seq<byte>)
    ensures a + b + c + d == a + (b + c + d)
  {
  }
}
