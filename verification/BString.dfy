/** The bstring: a byte buffer with a length and a capacity, changed in place. */
module BStrings {
  import opened Bytes
  import opened SnapUp

  /** t with blk inserted at pos; a gap past the end is filled. */
  function Inserted(t: seq<byte>, pos: nat, blk: seq<byte>, fill: byte): seq<byte> {
    if pos > |t| then t + Fill(fill, pos - |t|) + blk
    else t[..pos] + blk + t[pos..]
  }

  /** Byte by byte: the text before pos, the gap, the block, and the text after it. */
  lemma InsertedByte(t: seq<byte>, pos: nat, blk: seq<byte>, fill: byte, i: nat)
    requires i < (if pos > |t| then pos else |t|) + |blk|
    ensures var u, l := Inserted(t, pos, blk, fill), pos + |blk|;
            && |u| == (if pos > |t| then pos else |t|) + |blk|
            && u[i] == if pos <= i < l then blk[i - pos]
                       else if i >= l then t[i - |blk|]
                       else if i < |t| then t[i] else fill
  {
  }

  /** The part of [pos, pos + len) that lies inside a string of n bytes, as (start, end). */
  function Clamp(n: nat, pos: int, len: int): (r: (nat, nat))
    ensures r.0 <= r.1 <= n
  {
    var l := if pos < 0 then len + pos else len;
    var p := if pos < 0 then 0 else pos;
    if p >= n || l <= 0 then (0, 0) else (p, if p + l >= n then n else p + l)
  }

  /** The clamped section is what the two intervals have in common. */
  lemma ClampIsIntersection(n: nat, pos: int, len: int, i: int)
    ensures Clamp(n, pos, len).0 <= i < Clamp(n, pos, len).1 <==> 0 <= i < n && pos <= i < pos + len
  {
  }

  /** The length that bdelete and bmidstr go on with when the position is negative. */
  function Shifted(pos: cint, len: cint): cint {
    if pos < 0 then AsInt32(len + pos) else len
  }

  /** If that sum fits, what is left of the section is the section. */
  lemma ShiftedClamp(n: nat, pos: cint, len: cint)
    requires pos < 0 ==> INT_MIN <= len + pos
    ensures Shifted(pos, len) == if pos < 0 then len + pos else len
    ensures Clamp(n, if pos < 0 then 0 else pos, Shifted(pos, len)) == Clamp(n, pos, len)
  {
  }

  /** No sum in bdelete wraps to another `int`, or it is not looked at. */
  predicate DeleteFits(n: nat, pos: int, len: int) {
    && (pos < 0 ==> INT_MIN <= len + pos)
    && (0 < pos < n ==> pos + len <= INT_MAX)
  }

  /** What bdelete returns and the length it leaves, by the branches it takes. */
  function DeleteOutcome(n: nat, pos: cint, len: cint): (int, int) {
    var l, p := Shifted(pos, len), if pos < 0 then 0 else pos;
    if l < 0 then (BSTR_ERR, n)
    else if l == 0 || p >= n then (BSTR_OK, n)
    else if AsInt32(p + l) >= n then (BSTR_OK, p)
    else (BSTR_OK, n - l)
  }

  lemma OutcomeByClamp(n: nat, pos: cint, len: cint)
    requires n < INT_MAX && (0 < pos < n ==> pos + len <= INT_MAX)
    ensures var l, p := Shifted(pos, len), if pos < 0 then 0 else pos;
            var (from, to) := Clamp(n, p, l);
            DeleteOutcome(n, pos, len) == (if l < 0 then BSTR_ERR else BSTR_OK, n - (to - from))
  {
    hide AsInt32;
    var l, p := Shifted(pos, len), if pos < 0 then 0 else pos;
    if p < n && l > 0 {
      NoWrap(p + l);
    }
  }

  /** The branches remove the clamped section exactly when the sums fit. */
  lemma DeleteOutcomeExactly(n: nat, pos: cint, len: cint)
    requires n < INT_MAX
    ensures var (from, to) := Clamp(n, pos, len);
            DeleteOutcome(n, pos, len)
              == (if (if pos < 0 then len + pos else len) < 0 then BSTR_ERR else BSTR_OK, n - (to - from))
            <==> DeleteFits(n, pos, len)
  {
  }

  /** What is left of t without a clamped section. */
  ghost function Without(t: seq<byte>, pos: int, len: int): seq<byte> {
    var (from, to) := Clamp(|t|, pos, len);
    t[..from] + t[to..]
  }

  lemma WithoutClamped(t: seq<byte>, pos: nat, len: int)
    ensures Without(t, pos, len) == if pos >= |t| || len <= 0 then t
                                    else if pos + len >= |t| then t[..pos]
                                    else t[..pos] + t[pos + len..]
  {
  }

  lemma DeleteLayout(x: seq<byte>, n: nat, pos: nat, len: nat)
    requires pos + len <= n <= |x|
    ensures Spliced(x, pos, x[pos + len..n])[..n - len] == x[..n][..pos] + x[..n][pos + len..]
  {
  }

  /** Deleting from the second character on, with the largest length: the length turns negative. From far
      before the string, with a negative length, everything is deleted. */
  lemma DeleteOverflows()
    ensures !DeleteFits(3, 1, INT_MAX) && DeleteOutcome(3, 1, INT_MAX) == (BSTR_OK, 3 - INT_MAX)
    ensures !DeleteFits(3, INT_MIN, -1) && DeleteOutcome(3, INT_MIN, -1) == (BSTR_OK, 0)
  {
  }

  class BString {
    var data: array<byte>
    var slen: int
    var mlen: int
    /** How many bytes reallocation has moved over the life of this string. */
    ghost var copied: nat

    ghost predicate Valid()
      reads this
    {
      0 <= slen < mlen == data.Length <= INT_MAX
    }

    ghost function Contents(): seq<byte>
      requires Valid()
      reads this, data
    {
      data[..slen]
    }

    /** The byte after the contents is NUL, so C code can read the buffer as a C string. */
    ghost predicate Terminated()
      requires Valid()
      reads this, data
    {
      data[slen] == 0
    }

    /** blk2bstr, and bfromcstr on a string without NUL. */
    constructor FromBlk(blk: seq<byte>)
      requires |blk| < INT_MAX
      ensures Valid() && Terminated() && fresh(data)
      ensures Contents() == blk && copied == 0
      ensures mlen == SnapUpSize(if blk == [] then 2 else |blk| + 1)
    {
      var i := SnapUpSize(|blk| + (if blk != [] then 1 else 2));
      SnapUpEnough(|blk| + (if blk != [] then 1 else 2));
      SnapUpFits(|blk| + (if blk != [] then 1 else 2));
      data := new byte[i];
      slen, mlen, copied := |blk|, i, 0;
      new;
      MemCpy(data, 0, blk);
      data[|blk|] := 0;
    }

    /** A string around a block that is exactly full, as bjoinblk makes it. */
    constructor OfBlock(block: array<byte>)
      requires 0 < block.Length <= INT_MAX && block[block.Length - 1] == 0
      ensures Valid() && Terminated() && data == block && slen == block.Length - 1
    {
      data, slen, mlen, copied := block, block.Length - 1, block.Length, 0;
    }

    /** The bytes of a section. */
    method Slice(from: nat, to: nat) returns (s: seq<byte>)
      requires Valid() && from <= to <= slen
      ensures s == Contents()[from..to]
    {
      s := data[from..to];
      forall q | 0 <= q < to - from ensures s[q] == Contents()[from..to][q] {
        assert Contents()[from..to][q] == Contents()[from + q] == data[from + q];
      }
    }

    /** The capacity after a request for olen bytes. */
    static ghost function Grown(mlen: int, olen: int): int {
      if olen < mlen || SnapUpSize(olen) <= mlen then mlen else SnapUpSize(olen)
    }

    /** The bytes moved when a block of mlen bytes holding slen grows: realloc moves the block,
        otherwise only the contents are copied. */
    static ghost function MoveCost(mlen: nat, slen: nat): nat {
      if 7 * mlen < 8 * slen then mlen else slen
    }

    /** A request past INT_MAX has wrapped round to a negative `int` in its caller. */
    method Balloc(olen: int) returns (ret: int)
      requires Valid()
      modifies this
      ensures Valid() && slen == old(slen) && Contents() == old(Contents())
      ensures ret == if 0 < olen <= INT_MAX then BSTR_OK else BSTR_ERR
      ensures mlen == if ret == BSTR_OK then Grown(old(mlen), olen) else old(mlen)
      ensures ret == BSTR_OK ==> mlen >= olen
      ensures 0 < olen < 0x4000_0000 ==> mlen > olen
      ensures if mlen == old(mlen) then data == old(data) else fresh(data) && Terminated()
      ensures copied == old(copied) + if mlen == old(mlen) then 0 else MoveCost(old(mlen), slen)
      ensures mlen == if olen <= 0 || olen > INT_MAX || olen < old(mlen) || SnapUpSize(olen) <= old(mlen) then old(mlen)
                      else SnapUpSize(olen)
      ensures mlen != old(mlen) ==> copied - old(copied) == if 7 * old(mlen) < 8 * slen then old(mlen) else slen
    {
      hide SnapUpSize;
      if olen <= 0 || olen > INT_MAX {
        return BSTR_ERR;
      }
      SnapUpEnough(olen);
      SnapUpFits(olen);
      if olen >= mlen {
        var len := SnapUpSize(olen);
        if len <= mlen {
          return BSTR_OK;
        }
        Reallocate(len);
      }
      return BSTR_OK;
    }

    /** The contents move to a block of len bytes: with realloc, or copied to a new one. */
    method Reallocate(len: int)
      requires Valid() && mlen < len <= INT_MAX
      modifies this
      ensures Valid() && mlen == len && fresh(data) && Terminated()
      ensures slen == old(slen) && Contents() == old(Contents())
      ensures copied == old(copied) + MoveCost(old(mlen), slen)
    {
      hide Spliced;
      var x := new byte[len];
      ghost var y := x[..];
      if 7 * mlen < 8 * slen {
        MemCpy(x, 0, data[..mlen]);
        SplicedUpTo(y, 0, data[..mlen]);
        assert x[..slen] == x[..mlen][..slen];
        copied := copied + mlen;
      } else {
        MemCpy(x, 0, data[..slen]);
        SplicedUpTo(y, 0, data[..slen]);
        copied := copied + slen;
      }
      assert x[..slen] == data[..slen];
      data := x;
      mlen := len;
      data[slen] := 0;
    }

    /** bconcat. When the new length is INT_MAX the size of the request wraps, no room is made, and the
        copy does not fit (ConcatFits), so that one length is out. */
    method Bconcat(b1: seq<byte>) returns (ret: int)
      requires Valid() && |b1| <= INT_MAX && slen + |b1| != INT_MAX
      modifies this, data
      ensures Valid() && (data == old(data) || fresh(data))
      ensures ret == if old(slen) + |b1| < INT_MAX then BSTR_OK else BSTR_ERR
      ensures Contents() == if ret == BSTR_OK then old(Contents()) + b1 else old(Contents())
      ensures ret == BSTR_OK ==> Terminated()
      ensures mlen >= old(mlen)
    {
      hide AsInt32, Spliced, BString.Grown, BString.MoveCost, SnapUpSize;
      var d, len := slen, |b1|;
      ghost var t := Contents();
      if d + len > INT_MAX {
        WrapsNegative(d + len);
      } else {
        NoWrap(d + len);
      }
      if AsInt32(d + len) < 0 {
        return BSTR_ERR;
      }
      NoWrap(d + len + 1);
      if mlen <= AsInt32(d + len + 1) {
        var r := Balloc(d + len + 1);
        if r != BSTR_OK {
          return BSTR_ERR;
        }
      }
      ghost var x := data[..];
      MemCpy(data, d, b1);
      SplicedUpTo(x, d, b1);
      assert x[..d] == t;
      data[d + len] := 0;
      slen := d + len;
      return BSTR_OK;
    }

    /** bconchar. */
    method Bconchar(c: byte) returns (ret: int)
      requires Valid()
      modifies this, data
      ensures Valid() && (data == old(data) || fresh(data))
      ensures ret == if old(slen) + 2 <= INT_MAX then BSTR_OK else BSTR_ERR
      ensures Contents() == if ret == BSTR_OK then old(Contents()) + [c] else old(Contents())
      ensures ret == BSTR_OK ==> Terminated()
      ensures ret == BSTR_OK ==> (mlen, copied) == AfterAppend(old(mlen), old(copied), old(slen))
    {
      hide BString.Grown, BString.MoveCost, SnapUpSize;
      var d := slen;
      ret := Balloc(d + 2);
      if ret != BSTR_OK {
        return;
      }
      data[d] := c;
      data[d + 1] := 0;
      slen := slen + 1;
    }

    /** bdelete, with the sums as they wrap. From inside the string, a length for which the sum wraps
        leads outside the block and is out. */
    method Bdelete(pos: cint, len: cint) returns (ret: int)
      requires Valid() && (0 < pos < slen ==> pos + len <= INT_MAX)
      modifies this`slen, data
      ensures Valid() && (old(Terminated()) ==> Terminated())
      ensures ret == if Shifted(pos, len) < 0 then BSTR_ERR else BSTR_OK
      ensures var (from, to) := Clamp(old(slen), if pos < 0 then 0 else pos, Shifted(pos, len));
              Contents() == old(Contents())[..from] + old(Contents())[to..]
      ensures (ret, slen) == DeleteOutcome(old(slen), pos, len)
      ensures DeleteFits(old(slen), pos, len) ==>
                && ret == (if (if pos < 0 then len + pos else len) < 0 then BSTR_ERR else BSTR_OK)
                && var (from, to) := Clamp(old(slen), pos, len);
                   Contents() == old(Contents())[..from] + old(Contents())[to..]
    {
      hide AsInt32, Clamp, DeleteOutcome;
      OutcomeByClamp(slen, pos, len);
      if pos < 0 && INT_MIN <= len + pos {
        ShiftedClamp(slen, pos, len);
      }
      var pos, len := pos, len;
      if pos < 0 {
        len := AsInt32(len + pos);
        pos := 0;
      }
      ret := DeleteShifted(pos, len);
    }

    /** bdelete, once the position is not negative. */
    method DeleteShifted(pos: nat, len: cint) returns (ret: int)
      requires Valid() && pos <= INT_MAX && (0 < pos < slen ==> pos + len <= INT_MAX)
      modifies this`slen, data
      ensures Valid() && (old(Terminated()) ==> Terminated())
      ensures ret == if len < 0 then BSTR_ERR else BSTR_OK
      ensures Contents() == Without(old(Contents()), pos, len)
    {
      hide AsInt32, Without;
      WithoutClamped(Contents(), pos, len);
      if len < 0 {
        return BSTR_ERR;
      }
      if len > 0 && pos < slen {
        NoWrap(pos + len);
        if AsInt32(pos + len) >= slen {
          CutOff(pos);
        } else {
          CutOut(pos, len);
        }
        Terminate();
      }
      return BSTR_OK;
    }

    /** Everything from pos on goes. */
    method CutOff(pos: nat)
      requires Valid() && pos <= slen
      modifies this`slen
      ensures Valid() && slen == pos && Contents() == old(Contents())[..pos]
    {
      slen := pos;
    }

    /** The NUL after the contents. */
    method Terminate()
      requires Valid()
      modifies data
      ensures Terminated() && Contents() == old(Contents())
    {
      data[slen] := 0;
    }

    /** The section from pos on moves down. */
    method CutOut(pos: nat, len: nat)
      requires Valid() && pos + len <= slen
      modifies this`slen, data
      ensures Valid() && slen == old(slen) - len
      ensures Contents() == old(Contents())[..pos] + old(Contents())[pos + len..]
    {
      hide Spliced;
      DeleteLayout(data[..], slen, pos, len);
      MemMove(data, pos, pos + len, slen - (pos + len));
      slen := slen - len;
    }

    /** binsertblk. */
    method Binsertblk(pos: int, blk: seq<byte>, fill: byte) returns (ret: int)
      requires Valid()
      modifies this, data
      ensures Valid() && (data == old(data) || fresh(data))
      ensures ret == if pos >= 0 && pos + |blk| < INT_MAX && old(slen) + |blk| < INT_MAX
                     then BSTR_OK else BSTR_ERR
      ensures Contents() == if ret == BSTR_OK then Inserted(old(Contents()), pos, blk, fill)
                            else old(Contents())
      ensures ret == BSTR_OK ==> Terminated()
      ensures mlen >= old(mlen)
    {
      if pos < 0 {
        return BSTR_ERR;
      }
      var d, l := slen + |blk|, pos + |blk|;
      if d > INT_MAX || l > INT_MAX {
        return BSTR_ERR;
      }
      ret := Balloc((if l > d then l else d) + 1);
      if ret == BSTR_OK {
        InsertInPlace(pos, blk, fill);
      }
    }

    /** The part of binsertblk after both calls of balloc: there is room for the result. */
    method InsertInPlace(pos: nat, blk: seq<byte>, fill: byte)
      requires Valid() && pos + |blk| < mlen && slen + |blk| < mlen
      modifies this`slen, data
      ensures Valid() && Terminated()
      ensures Contents() == Inserted(old(Contents()), pos, blk, fill)
    {
      hide Spliced, Inserted;
      var d, l := slen + |blk|, pos + |blk|;
      ghost var x := data[..];
      if l > d {
        MemSet(data, slen, fill, pos - slen);
        slen := l;
      } else {
        MemMove(data, l, pos, d - l);
        assert pos + (d - l) == old(slen);
        slen := d;
      }
      ghost var y := data[..];
      MemCpy(data, pos, blk);
      InsertLayout(x, old(slen), pos, blk, fill, y);
      data[slen] := 0;
      assert data[..slen] == Spliced(y, pos, blk)[..slen];
    }
  }

  /** The bytes binsertblk leaves: y is the block after opening the hole. */
  lemma InsertLayout(x: seq<byte>, n: nat, pos: nat, blk: seq<byte>, fill: byte, y: seq<byte>)
    requires n + |blk| < |x| && pos + |blk| < |x|
    requires y == if pos > n then Spliced(x, n, Fill(fill, pos - n))
                  else Spliced(x, pos + |blk|, x[pos..n])
    ensures Spliced(y, pos, blk)[..(if pos > n then pos else n) + |blk|] == Inserted(x[..n], pos, blk, fill)
  {
    var l := pos + |blk|;
    if pos > n {
      assert y[..pos] == x[..n] + Fill(fill, pos - n);
    } else {
      assert y[..pos] == x[..pos];
      assert y[l..n + |blk|] == x[pos..n];
    }
  }

  /** bassign. The source must leave room for its NUL after balloc (AssignFits). */
  method Bassign(a: BString, b: seq<byte>) returns (ret: int)
    requires a.Valid() && |b| < INT_MAX && (|b| < a.mlen || |b| < 0x4000_0000)
    modifies a, a.data
    ensures a.Valid() && a.Terminated() && (a.data == old(a.data) || fresh(a.data))
    ensures ret == BSTR_OK && a.Contents() == b
  {
    hide SnapUpSize, BString.Grown, BString.MoveCost, Spliced;
    if |b| != 0 {
      AssignFits(a.mlen, |b|);
      ret := a.Balloc(|b|);
      SplicedUpTo(a.data[..], 0, b);
      MemCpy(a.data, 0, b);
      assert a.data[..|b|] == b;
    }
    a.data[|b|] := 0;
    a.slen := |b|;
    return BSTR_OK;
  }

  /** The request of bassign, which does not count the NUL, is answered with room for it exactly when
      there was room before or the size is still rounded up. */
  lemma AssignFits(mlen: nat, n: nat)
    requires 0 < n <= INT_MAX && 0 < mlen <= INT_MAX
    ensures BString.Grown(mlen, n) > n <==> n < mlen || n < 0x4000_0000
  {
    SnapUpEnough(n);
    if n >= 0x4000_0000 {
      SnapUpKeepsLarge(n);
    }
  }

  /** 2^30 bytes assigned to a string of the smallest capacity get a block of 2^30 bytes. */
  lemma AssignLeavesNoRoom()
    ensures BString.Grown(8, 0x4000_0000) == 0x4000_0000
  {
    SnapUpKeepsLarge(0x4000_0000);
  }

  /** The room bconcat has for its copy is enough exactly when the length with the NUL is an `int`. */
  lemma ConcatFits(mlen: nat, d: nat, len: nat)
    requires d < mlen <= INT_MAX && d + len <= INT_MAX
    ensures var room := if mlen <= AsInt32(d + len + 1) then BString.Grown(mlen, d + len + 1) else mlen;
            d + len < room <==> d + len < INT_MAX
  {
    hide AsInt32, SnapUpSize;
    if d + len < INT_MAX {
      NoWrap(d + len + 1);
      SnapUpEnough(d + len + 1);
    } else {
      WrapsNegative(d + len + 1);
    }
  }

  /** Two strings whose lengths add up to INT_MAX: no capacity of the first is enough for the copy. */
  lemma ConcatWraps(mlen: nat)
    requires 0x3fff_ffff < mlen <= INT_MAX
    ensures var d, len := 0x3fff_ffff, 0x4000_0000;
            var room := if mlen <= AsInt32(d + len + 1) then BString.Grown(mlen, d + len + 1) else mlen;
            d + len >= room
  {
    ConcatFits(mlen, 0x3fff_ffff, 0x4000_0000);
  }

  /** The length of the section bmidstr copies, by the branches it takes. */
  function MidLength(n: nat, left: cint, len: cint): int {
    var l, p := Shifted(left, len), if left < 0 then 0 else left;
    var m := if l > n - p then n - p else l;
    if m <= 0 then 0 else m
  }

  /** When the length of bmidstr is that of the clamped section. */
  predicate MidFits(n: nat, left: cint, len: cint) {
    (left < 0 ==> INT_MIN <= len + left) || n == 0 || (left == INT_MIN && len == INT_MIN)
  }

  /** It is that of the clamped section exactly when the sum fits, or nothing could be copied anyway. */
  lemma MidLengthExactly(n: nat, left: cint, len: cint)
    requires n < INT_MAX
    ensures var (from, to) := Clamp(n, left, len);
            MidLength(n, left, len) == to - from <==> MidFits(n, left, len)
  {
  }

  /** A section that ends before the string is copied from its front: the whole of it. */
  lemma MidWraps()
    ensures MidLength(3, INT_MIN, -1) == 3 && Clamp(3, INT_MIN, -1) == (0, 0)
  {
  }

  /** bmidstr: a new string with the clamped section of b, or what the wrapped sum makes of it. */
  method Bmidstr(b: BString, left: cint, len: cint) returns (r: BString)
    requires b.Valid()
    ensures fresh(r) && fresh(r.data) && r.Valid() && r.Terminated()
    ensures var m, p := MidLength(b.slen, left, len), if left < 0 then 0 else left;
            r.Contents() == if m == 0 then [] else b.Contents()[p..p + m]
    ensures MidFits(b.slen, left, len) ==>
              var (from, to) := Clamp(b.slen, left, len); r.Contents() == b.Contents()[from..to]
  {
    hide AsInt32;
    MidLengthExactly(b.slen, left, len);
    var left, len := left, len;
    if left < 0 {
      len := AsInt32(len + left);
      left := 0;
    }
    if len > b.slen - left {
      len := b.slen - left;
    }
    if len <= 0 {
      r := new BString.FromBlk([]);
    } else {
      var blk := b.Slice(left, left + len);
      r := new BString.FromBlk(blk);
    }
  }

  lemma InsertedInFront(t: seq<byte>, blk: seq<byte>, fill: byte)
    ensures Inserted(t, 0, blk, fill) == blk + t
  {
  }

  /** Deleting what was inserted gives the string back. */
  lemma InsertThenDelete(t: seq<byte>, pos: nat, blk: seq<byte>, fill: byte)
    requires pos <= |t|
    ensures var u := Inserted(t, pos, blk, fill);
            var (from, to) := Clamp(|u|, pos, |blk|);
            u[..from] + u[to..] == t
  {
    var u := Inserted(t, pos, blk, fill);
    var (from, to) := Clamp(|u|, pos, |blk|);
    if blk == [] {
      assert t[..pos] + blk + t[pos..] == t;
    } else {
      assert u[..from] == t[..pos] && u[to..] == t[pos..];
    }
  }

  // ---- what growing byte by byte costs ----

  /** The capacity and the bytes moved so far after one bconchar to a string of n bytes. */
  ghost function AfterAppend(mlen: nat, copied: nat, n: nat): (nat, nat) {
    var g := BString.Grown(mlen, n + 2);
    (g, copied + if g == mlen then 0 else BString.MoveCost(mlen, n))
  }

  /** The same after n appends to an empty string. */
  ghost function AfterAppends(n: nat): (nat, nat) {
    if n == 0 then (8, 0) else AfterAppend(AfterAppends(n - 1).0, AfterAppends(n - 1).1, n - 1)
  }

  const ROUNDED: nat := 0x4000_0000

  /** While capacities are rounded up, the blocks moved add up to 12 bytes less than the block in use,
      once it has 32 bytes. */
  ghost predicate Doubling(n: nat, mlen: nat, copied: nat) {
    && n < mlen <= ROUNDED && IsPow2(mlen) && (mlen == 8 || mlen <= 2 * (n + 1))
    && (mlen < ROUNDED ==> n + 2 <= mlen)
    && copied == (if mlen == 8 then 0 else if mlen == 16 then 6 else mlen - 12)
  }

  lemma DoublingStep(n: nat, mlen: nat, copied: nat)
    requires Doubling(n, mlen, copied) && mlen >= 8 && n + 1 < ROUNDED
    ensures var (m, c) := AfterAppend(mlen, copied, n); m >= 8 && Doubling(n + 1, m, c)
  {
    hide SnapUpSize;
    if n + 2 >= ROUNDED {
      SnapUpKeepsLarge(n + 2);
      var k: nat :| mlen == Pow2(k);
      assert mlen % 2 == 0;
    } else if n + 2 >= mlen {
      SnapUpDoubles(mlen, n + 2);
      if mlen > 8 { AfterEight(mlen); }
    }
  }

  lemma AfterEight(q: nat)
    requires IsPow2(q) && q > 8
    ensures q >= 16
  {
    assert 8 == Pow2(3);
    SnapUpDoubles(8, 8);
    SnapUpIsLeastPow2(8);
  }

  lemma {:induction false} DoublingUntil(n: nat)
    requires n < ROUNDED
    ensures var (m, c) := AfterAppends(n); m >= 8 && Doubling(n, m, c)
  {
    if n == 0 {
      assert Pow2(3) == 8;
    } else {
      DoublingUntil(n - 1);
      DoublingStep(n - 1, AfterAppends(n - 1).0, AfterAppends(n - 1).1);
    }
  }

  /** From 2^30 bytes on every append moves the whole block. */
  lemma {:induction false} EveryAppendMoves(n: nat)
    requires ROUNDED <= n < INT_MAX
    ensures AfterAppends(n).0 == n + 1
    ensures AfterAppends(n).1 == n + if n == ROUNDED then ROUNDED - 12 else AfterAppends(n - 1).1
  {
    SnapUpKeepsLarge(n + 1);
    if n == ROUNDED {
      DoublingUntil(n - 1);
    } else {
      EveryAppendMoves(n - 1);
    }
  }

  /** n appends to an empty string move fewer than 2(n + 2) bytes exactly as long as n is at most 2^30. */
  lemma {:induction false} AmortisedExactly(n: nat)
    requires n < INT_MAX
    ensures AfterAppends(n).1 < 2 * (n + 2) <==> n <= ROUNDED
  {
    if n < ROUNDED {
      DoublingUntil(n);
    } else {
      EveryAppendMoves(n);
      if n > ROUNDED {
        EveryAppendMoves(n - 1);
        AmortisedExactly(n - 1);
      }
    }
  }

  /** The first number of appends at which the bound fails, and by how much. */
  lemma BoundFailsFirst()
    ensures AfterAppends(ROUNDED + 1).1 == 2 * (ROUNDED + 3) + (ROUNDED - 17)
    ensures AfterAppends(ROUNDED).1 < 2 * (ROUNDED + 2)
  {
    EveryAppendMoves(ROUNDED);
    EveryAppendMoves(ROUNDED + 1);
  }

  /** bconchar over and over. */
  method AppendEach(cs: seq<byte>) returns (b: BString)
    requires |cs| < INT_MAX
    ensures fresh(b) && b.Valid() && b.Terminated() && b.Contents() == cs
    ensures (b.mlen, b.copied) == AfterAppends(|cs|)
    ensures b.copied < 2 * (|cs| + 2) <==> |cs| <= 0x4000_0000
  {
    b := new BString.FromBlk([]);
    for i := 0 to |cs|
      invariant fresh(b) && fresh(b.data) && b.Valid() && b.Terminated()
      invariant b.Contents() == cs[..i] && (b.mlen, b.copied) == AfterAppends(i)
    {
      var ret := b.Bconchar(cs[i]);
    }
    AmortisedExactly(|cs|);
  }
}
