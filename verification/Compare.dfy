/** bstrcmp and bstricmp, and the orders they define. */
module Compare {
  import opened Bytes
  import opened BStrings

  // ---- an order on sequences of ranks, in which the end of a sequence has rank 0 ----

  function At(x: seq<int>, i: nat): int {
    if i < |x| then x[i] else 0
  }

  /** x and y agree before d and x is smaller there. */
  ghost predicate LessAt(x: seq<int>, y: seq<int>, d: nat) {
    At(x, d) < At(y, d) && forall j: nat :: j < d ==> At(x, j) == At(y, j)
  }

  ghost predicate Less(x: seq<int>, y: seq<int>) {
    exists d: nat :: LessAt(x, y, d)
  }

  lemma LessIsTransitive(x: seq<int>, y: seq<int>, z: seq<int>)
    requires Less(x, y) && Less(y, z)
    ensures Less(x, z)
  {
    var d: nat :| LessAt(x, y, d);
    var e: nat :| LessAt(y, z, e);
    assert LessAt(x, z, if d < e then d else e);
  }

  lemma LessIsAsymmetric(x: seq<int>, y: seq<int>)
    requires Less(x, y)
    ensures !Less(y, x) && x != y
  {
    var d: nat :| LessAt(x, y, d);
    forall e: nat ensures !LessAt(y, x, e) {
      assert if e < d then At(x, e) == At(y, e) else At(x, d) != At(y, d);
    }
  }

  // ---- bstricmp ----

  /** bstricmp from index i on. */
  function StrICmp(a: seq<byte>, b: seq<byte>, i: nat): int
    requires i <= |a| && i <= |b|
    decreases |a| - i
  {
    if i < |a| && i < |b| then
      var v := Signed(Downcase(a[i])) - Signed(Downcase(b[i]));
      if v != 0 then v else StrICmp(a, b, i + 1)
    else if i < |a| then
      var v := Signed(Downcase(a[i]));
      if v != 0 then v else 256
    else if i < |b| then
      var v := -Signed(Downcase(b[i]));
      if v != 0 then v else -256
    else 0
  }

  method Bstricmp(b0: BString, b1: BString) returns (r: int)
    requires b0.Valid() && b1.Valid()
    ensures r == StrICmp(b0.Contents(), b1.Contents(), 0)
  {
    ghost var a, b := b0.Contents(), b1.Contents();
    var n := b0.slen;
    if n > b1.slen {
      n := b1.slen;
    } else if b0.slen == b1.slen && b0.data == b1.data {
      StrICmpSame(a, 0);
      return BSTR_OK;
    }
    var i := 0;
    while i < n
      invariant 0 <= i <= n && StrICmp(a, b, 0) == StrICmp(a, b, i)
    {
      var v := Signed(Downcase(b0.data[i])) - Signed(Downcase(b1.data[i]));
      if v != 0 {
        return v;
      }
      i := i + 1;
    }
    if b0.slen > n {
      var v := Signed(Downcase(b0.data[n]));
      return if v != 0 then v else 256;
    }
    if b1.slen > n {
      var v := -Signed(Downcase(b1.data[n]));
      return if v != 0 then v else -256;
    }
    return BSTR_OK;
  }

  lemma {:induction false} StrICmpSame(a: seq<byte>, i: nat)
    requires i <= |a|
    ensures StrICmp(a, a, i) == 0
    decreases |a| - i
  {
    if i == |a| {
    } else {
      StrICmpSame(a, i + 1);
    }
  }

  /** The value returned: up to d the strings are the same but for case, and d is where they differ or the
      first of them ends. */
  lemma {:induction false} StrICmpValue(a: seq<byte>, b: seq<byte>, i: nat, d: nat)
    requires i <= d <= |a| && d <= |b|
    requires forall j :: i <= j < d ==> Downcase(a[j]) == Downcase(b[j])
    requires d == |a| || d == |b| || Downcase(a[d]) != Downcase(b[d])
    ensures StrICmp(a, b, i)
         == if d < |a| && d < |b| then Signed(Downcase(a[d])) - Signed(Downcase(b[d]))
            else if d < |a| then (if a[d] == 0 then 256 else Signed(Downcase(a[d])))
            else if d < |b| then (if b[d] == 0 then -256 else -Signed(Downcase(b[d])))
            else 0
    decreases d - i
  {
    if i == d {
    } else {
      StrICmpValue(a, b, i + 1, d);
    }
  }

  /** A byte by its value as a signed char after downcasing; 0 is left free for the end of the string,
      which so comes after the negative ones and just before NUL. */
  function IRank(c: byte): (r: int)
    ensures r != 0
  {
    var v := Signed(Downcase(c));
    if v < 0 then v else v + 1
  }

  function IRanks(a: seq<byte>): (x: seq<int>)
    ensures |x| == |a| && forall i :: 0 <= i < |a| ==> x[i] == IRank(a[i])
  {
    seq(|a|, i requires 0 <= i < |a| => IRank(a[i]))
  }

  function Downcased(a: seq<byte>): (x: seq<byte>)
    ensures |x| == |a| && forall i :: 0 <= i < |a| ==> x[i] == Downcase(a[i])
  {
    seq(|a|, i requires 0 <= i < |a| => Downcase(a[i]))
  }

  /** The sign of bstricmp is decided at the first place where the ranks differ. */
  lemma {:induction false} StrICmpDecides(a: seq<byte>, b: seq<byte>, i: nat)
    requires i <= |a| && i <= |b|
    requires forall j: nat :: j < i ==> At(IRanks(a), j) == At(IRanks(b), j)
    ensures StrICmp(a, b, i) < 0 ==> Less(IRanks(a), IRanks(b))
    ensures StrICmp(a, b, i) > 0 ==> Less(IRanks(b), IRanks(a))
    ensures StrICmp(a, b, i) == 0 ==> IRanks(a) == IRanks(b)
    decreases |a| - i
  {
    var x, y := IRanks(a), IRanks(b);
    if i < |a| && i < |b| && Signed(Downcase(a[i])) == Signed(Downcase(b[i])) {
      StrICmpDecides(a, b, i + 1);
    } else if i == |a| == |b| {
      forall j | 0 <= j < |x| ensures x[j] == y[j] {
        assert At(x, j) == At(y, j);
      }
    } else {
      assert LessAt(x, y, i) || LessAt(y, x, i);
    }
  }

  lemma RanksAreLetters(a: seq<byte>, b: seq<byte>)
    ensures IRanks(a) == IRanks(b) <==> Downcased(a) == Downcased(b)
  {
    if IRanks(a) == IRanks(b) {
      forall i | 0 <= i < |a| ensures Downcased(a)[i] == Downcased(b)[i] {
        assert IRanks(a)[i] == IRanks(b)[i];
      }
    } else if |a| == |b| {
      var i :| 0 <= i < |a| && IRanks(a)[i] != IRanks(b)[i];
      assert Downcased(a)[i] != Downcased(b)[i];
    }
  }

  /** bstricmp is the order of the ranks, exactly. */
  lemma StrICmpIsTheOrder(a: seq<byte>, b: seq<byte>)
    ensures StrICmp(a, b, 0) < 0 <==> Less(IRanks(a), IRanks(b))
    ensures StrICmp(a, b, 0) > 0 <==> Less(IRanks(b), IRanks(a))
    ensures StrICmp(a, b, 0) == 0 <==> Downcased(a) == Downcased(b)
  {
    hide StrICmp, Less;
    StrICmpDecides(a, b, 0);
    RanksAreLetters(a, b);
    if Less(IRanks(a), IRanks(b)) { LessIsAsymmetric(IRanks(a), IRanks(b)); }
    if Less(IRanks(b), IRanks(a)) { LessIsAsymmetric(IRanks(b), IRanks(a)); }
  }

  /** A total order up to case: antisymmetric, transitive, and equal exactly on strings that are the
      same but for case. */
  lemma StrICmpIsTotalOrder(a: seq<byte>, b: seq<byte>, c: seq<byte>)
    ensures StrICmp(a, b, 0) == 0 <==> Downcased(a) == Downcased(b)
    ensures StrICmp(a, b, 0) < 0 <==> StrICmp(b, a, 0) > 0
    ensures StrICmp(a, b, 0) <= 0 && StrICmp(b, c, 0) <= 0 ==> StrICmp(a, c, 0) <= 0
    ensures StrICmp(a, b, 0) < 0 && StrICmp(b, c, 0) <= 0 ==> StrICmp(a, c, 0) < 0
  {
    hide StrICmp, Less;
    StrICmpIsTheOrder(a, b);
    StrICmpIsTheOrder(b, a);
    StrICmpIsTheOrder(b, c);
    StrICmpIsTheOrder(a, c);
    RanksAreLetters(a, b);
    RanksAreLetters(b, c);
    if Less(IRanks(a), IRanks(b)) && Less(IRanks(b), IRanks(c)) {
      LessIsTransitive(IRanks(a), IRanks(b), IRanks(c));
    }
  }

  // ---- bstrcmp ----

  /** bstrcmp from index i on: the comparison does not go past a NUL. */
  function StrCmp(a: seq<byte>, b: seq<byte>, i: nat): int
    requires i <= |a| && i <= |b|
    decreases |a| - i
  {
    if i < |a| && i < |b| then
      var v := Signed(a[i]) - Signed(b[i]);
      if v != 0 then v
      else if a[i] == 0 then 0
      else StrCmp(a, b, i + 1)
    else if i < |a| then 1
    else if i < |b| then -1
    else 0
  }

  method Bstrcmp(b0: BString, b1: BString) returns (r: int)
    requires b0.Valid() && b1.Valid()
    ensures r == StrCmp(b0.Contents(), b1.Contents(), 0)
  {
    ghost var a, b := b0.Contents(), b1.Contents();
    var n := b0.slen;
    if n > b1.slen {
      n := b1.slen;
    }
    if b0.slen == b1.slen && (b0.data == b1.data || b0.slen == 0) {
      StrCmpSame(a, 0);
      assert a == b;
      return BSTR_OK;
    }
    var i := 0;
    while i < n
      invariant 0 <= i <= n && StrCmp(a, b, 0) == StrCmp(a, b, i)
    {
      var v := Signed(b0.data[i]) - Signed(b1.data[i]);
      if v != 0 {
        return v;
      }
      if b0.data[i] == 0 {
        return BSTR_OK;
      }
      i := i + 1;
    }
    if b0.slen > n {
      return 1;
    }
    if b1.slen > n {
      return -1;
    }
    return BSTR_OK;
  }

  lemma {:induction false} StrCmpSame(a: seq<byte>, i: nat)
    requires i <= |a|
    ensures StrCmp(a, a, i) == 0
    decreases |a| - i
  {
    if i == |a| {
    } else {
      StrCmpSame(a, i + 1);
    }
  }

  /** The value returned: up to d the strings are the same and hold no NUL, and d is where they differ or
      hold a NUL, or the first of them ends. */
  lemma {:induction false} StrCmpValue(a: seq<byte>, b: seq<byte>, i: nat, d: nat)
    requires i <= d <= |a| && d <= |b|
    requires forall j :: i <= j < d ==> a[j] == b[j] != 0
    requires d == |a| || d == |b| || a[d] != b[d] || a[d] == 0
    ensures StrCmp(a, b, i)
         == if d < |a| && d < |b| then Signed(a[d]) - Signed(b[d])
            else if d < |a| then 1
            else if d < |b| then -1
            else 0
    decreases d - i
  {
    if i == d {
    } else {
      StrCmpValue(a, b, i + 1, d);
    }
  }

  /** The part of a string bstrcmp looks at: up to and including the first NUL. */
  function UpToNul(a: seq<byte>): seq<byte> {
    if a == [] then [] else if a[0] == 0 then [a[0]] else [a[0]] + UpToNul(a[1..])
  }

  /** Ranks for bstrcmp, in which the end comes before every byte. */
  function CRanks(a: seq<byte>): (x: seq<int>)
    ensures |x| == |a| && forall i :: 0 <= i < |a| ==> x[i] == Signed(a[i]) + 129
  {
    seq(|a|, i requires 0 <= i < |a| => Signed(a[i]) + 129)
  }

  /** Bytes compared with 0 after the end decide it like bstrcmp, one byte at a time. */
  lemma {:induction false} StrCmpDecides(a: seq<byte>, b: seq<byte>, i: nat)
    requires i <= |a| && i <= |b|
    ensures StrCmp(a, b, i) < 0 ==> Less(CRanks(UpToNul(a[i..])), CRanks(UpToNul(b[i..])))
    ensures StrCmp(a, b, i) > 0 ==> Less(CRanks(UpToNul(b[i..])), CRanks(UpToNul(a[i..])))
    ensures StrCmp(a, b, i) == 0 ==> UpToNul(a[i..]) == UpToNul(b[i..])
    decreases |a| - i
  {
    var u, w := UpToNul(a[i..]), UpToNul(b[i..]);
    if i < |a| && i < |b| && a[i] == b[i] != 0 {
      StrCmpDecides(a, b, i + 1);
      assert a[i..][1..] == a[i + 1..] && b[i..][1..] == b[i + 1..];
      var u', w' := UpToNul(a[i + 1..]), UpToNul(b[i + 1..]);
      assert u == [a[i]] + u' && w == [a[i]] + w';
      if Less(CRanks(u'), CRanks(w')) { LessCons(a[i], u', w'); }
      if Less(CRanks(w'), CRanks(u')) { LessCons(a[i], w', u'); }
    } else if i < |a| && i < |b| && a[i] == b[i] {
    } else if i == |a| == |b| {
    } else {
      assert LessAt(CRanks(u), CRanks(w), 0) || LessAt(CRanks(w), CRanks(u), 0);
    }
  }

  lemma LessCons(c: byte, u: seq<byte>, w: seq<byte>)
    requires Less(CRanks(u), CRanks(w))
    ensures Less(CRanks([c] + u), CRanks([c] + w))
  {
    var d: nat :| LessAt(CRanks(u), CRanks(w), d);
    var x, y := CRanks([c] + u), CRanks([c] + w);
    forall j: nat | j < d + 1 ensures At(x, j) == At(y, j) {
      if j > 0 {
        assert At(CRanks(u), j - 1) == At(CRanks(w), j - 1);
      }
    }
    assert LessAt(x, y, d + 1);
  }

  /** bstrcmp is 0 exactly when the two strings are the same up to and including the first NUL. */
  lemma StrCmpZero(a: seq<byte>, b: seq<byte>)
    ensures StrCmp(a, b, 0) == 0 <==> UpToNul(a) == UpToNul(b)
    ensures StrCmp(a, b, 0) < 0 <==> Less(CRanks(UpToNul(a)), CRanks(UpToNul(b)))
    ensures StrCmp(a, b, 0) > 0 <==> Less(CRanks(UpToNul(b)), CRanks(UpToNul(a)))
  {
    hide StrCmp, Less, UpToNul;
    StrCmpDecides(a, b, 0);
    assert a[0..] == a && b[0..] == b;
    var x, y := CRanks(UpToNul(a)), CRanks(UpToNul(b));
    if Less(x, y) { LessIsAsymmetric(x, y); }
    if Less(y, x) { LessIsAsymmetric(y, x); }
  }

  /** A total order on strings up to their first NUL. */
  lemma StrCmpIsTotalOrder(a: seq<byte>, b: seq<byte>, c: seq<byte>)
    ensures StrCmp(a, b, 0) == 0 <==> UpToNul(a) == UpToNul(b)
    ensures StrCmp(a, b, 0) < 0 <==> StrCmp(b, a, 0) > 0
    ensures StrCmp(a, b, 0) <= 0 && StrCmp(b, c, 0) <= 0 ==> StrCmp(a, c, 0) <= 0
    ensures StrCmp(a, b, 0) < 0 && StrCmp(b, c, 0) <= 0 ==> StrCmp(a, c, 0) < 0
  {
    hide StrCmp, Less, UpToNul;
    StrCmpZero(a, b);
    StrCmpZero(b, a);
    StrCmpZero(b, c);
    StrCmpZero(a, c);
    var x, y, z := CRanks(UpToNul(a)), CRanks(UpToNul(b)), CRanks(UpToNul(c));
    if Less(x, y) { LessIsAsymmetric(x, y); }
    if Less(x, y) && Less(y, z) {
      LessIsTransitive(x, y, z);
    }
  }

  /** Two strings that differ only after a NUL. */
  lemma StrCmpStopsAtNul()
    ensures StrCmp([0, 65], [0, 66], 0) == 0
  {
  }

  ghost predicate NulFree(a: seq<byte>) {
    forall i :: 0 <= i < |a| ==> a[i] != 0
  }

  lemma {:induction false} UpToNulOfNulFree(a: seq<byte>)
    requires NulFree(a)
    ensures UpToNul(a) == a
  {
    if a == [] {
    } else {
      UpToNulOfNulFree(a[1..]);
    }
  }

  lemma {:induction false} NulFreeUpTo(a: seq<byte>)
    requires NulFree(UpToNul(a))
    ensures UpToNul(a) == a
  {
    if a == [] {
    } else {
      assert UpToNul(a)[0] == a[0];
      assert UpToNul(a)[1..] == UpToNul(a[1..]);
      NulFreeUpTo(a[1..]);
    }
  }

  /** Against a string without NUL, bstrcmp is 0 only for the same string. */
  lemma StrCmpNulFree(a: seq<byte>, b: seq<byte>)
    requires NulFree(b)
    ensures StrCmp(a, b, 0) == 0 <==> a == b
  {
    hide StrCmp, UpToNul;
    StrCmpZero(a, b);
    UpToNulOfNulFree(b);
    if UpToNul(a) == b {
      NulFreeUpTo(a);
    }
  }
}
