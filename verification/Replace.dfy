/** findreplaceengine: three in-place algorithms and the one replacement they all perform. */
module Replace {
  import opened Bytes
  import opened SnapUp
  import opened BStrings
  import opened Search

  /** t from pos on with every leftmost non-overlapping match of f replaced by r. */
  function ReplaceFrom(k: Sameness, t: seq<byte>, pos: nat, f: seq<byte>, r: seq<byte>): seq<byte>
    requires |f| > 0 && pos <= |t|
    decreases |t| - pos
  {
    var m := FirstMatch(k, t, pos, f);
    if m == BSTR_ERR then t[pos..]
    else t[pos..m] + r + ReplaceFrom(k, t, m + |f|, f, r)
  }

  function Replaced(k: Sameness, t: seq<byte>, pos: nat, f: seq<byte>, r: seq<byte>): seq<byte>
    requires |f| > 0
  {
    if pos > |t| then t else t[..pos] + ReplaceFrom(k, t, pos, f, r)
  }

  /** The places of the matches that are replaced. */
  function Matches(k: Sameness, t: seq<byte>, pos: nat, f: seq<byte>): seq<int>
    requires |f| > 0
    decreases |t| - pos
  {
    var m := FirstMatch(k, t, pos, f);
    if m == BSTR_ERR then [] else [m] + Matches(k, t, m + |f|, f)
  }

  // ---- what a replacement is, without reference to an order of searching ----

  /** ms are occurrences of f in t from pos on, in order and disjoint, and every other occurrence
      from pos on begins inside one of them. */
  ghost predicate Leftmost(k: Sameness, t: seq<byte>, pos: nat, f: seq<byte>, ms: seq<int>) {
    && (forall x :: 0 <= x < |ms| ==> pos <= ms[x] && MatchAt(k, t, ms[x], f))
    && (forall x, y :: 0 <= x < y < |ms| ==> ms[x] + |f| <= ms[y])
    && (forall q :: pos <= q && MatchAt(k, t, q, f) ==>
          Inside(ms, |f|, q))
  }

  /** q lies in one of the blocks of n bytes that begin at ms. */
  ghost predicate Inside(ms: seq<int>, n: nat, q: int) {
    ms != [] && (ms[0] <= q < ms[0] + n || Inside(ms[1..], n, q))
  }

  /** t from pos on with the n bytes at each of ms exchanged for r. */
  ghost function Stitch(t: seq<byte>, pos: nat, ms: seq<int>, n: nat, r: seq<byte>): seq<byte>
    requires pos <= |t|
    requires forall x :: 0 <= x < |ms| ==> pos <= ms[x] && ms[x] + n <= |t|
    requires forall x, y :: 0 <= x < y < |ms| ==> ms[x] + n <= ms[y]
    decreases |ms|
  {
    if ms == [] then t[pos..]
    else t[pos..ms[0]] + r + Stitch(t, ms[0] + n, ms[1..], n, r)
  }

  /** How far the text after x replacements has moved, when each moves it by g. */
  function Moved(x: nat, g: int): (d: int)
    ensures d == x * g
  {
    if x == 0 then 0
    else
      Distribute(x - 1, g);
      Moved(x - 1, g) + g
  }

  /** A section of t stands in u at a, and if more follows, r comes after it. */
  ghost predicate Stands(t: seq<byte>, from: int, to: int, u: seq<byte>, a: int, r: seq<byte>, more: bool) {
    && 0 <= from <= to <= |t| && 0 <= a && a + (to - from) <= |u|
    && u[a..a + (to - from)] == t[from..to]
    && (more ==> a + (to - from) + |r| <= |u| && u[a + (to - from)..a + (to - from) + |r|] == r)
  }

  /** The section of a stitched text that comes before match x, or after the last one. */
  ghost predicate Placed(t: seq<byte>, pos: nat, ms: seq<int>, n: nat, r: seq<byte>, u: seq<byte>, x: nat)
    requires x <= |ms|
  {
    var from, to := if x == 0 then pos else ms[x - 1] + n, if x < |ms| then ms[x] else |t|;
    Stands(t, from, to, u, from - pos + Moved(x, |r| - n), r, x < |ms|)
  }

  /** Place by place: the text before match x is copied, moved by what the matches before it have changed,
      and r follows it. */
  lemma {:induction false} StitchPlaces(t: seq<byte>, pos: nat, ms: seq<int>, n: nat, r: seq<byte>, x: nat)
    requires pos <= |t| && x <= |ms|
    requires forall y :: 0 <= y < |ms| ==> pos <= ms[y] && ms[y] + n <= |t|
    requires forall y, z :: 0 <= y < z < |ms| ==> ms[y] + n <= ms[z]
    ensures |Stitch(t, pos, ms, n, r)| == |t| - pos + Moved(|ms|, |r| - n)
    ensures Placed(t, pos, ms, n, r, Stitch(t, pos, ms, n, r), x)
    decreases |ms|
  {
    hide Moved, Placed, Stands;
    if ms == [] {
      PlacedAlone(t, pos, ms, n, r);
    } else {
      var rest := Stitch(t, ms[0] + n, ms[1..], n, r);
      StitchPlaces(t, ms[0] + n, ms[1..], n, r, if x == 0 then 0 else x - 1);
      MovedOne(|ms|, |r| - n);
      if x == 0 {
        PlacedFirst(t, pos, ms, n, r, rest);
      } else {
        PlacedLater(t, pos, ms, n, r, rest, x);
      }
    }
  }

  lemma PlacedAlone(t: seq<byte>, pos: nat, ms: seq<int>, n: nat, r: seq<byte>)
    requires pos <= |t| && ms == []
    ensures Placed(t, pos, ms, n, r, t[pos..], 0) && Moved(|ms|, |r| - n) == 0
  {
    hide Moved;
    MovedNothing(|r| - n);
    var u := t[pos..];
    assert u[0..0 + (|t| - pos)] == u == t[pos..|t|];
  }

  lemma PlacedFirst(t: seq<byte>, pos: nat, ms: seq<int>, n: nat, r: seq<byte>, rest: seq<byte>)
    requires ms != [] && pos <= ms[0] <= |t|
    ensures Placed(t, pos, ms, n, r, t[pos..ms[0]] + r + rest, 0)
  {
    HeadSections(t[pos..ms[0]], r, rest);
  }

  lemma PlacedLater(t: seq<byte>, pos: nat, ms: seq<int>, n: nat, r: seq<byte>, rest: seq<byte>, x: nat)
    requires 0 < x <= |ms| && pos <= ms[0] && ms[0] + n <= |t|
    requires Placed(t, ms[0] + n, ms[1..], n, r, rest, x - 1)
    ensures Placed(t, pos, ms, n, r, t[pos..ms[0]] + r + rest, x)
  {
    hide Moved, Stands;
    var head, g := t[pos..ms[0]] + r, |r| - n;
    MovedNothing(g);
    MovedOne(x, g);
    var from, to := ms[x - 1] + n, if x < |ms| then ms[x] else |t|;
    StandsLater(t, from, to, rest, from - ms[0] - n + Moved(x - 1, g), r, x < |ms|, head);
  }

  lemma StandsLater(t: seq<byte>, from: int, to: int, u: seq<byte>, a: int, r: seq<byte>, more: bool, head: seq<byte>)
    requires Stands(t, from, to, u, a, r, more)
    ensures Stands(t, from, to, head + u, a + |head|, r, more)
  {
    var b := a + (to - from);
    TailSection(head, u, a + |head|, b + |head|);
    if more {
      TailSection(head, u, b + |head|, b + |head| + |r|);
    }
  }

  lemma MovedNothing(g: int)
    ensures Moved(0, g) == 0
  {
  }

  lemma MovedOne(x: nat, g: int)
    requires x > 0
    ensures Moved(x, g) == Moved(x - 1, g) + g
  {
  }

  lemma HeadSections(a: seq<byte>, r: seq<byte>, rest: seq<byte>)
    ensures (a + r + rest)[..|a|] == a && (a + r + rest)[|a|..|a| + |r|] == r
  {
  }

  lemma TailSection(head: seq<byte>, rest: seq<byte>, a: nat, b: nat)
    requires |head| <= a <= b <= |head| + |rest|
    ensures (head + rest)[a..b] == rest[a - |head|..b - |head|]
  {
  }

  lemma MatchesNext(k: Sameness, t: seq<byte>, pos: nat, f: seq<byte>)
    requires |f| > 0
    ensures var m := FirstMatch(k, t, pos, f);
            Matches(k, t, pos, f) == if m == BSTR_ERR then [] else [m] + Matches(k, t, m + |f|, f)
  {
  }

  lemma {:induction false} MatchesAreLeftmost(k: Sameness, t: seq<byte>, pos: nat, f: seq<byte>)
    requires |f| > 0
    ensures Leftmost(k, t, pos, f, Matches(k, t, pos, f))
    decreases |t| - pos
  {
    hide FirstMatch, Matches, MatchAt;
    var m := FirstMatch(k, t, pos, f);
    FirstMatchIsLeast(k, t, pos, f);
    MatchesNext(k, t, pos, f);
    if m == BSTR_ERR {
    } else {
      var rest := Matches(k, t, m + |f|, f);
      MatchesAreLeftmost(k, t, m + |f|, f);
      assert ([m] + rest)[1..] == rest;
    }
  }

  lemma {:induction false} LeftmostIsUnique(k: Sameness, t: seq<byte>, pos: nat, f: seq<byte>, ms: seq<int>)
    requires |f| > 0 && Leftmost(k, t, pos, f, ms)
    ensures ms == Matches(k, t, pos, f)
    decreases |t| - pos
  {
    hide FirstMatch, Matches, MatchAt;
    var m := FirstMatch(k, t, pos, f);
    FirstMatchIsLeast(k, t, pos, f);
    MatchesNext(k, t, pos, f);
    assert ms != [] ==> MatchAt(k, t, ms[0], f);
    if m == BSTR_ERR {
    } else {
      InsideNotBefore(ms, |f|, m);
      assert ms == [m] + ms[1..];
      LeftmostIsUnique(k, t, m + |f|, f, ms[1..]);
    }
  }

  /** Whatever lies inside an ordered list of blocks is not before the first of them. */
  lemma {:induction false} InsideNotBefore(ms: seq<int>, n: nat, q: int)
    requires Inside(ms, n, q)
    requires forall x, y :: 0 <= x < y < |ms| ==> ms[x] + n <= ms[y]
    ensures ms[0] <= q
  {
    if ms[0] <= q < ms[0] + n {
    } else {
      InsideNotBefore(ms[1..], n, q);
    }
  }

  lemma {:induction false} ReplaceFromStitches(k: Sameness, t: seq<byte>, pos: nat, f: seq<byte>, r: seq<byte>,
                                               ms: seq<int>)
    requires |f| > 0 && pos <= |t|
    requires ms == Matches(k, t, pos, f) && Leftmost(k, t, pos, f, ms)
    ensures ReplaceFrom(k, t, pos, f, r) == Stitch(t, pos, ms, |f|, r)
    decreases |t| - pos
  {
    hide FirstMatch, Matches, MatchAt, ReplaceFrom;
    var m := FirstMatch(k, t, pos, f);
    MatchesNext(k, t, pos, f);
    if m == BSTR_ERR {
      NothingMore(k, t, pos, f, r);
    } else {
      assert ms[1..] == Matches(k, t, m + |f|, f);
      MatchesAreLeftmost(k, t, m + |f|, f);
      ReplaceFromStitches(k, t, m + |f|, f, r, ms[1..]);
      Unfold(k, t, pos, f, r);
    }
  }

  lemma NothingMore(k: Sameness, t: seq<byte>, pos: nat, f: seq<byte>, r: seq<byte>)
    requires |f| > 0 && pos <= |t| && FirstMatch(k, t, pos, f) == BSTR_ERR
    ensures ReplaceFrom(k, t, pos, f, r) == t[pos..]
  {
  }

  /** The replacement is the one determined by any leftmost disjoint choice of occurrences. */
  lemma ReplacedIsLeftmost(k: Sameness, t: seq<byte>, pos: nat, f: seq<byte>, r: seq<byte>, ms: seq<int>)
    requires |f| > 0 && pos <= |t| && Leftmost(k, t, pos, f, ms)
    ensures Replaced(k, t, pos, f, r) == t[..pos] + Stitch(t, pos, ms, |f|, r)
  {
    LeftmostIsUnique(k, t, pos, f, ms);
    ReplaceFromStitches(k, t, pos, f, r, ms);
  }

  /** Each match changes the length by the difference of the two strings. */
  lemma {:induction false} ReplacedLength(k: Sameness, t: seq<byte>, pos: nat, f: seq<byte>, r: seq<byte>)
    requires |f| > 0 && pos <= |t|
    ensures |ReplaceFrom(k, t, pos, f, r)| == |t| - pos + |Matches(k, t, pos, f)| * (|r| - |f|)
    decreases |t| - pos
  {
    hide FirstMatch, Matches;
    var m, g := FirstMatch(k, t, pos, f), |r| - |f|;
    MatchesNext(k, t, pos, f);
    if m == BSTR_ERR {
    } else {
      var n, rest := |Matches(k, t, m + |f|, f)|, ReplaceFrom(k, t, m + |f|, f, r);
      ReplacedLength(k, t, m + |f|, f, r);
      Unfold(k, t, pos, f, r);
      assert |Matches(k, t, pos, f)| == n + 1;
      assert |t[pos..m] + r + rest| == m - pos + |r| + |rest|;
      Distribute(n, g);
    }
  }

  lemma ReplacedSize(k: Sameness, t: seq<byte>, pos: nat, f: seq<byte>, r: seq<byte>)
    requires |f| > 0 && pos <= |t|
    ensures |Replaced(k, t, pos, f, r)| == |t| + |Matches(k, t, pos, f)| * (|r| - |f|)
  {
    ReplacedLength(k, t, pos, f, r);
  }

  lemma Distribute(n: nat, g: int)
    ensures (n + 1) * g == n * g + g
  {
  }

  /** Replacing a string by itself changes nothing. */
  lemma {:induction false} ReplaceBySelf(t: seq<byte>, pos: nat, f: seq<byte>)
    requires |f| > 0 && pos <= |t|
    ensures ReplaceFrom(Exact, t, pos, f, f) == t[pos..]
    decreases |t| - pos
  {
    var m := FirstMatch(Exact, t, pos, f);
    if m == BSTR_ERR {
    } else {
      ReplaceBySelf(t, m + |f|, f);
      FirstMatchIsLeast(Exact, t, pos, f);
      assert t[m..m + |f|] == f;
    }
  }

  // ---- equal lengths ----

  /** x is another string, and if it shares the block of b it ends before pos, where nothing is written. */
  ghost predicate Before(b: BString, x: BString, pos: int)
    reads b, x
  {
    x.Valid() && x != b && (x.data == b.data ==> x.slen <= pos)
  }

  /** Writing from m on leaves it as it is. */
  lemma StaysBefore(b: BString, x: BString, pos: nat, m: nat, s: seq<byte>)
    requires Before(b, x, pos) && pos <= m && m + |s| <= b.data.Length
    ensures x.data == b.data ==> Spliced(b.data[..], m, s)[..x.slen] == x.Contents()
  {
    if x.data == b.data {
      SplicedBefore(b.data[..], m, s, x.slen);
      assert b.data[..][..x.slen] == x.Contents();
    }
  }

  method ReplaceEqual(b: BString, find: BString, repl: BString, pos: nat, k: Sameness)
    requires b.Valid() && Before(b, find, pos) && Before(b, repl, pos) && find.slen == repl.slen > 0
    requires pos <= b.slen
    modifies b.data
    ensures b.Contents() == Replaced(k, old(b.Contents()), pos, old(find.Contents()), old(repl.Contents()))
  {
    hide Replacing, Spliced, FirstMatch, Replaced, ReplaceFrom;
    ghost var t, f, r, p0, c := b.Contents(), find.Contents(), repl.Contents(), pos, b.Contents();
    var pos := pos;
    ReplaceStart(k, t, f, r, pos);
    while true
      invariant b.Contents() == c && pos <= |t| && Replacing(c, k, t, p0, f, r, pos)
      invariant p0 <= pos && find.Contents() == f && repl.Contents() == r
      decreases |t| - pos
    {
      ReplaceSearch(c, k, t, p0, f, r, pos);
      var m := Instr(k, b, pos, find);
      if m < 0 {
        break;
      }
      EqualStep(c, k, t, p0, f, r, pos, m);
      SplicedPrefix(b.data[..], m, r, |t|);
      StaysBefore(b, find, p0, m, r);
      StaysBefore(b, repl, p0, m, r);
      MemCpy(b.data, m, repl.data[..repl.slen]);
      c := Spliced(c, m, r);
      pos := m + find.slen;
    }
  }

  /** c is the string after the matches before pos have been overwritten. */
  ghost predicate Replacing(c: seq<byte>, k: Sameness, t: seq<byte>, p0: nat, f: seq<byte>, r: seq<byte>, pos: nat) {
    && |f| > 0 && pos <= |t| == |c|
    && c[pos..] == t[pos..]
    && c[..pos] + ReplaceFrom(k, t, pos, f, r) == Replaced(k, t, p0, f, r)
  }

  lemma ReplaceStart(k: Sameness, t: seq<byte>, f: seq<byte>, r: seq<byte>, pos: nat)
    requires |f| > 0 && pos <= |t|
    ensures Replacing(t, k, t, pos, f, r, pos)
  {
  }

  /** Searching the string as it is now finds the next match of the original; if there is none the
      work is done. */
  lemma ReplaceSearch(c: seq<byte>, k: Sameness, t: seq<byte>, p0: nat, f: seq<byte>, r: seq<byte>, pos: nat)
    requires Replacing(c, k, t, p0, f, r, pos)
    ensures FirstMatch(k, c, pos, f) == FirstMatch(k, t, pos, f)
    ensures FirstMatch(k, t, pos, f) == BSTR_ERR ==> c == Replaced(k, t, p0, f, r)
  {
    FirstMatchLocal(k, c, t, pos, f);
    hide FirstMatch;
    assert c == c[..pos] + c[pos..];
  }

  lemma EqualStep(c: seq<byte>, k: Sameness, t: seq<byte>, p0: nat, f: seq<byte>, r: seq<byte>, pos: nat, m: nat)
    requires Replacing(c, k, t, p0, f, r, pos) && |f| == |r|
    requires m == FirstMatch(k, t, pos, f)
    ensures Replacing(Spliced(c, m, r), k, t, p0, f, r, m + |f|)
  {
    hide Spliced, ReplaceFrom, Replaced, FirstMatch;
    EqualLayout(c, t, pos, m, r);
    NextMatch(k, t, pos, f, r, c[..pos]);
  }

  lemma EqualLayout(c: seq<byte>, t: seq<byte>, pos: nat, m: nat, r: seq<byte>)
    requires |c| == |t| && pos <= m && m + |r| <= |t| && c[pos..] == t[pos..]
    ensures Spliced(c, m, r)[m + |r|..] == t[m + |r|..]
    ensures Spliced(c, m, r)[..m + |r|] == c[..pos] + t[pos..m] + r
  {
    assert c[m + |r|..] == c[pos..][m + |r| - pos..];
    assert t[m + |r|..] == t[pos..][m + |r| - pos..];
    assert c[..m] == c[..pos] + c[pos..][..m - pos];
    assert t[pos..m] == t[pos..][..m - pos];
  }

  /** One step of the replacement, with what is already done in front of it. */
  lemma NextMatch(k: Sameness, t: seq<byte>, pos: nat, f: seq<byte>, r: seq<byte>, done: seq<byte>)
    requires |f| > 0 && pos <= |t| && FirstMatch(k, t, pos, f) != BSTR_ERR
    ensures var m := FirstMatch(k, t, pos, f);
            done + ReplaceFrom(k, t, pos, f, r) == done + t[pos..m] + r + ReplaceFrom(k, t, m + |f|, f, r)
  {
    hide *;
    Unfold(k, t, pos, f, r);
    var m := FirstMatch(k, t, pos, f);
    ConcatAssoc4(done, t[pos..m], r, ReplaceFrom(k, t, m + |f|, f, r));
  }

  lemma Unfold(k: Sameness, t: seq<byte>, pos: nat, f: seq<byte>, r: seq<byte>)
    requires |f| > 0 && pos <= |t| && FirstMatch(k, t, pos, f) != BSTR_ERR
    ensures var m := FirstMatch(k, t, pos, f);
            ReplaceFrom(k, t, pos, f, r) == t[pos..m] + r + ReplaceFrom(k, t, m + |f|, f, r)
  {
  }

  // ---- shrinking ----

  /** x is the block after the matches before pos are done: acc bytes have been saved so far, the
      result so far ends at pos - acc, and from pos on the original bytes are in place. */
  ghost predicate Shrinking(x: seq<byte>, k: Sameness, t: seq<byte>, p0: nat, f: seq<byte>, r: seq<byte>, pos: nat,
                            acc: nat)
  {
    && |f| > 0 && acc <= pos <= |t| <= |x|
    && x[pos..|t|] == t[pos..]
    && x[..pos - acc] + ReplaceFrom(k, t, pos, f, r) == Replaced(k, t, p0, f, r)
  }

  lemma ShrinkStart(x: seq<byte>, k: Sameness, t: seq<byte>, f: seq<byte>, r: seq<byte>, pos: nat)
    requires |f| > 0 && pos <= |t| <= |x| && x[..|t|] == t
    ensures Shrinking(x, k, t, pos, f, r, pos, 0)
  {
    assert x[pos..|t|] == x[..|t|][pos..];
    assert x[..pos] == x[..|t|][..pos];
  }

  lemma ShrinkSearch(x: seq<byte>, k: Sameness, t: seq<byte>, p0: nat, f: seq<byte>, r: seq<byte>, pos: nat, acc: nat)
    requires Shrinking(x, k, t, p0, f, r, pos, acc)
    ensures FirstMatch(k, x[..|t|], pos, f) == FirstMatch(k, t, pos, f)
  {
    assert x[..|t|][pos..] == x[pos..|t|];
    FirstMatchLocal(k, x[..|t|], t, pos, f);
  }

  lemma ShrinkStep(x: seq<byte>, k: Sameness, t: seq<byte>, p0: nat, f: seq<byte>, r: seq<byte>, pos: nat, acc: nat,
                   i: nat)
    requires Shrinking(x, k, t, p0, f, r, pos, acc) && |r| < |f|
    requires i == FirstMatch(k, t, pos, f)
    ensures Shrinking(Spliced(Spliced(x, pos - acc, x[pos..i]), i - acc, r), k, t, p0, f, r,
                      i + |f|, acc + (|f| - |r|))
  {
    hide Spliced, ReplaceFrom, Replaced, FirstMatch;
    ShrinkLayout(x, t, pos, acc, i, |f|, r);
    NextMatch(k, t, pos, f, r, x[..pos - acc]);
  }

  lemma ShrinkLayout(x: seq<byte>, t: seq<byte>, pos: nat, acc: nat, i: nat, n: nat, r: seq<byte>)
    requires acc <= pos <= i && i + n <= |t| <= |x| && x[pos..|t|] == t[pos..] && |r| <= n
    ensures var z := Spliced(Spliced(x, pos - acc, x[pos..i]), i - acc, r);
            && z[i + n..|t|] == t[i + n..]
            && z[..i - acc + |r|] == x[..pos - acc] + t[pos..i] + r
  {
    hide Spliced;
    var y := Spliced(x, pos - acc, x[pos..i]);
    SplicedUpTo(x, pos - acc, x[pos..i]);
    SplicedUpTo(y, i - acc, r);
    SplicedApart(x, pos - acc, x[pos..i], i + n, |t|);
    SplicedApart(y, i - acc, r, i + n, |t|);
    PartsAgree(x, t, pos, |t|, pos, i);
    PartsAgree(x, t, pos, |t|, i + n, |t|);
  }

  /** Equal stretches have equal parts. */
  lemma PartsAgree(x: seq<byte>, t: seq<byte>, a: nat, b: nat, i: nat, j: nat)
    requires a <= i <= j <= b <= |x| && b <= |t| && x[a..b] == t[a..b]
    ensures x[i..j] == t[i..j]
  {
    forall q | i <= q < j ensures x[q] == t[q] {
      assert x[a..b][q - a] == t[a..b][q - a];
    }
  }

  lemma ShrinkEnd(x: seq<byte>, k: Sameness, t: seq<byte>, p0: nat, f: seq<byte>, r: seq<byte>, pos: nat, acc: nat)
    requires Shrinking(x, k, t, p0, f, r, pos, acc)
    requires FirstMatch(k, t, pos, f) == BSTR_ERR
    ensures Spliced(x, pos - acc, x[pos..|t|])[..|t| - acc] == Replaced(k, t, p0, f, r)
  {
  }

  method ReplaceShrink(b: BString, find: BString, repl: BString, pos: nat, k: Sameness)
    requires b.Valid() && Before(b, find, pos) && Before(b, repl, pos) && find.slen > repl.slen
    requires pos <= b.slen
    modifies b`slen, b.data
    ensures b.Valid() && (old(b.Terminated()) ==> b.Terminated())
    ensures b.Contents() == Replaced(k, old(b.Contents()), pos, old(find.Contents()), old(repl.Contents()))
  {
    hide Shrinking, Spliced, FirstMatch, Replaced, ReplaceFrom;
    ghost var t, f, r := b.Contents(), find.Contents(), repl.Contents();
    var end, acc := ShrinkMatches(b, find, repl, pos, k);
    ghost var x := b.data[..];
    ShrinkEnd(x, k, t, pos, f, r, end, acc);
    if acc != 0 {
      ShiftDown(b.data, end, acc, b.slen);
      b.slen := b.slen - acc;
      b.data[b.slen] := 0;
    } else {
      SplicedSame(x, end, x[end..|t|]);
    }
    assert b.Contents() == Spliced(x, end - acc, x[end..|t|])[..b.slen];
  }

  /** The loop over the matches. The length is not changed yet. */
  method ShrinkMatches(b: BString, find: BString, repl: BString, p0: nat, k: Sameness) returns (pos: nat, acc: nat)
    requires b.Valid() && Before(b, find, p0) && Before(b, repl, p0) && find.slen > repl.slen
    requires p0 <= b.slen
    modifies b.data
    ensures acc <= pos <= b.slen
    ensures Shrinking(b.data[..], k, old(b.Contents()), p0, old(find.Contents()), old(repl.Contents()), pos, acc)
    ensures FirstMatch(k, old(b.Contents()), pos, old(find.Contents())) == BSTR_ERR
    ensures acc == 0 ==> b.data[b.slen] == old(b.data[b.slen])
  {
    hide Shrinking, Spliced, FirstMatch, Replaced, ReplaceFrom;
    ghost var t, f, r, x := b.Contents(), find.Contents(), repl.Contents(), b.data[..];
    pos, acc := p0, 0;
    var delta := find.slen - repl.slen;
    ShrinkStart(x, k, t, f, r, pos);
    while true
      invariant b.data[..] == x
      invariant acc <= pos <= |t| && Shrinking(x, k, t, p0, f, r, pos, acc)
      invariant p0 + acc <= pos && find.Contents() == f && repl.Contents() == r
      invariant acc == 0 ==> x[|t|] == old(b.data[b.slen])
      decreases |t| - pos
    {
      ShrinkSearch(x, k, t, p0, f, r, pos, acc);
      assert b.Contents() == x[..|t|];
      var i := Instr(k, b, pos, find);
      if i < 0 {
        return;
      }
      ShrinkStep(x, k, t, p0, f, r, pos, acc, i);
      ShrinkStaysBefore(b, find, p0, pos, acc, i, r);
      ShrinkStaysBefore(b, repl, p0, pos, acc, i, r);
      ShrinkMatch(b.data, pos, acc, i, repl.data[..repl.slen]);
      x := Spliced(Spliced(x, pos - acc, x[pos..i]), i - acc, r);
      acc := acc + delta;
      pos := i + find.slen;
    }
  }

  lemma ShrinkStaysBefore(b: BString, x: BString, p0: nat, pos: nat, acc: nat, i: nat, r: seq<byte>)
    requires Before(b, x, p0) && p0 + acc <= pos <= i && i + |r| <= b.data.Length
    ensures x.data == b.data ==>
              Spliced(Spliced(b.data[..], pos - acc, b.data[..][pos..i]), i - acc, r)[..x.slen] == x.Contents()
  {
    hide Spliced;
    StaysBefore(b, x, p0, pos - acc, b.data[..][pos..i]);
    if x.data == b.data {
      SplicedBefore(Spliced(b.data[..], pos - acc, b.data[..][pos..i]), i - acc, r, x.slen);
    }
  }

  /** One match: the bytes before it move down and the replacement follows them. */
  method ShrinkMatch(a: array<byte>, pos: nat, acc: nat, i: nat, r: seq<byte>)
    requires acc <= pos <= i && i + |r| <= a.Length
    modifies a
    ensures a[..] == Spliced(Spliced(old(a[..]), pos - acc, old(a[..])[pos..i]), i - acc, r)
  {
    hide Spliced;
    ShiftDown(a, pos, acc, i);
    if |r| != 0 {
      MemCpy(a, i - acc, r);
    } else {
      SplicedSame(a[..], i - acc, r);
    }
  }

  /** The bytes between two matches move down by what has been saved so far. */
  method ShiftDown(a: array<byte>, pos: nat, acc: nat, i: nat)
    requires acc <= pos <= i <= a.Length
    modifies a
    ensures a[..] == Spliced(old(a[..]), pos - acc, old(a[..])[pos..i])
  {
    if acc != 0 && i > pos {
      MemMove(a, pos - acc, pos, i - pos);
    } else {
      SplicedSame(a[..], pos - acc, a[pos..i]);
    }
  }

  // ---- expanding ----

  /** Where match i begins; after the last match, the end of the text. */
  function Start(t: seq<byte>, ms: seq<int>, i: nat): int {
    if i < |ms| then ms[i] else |t|
  }

  /** The finished text from match i on. */
  ghost function Tail(k: Sameness, t: seq<byte>, f: seq<byte>, r: seq<byte>, ms: seq<int>, i: nat): seq<byte>
    requires |f| > 0 && 0 <= Start(t, ms, i) <= |t|
  {
    ReplaceFrom(k, t, Start(t, ms, i), f, r)
  }

  /** The text before match i, or after the one before it, up to match i. */
  lemma {:induction false} MatchesChain(k: Sameness, t: seq<byte>, p0: nat, f: seq<byte>, i: nat)
    requires |f| > 0 && p0 <= |t| && i <= |Matches(k, t, p0, f)|
    ensures var ms := Matches(k, t, p0, f);
            var from := if i == 0 then p0 else ms[i - 1] + |f|;
            && p0 <= from <= Start(t, ms, i) <= |t|
            && FirstMatch(k, t, from, f) == if i < |ms| then ms[i] else BSTR_ERR
    decreases i
  {
    hide FirstMatch, Matches;
    var m := FirstMatch(k, t, p0, f);
    MatchesNext(k, t, p0, f);
    if i == 0 {
    } else {
      MatchesChain(k, t, m + |f|, f, i - 1);
      assert Matches(k, t, p0, f)[1..] == Matches(k, t, m + |f|, f);
    }
  }

  /** A search that starts at a match finds it. */
  lemma MatchIsFirst(k: Sameness, t: seq<byte>, from: nat, f: seq<byte>)
    requires FirstMatch(k, t, from, f) != BSTR_ERR
    ensures FirstMatch(k, t, FirstMatch(k, t, from, f), f) == FirstMatch(k, t, from, f)
  {
    FirstMatchIsLeast(k, t, from, f);
  }

  /** The replacement copies the text up to the next match and goes on there. */
  lemma CopyUpTo(k: Sameness, t: seq<byte>, from: nat, f: seq<byte>, r: seq<byte>, e: nat)
    requires |f| > 0 && from <= e <= |t|
    requires var m := FirstMatch(k, t, from, f); e == if m == BSTR_ERR then |t| else m
    ensures ReplaceFrom(k, t, from, f, r) == t[from..e] + ReplaceFrom(k, t, e, f, r)
  {
    hide FirstMatch;
    if FirstMatch(k, t, from, f) == BSTR_ERR {
      NoMatchAtEnd(k, t, f);
    } else {
      MatchIsFirst(k, t, from, f);
      Unfold(k, t, from, f, r);
      Unfold(k, t, e, f, r);
      ConcatAssoc4([], t[from..e], r, ReplaceFrom(k, t, e + |f|, f, r));
    }
  }

  lemma NoMatchAtEnd(k: Sameness, t: seq<byte>, f: seq<byte>)
    requires |f| > 0
    ensures FirstMatch(k, t, |t|, f) == BSTR_ERR
  {
  }

  /** x is the block when match i and the ones after it are done: the text before match i is still in
      place, and the finished tail stands i * g bytes further up. */
  ghost predicate Expanding(x: seq<byte>, k: Sameness, t: seq<byte>, f: seq<byte>, r: seq<byte>, ms: seq<int>,
                            i: nat, acc: nat)
  {
    && |f| > 0 && i <= |ms| && 0 <= Start(t, ms, i) <= |t|
    && Start(t, ms, i) + acc + |Tail(k, t, f, r, ms, i)| <= |x|
    && x[..Start(t, ms, i)] == t[..Start(t, ms, i)]
    && x[Start(t, ms, i) + acc..][..|Tail(k, t, f, r, ms, i)|] == Tail(k, t, f, r, ms, i)
  }

  /** The finished text from match i - 1 on: the replacement, the text up to match i, and the rest. */
  lemma TailStep(k: Sameness, t: seq<byte>, p0: nat, f: seq<byte>, r: seq<byte>, ms: seq<int>, i: nat)
    requires |f| > 0 && p0 <= |t| && ms == Matches(k, t, p0, f) && 0 < i <= |ms|
    ensures var m, e := ms[i - 1], Start(t, ms, i);
            && 0 <= m && m + |f| <= e <= |t|
            && Tail(k, t, f, r, ms, i - 1) == r + (t[m + |f|..e] + Tail(k, t, f, r, ms, i))
  {
    hide ReplaceFrom, FirstMatch, Matches;
    var m, e := ms[i - 1], Start(t, ms, i);
    MatchesChain(k, t, p0, f, i);
    MatchesChain(k, t, p0, f, i - 1);
    MatchIsFirst(k, t, if i == 1 then p0 else ms[i - 2] + |f|, f);
    CopyUpTo(k, t, m + |f|, f, r, e);
    Unfold(k, t, m, f, r);
    assert t[m..m] + r == r;
  }

  lemma ExpandStep(x: seq<byte>, k: Sameness, t: seq<byte>, p0: nat, f: seq<byte>, r: seq<byte>, ms: seq<int>,
                   i: nat, acc: nat)
    requires |f| > 0 && p0 <= |t| && ms == Matches(k, t, p0, f)
    requires 0 < i && Expanding(x, k, t, f, r, ms, i, acc) && acc >= |r| - |f| >= 0
    ensures var s := ms[i - 1] + |f|;
            && |f| <= s <= Start(t, ms, i) && Start(t, ms, i) + acc <= |x|
            && Expanding(Spliced(Spliced(x, s + acc, x[s..Start(t, ms, i)]), s + acc - |r|, r),
                         k, t, f, r, ms, i - 1, acc - (|r| - |f|))
  {
    hide Spliced, Matches, Tail;
    TailStep(k, t, p0, f, r, ms, i);
    ExpandLayout(x, t, ms[i - 1], |f|, Start(t, ms, i), acc, r, Tail(k, t, f, r, ms, i), Tail(k, t, f, r, ms, i - 1));
  }

  lemma ExpandStart(x: seq<byte>, k: Sameness, t: seq<byte>, p0: nat, f: seq<byte>, r: seq<byte>, acc: nat)
    requires |f| > 0 && p0 <= |t| && |t| + acc <= |x| && x[..|t|] == t
    ensures var ms := Matches(k, t, p0, f); Expanding(x, k, t, f, r, ms, |ms|, acc)
  {
    NoMatchAtEnd(k, t, f);
  }

  lemma ExpandEnd(x: seq<byte>, k: Sameness, t: seq<byte>, p0: nat, f: seq<byte>, r: seq<byte>)
    requires |f| > 0 && p0 <= |t|
    requires Expanding(x, k, t, f, r, Matches(k, t, p0, f), 0, 0)
    ensures var u := Replaced(k, t, p0, f, r); |u| <= |x| && x[..|u|] == u
  {
    hide ReplaceFrom, FirstMatch, Matches;
    var ms := Matches(k, t, p0, f);
    var e, tail := Start(t, ms, 0), Tail(k, t, f, r, ms, 0);
    MatchesChain(k, t, p0, f, 0);
    CopyUpTo(k, t, p0, f, r, e);
    assert x[e..e + |tail|] == tail;
    assert t[..e] == t[..p0] + t[p0..e];
    assert x[..e + |tail|] == t[..e] + tail;
  }

  lemma ExpandLayout(x: seq<byte>, t: seq<byte>, m: nat, n: nat, e: nat, acc: nat, r: seq<byte>,
                     tail: seq<byte>, tail': seq<byte>)
    requires m + n <= e <= |t| && n <= |r| && |r| - n <= acc && e + acc + |tail| <= |x|
    requires x[..e] == t[..e] && x[e + acc..][..|tail|] == tail
    requires tail' == r + (t[m + n..e] + tail)
    ensures var s, acc' := m + n, acc - (|r| - n);
            var z := Spliced(Spliced(x, s + acc, x[s..e]), s + acc - |r|, r);
            && m + acc' + |tail'| <= |z| && z[..m] == t[..m] && z[m + acc'..][..|tail'|] == tail'
  {
    hide Spliced;
    var s := m + n;
    var y := Spliced(x, s + acc, x[s..e]);
    MoveLayout(x, t, s, e, acc, tail);
    CopyLayout(y, s + acc, r, t[s..e] + tail);
    SplicedBefore(x, s + acc, x[s..e], m);
    SplicedBefore(y, s + acc - |r|, r, m);
    assert x[..m] == x[..e][..m] && t[..m] == t[..e][..m];
    assert tail' == r + (t[s..e] + tail);
  }

  /** The text after the match has moved up and now stands before the finished tail. */
  lemma MoveLayout(x: seq<byte>, t: seq<byte>, s: nat, e: nat, acc: nat, tail: seq<byte>)
    requires s <= e <= |t| && e + acc + |tail| <= |x| && x[..e] == t[..e] && x[e + acc..][..|tail|] == tail
    ensures Spliced(x, s + acc, x[s..e])[s + acc..][..e - s + |tail|] == t[s..e] + tail
  {
    var y := Spliced(x, s + acc, x[s..e]);
    assert x[s..e] == x[..e][s..] && t[s..e] == t[..e][s..];
    assert y[s + acc..] == t[s..e] + x[e + acc..];
  }

  /** The replacement is copied in front of it. */
  lemma CopyLayout(y: seq<byte>, at: nat, r: seq<byte>, rest: seq<byte>)
    requires |r| <= at && at + |rest| <= |y| && y[at..][..|rest|] == rest
    ensures Spliced(y, at - |r|, r)[at - |r|..][..|r| + |rest|] == r + rest
  {
    assert Spliced(y, at - |r|, r)[at - |r|..] == r + y[at..];
  }

  const STATIC_INDEX_COUNT := 32
  /** INT_MAX / sizeof(int *) / 2, past which the table is not doubled any more. */
  const TABLE_MAX := 134217727

  /** The table of matches stays below 2^27 entries and the result fits an `int` with its NUL. */
  ghost predicate Expandable(k: Sameness, t: seq<byte>, pos: nat, f: seq<byte>, r: seq<byte>)
    requires |f| > 0
  {
    var n := |Matches(k, t, pos, f)|;
    n <= TABLE_MAX && |t| + n * (|r| - |f|) < INT_MAX
  }

  lemma TableStarts(d: array<int>)
    requires d.Length == STATIC_INDEX_COUNT + 1
    ensures Table(d, 0, STATIC_INDEX_COUNT)
  {
    assert Pow2(5) == STATIC_INDEX_COUNT;
  }

  lemma OneMoreFound(ms: seq<int>, found: seq<int>, m: int, rest: seq<int>)
    requires ms == found + ([m] + rest)
    ensures ms == (found + [m]) + rest && |found| < |ms|
  {
  }

  lemma TableSize(d: array<int>, n: nat, mlen: int)
    requires Table(d, n, mlen)
    ensures n < d.Length && n <= TABLE_MAX
  {
  }

  lemma TableDoubles(n: nat)
    requires IsPow2(n) && 32 <= n <= TABLE_MAX + 1
    ensures n <= TABLE_MAX ==> IsPow2(2 * n) && 2 * n <= TABLE_MAX + 1
    ensures n > TABLE_MAX ==> n == TABLE_MAX + 1
  {
    assert Pow2(10) == 1024;
    assert Pow2(20) == 1024 * Pow2(10);
    assert Pow2(27) == TABLE_MAX + 1;
    var j: nat :| n == Pow2(j);
    assert Pow2(j + 1) == 2 * n;
    if n <= TABLE_MAX {
      if j >= 27 { Pow2Mono(27, j); }
      Pow2Mono(j + 1, 27);
    }
  }

  /** A product, kept as one term while the table grows. */
  ghost predicate IsProduct(p: nat, n: nat, g: nat) {
    p == n * g
  }

  lemma ProductStarts(g: nat)
    ensures IsProduct(0, 0, g)
  {
  }

  lemma ProductGrows(p: nat, n: nat, g: nat, total: nat)
    requires IsProduct(p, n, g) && n < total
    ensures IsProduct(p + g, n + 1, g) && p + g <= total * g
  {
    Distribute(n, g);
    MulMono(n + 1, total, g);
  }

  lemma ProductFrom(p: nat, n: nat, g: nat)
    requires p == n * g
    ensures IsProduct(p, n, g)
  {
  }

  lemma ProductShrinks(p: nat, n: nat, g: nat)
    requires IsProduct(p, n, g) && n > 0
    ensures p >= g && IsProduct(p - g, n - 1, g)
  {
    Distribute(n - 1, g);
  }

  lemma ProductIs(p: nat, n: nat, g: nat)
    requires IsProduct(p, n, g)
    ensures p == n * g
  {
  }

  lemma MulMono(a: nat, b: nat, g: nat)
    requires a <= b
    ensures a * g <= b * g
  {
  }

  /** realloc of the table. */
  method Grow(d: array<int>, n: nat, mlen: nat) returns (e: array<int>)
    requires n <= d.Length && n <= mlen
    ensures fresh(e) && e.Length == mlen && e[..n] == d[..n]
  {
    e := new int[mlen];
    forall j | 0 <= j < n {
      e[j] := d[j];
    }
  }

  /** The table has the capacity mlen, a power of two, and room for the entry of the end. */
  ghost predicate Table(d: array<int>, n: nat, mlen: int) {
    n < mlen <= d.Length && 32 <= mlen <= TABLE_MAX + 1 && IsPow2(mlen)
  }

  /** Before a match is entered the table is doubled if only the last place is left. */
  method MakeRoom(d: array<int>, n: nat, mlen: int) returns (ret: int, e: array<int>, m: int)
    requires Table(d, n, mlen)
    ensures (ret == BSTR_OK || ret == BSTR_ERR) && (ret == BSTR_ERR ==> n == TABLE_MAX)
    ensures e == d || fresh(e)
    ensures ret == BSTR_OK ==> n < TABLE_MAX && n + 1 < e.Length && Table(e, n + 1, m) && e[..n] == d[..n]
  {
    hide IsPow2;
    e, m := d, mlen;
    if n >= mlen - 1 {
      TableDoubles(mlen);
      if mlen > TABLE_MAX {
        return BSTR_ERR, d, mlen;
      }
      m := mlen + mlen;
      e := Grow(d, n, m);
    }
    ret := BSTR_OK;
  }

  /** The first half of the expanding case: the matches from p0 on, found into a growable table. */
  method FindAll(b: BString, find: BString, p0: nat, g: nat, k: Sameness)
    returns (ret: int, d: array<int>, n: nat, acc: nat)
    requires b.Valid() && find.Valid() && find.slen > 0 && p0 <= b.slen
    ensures fresh(d)
    ensures var ms := Matches(k, b.Contents(), p0, find.Contents());
            && (ret == BSTR_OK || ret == BSTR_ERR)
            && (ret == BSTR_OK <==> |ms| <= TABLE_MAX && |ms| * g <= INT_MAX)
            && (ret == BSTR_OK ==> n == |ms| < d.Length && d[..n] == ms && acc == n * g)
  {
    hide FirstMatch, Matches, Table, IsProduct;
    ghost var t, f := b.Contents(), find.Contents();
    ghost var ms := Matches(k, t, p0, f);
    var pos, mlen := p0, STATIC_INDEX_COUNT;
    d, n, acc := new int[STATIC_INDEX_COUNT + 1], 0, 0;
    TableStarts(d);
    ProductStarts(g);
    while true
      invariant fresh(d) && pos <= |t| && n < d.Length && Table(d, n, mlen)
      invariant ms == d[..n] + Matches(k, t, pos, f)
      invariant IsProduct(acc, n, g) && acc <= INT_MAX
      decreases |t| - pos
    {
      var m := Instr(k, b, pos, find);
      MatchesNext(k, t, pos, f);
      if m < 0 {
        ProductIs(acc, n, g);
        TableSize(d, n, mlen);
        ret := BSTR_OK;
        return;
      }
      TableSize(d, n, mlen);
      ghost var found := d[..n];
      OneMoreFound(ms, found, m, Matches(k, t, m + |f|, f));
      ProductGrows(acc, n, g, |ms|);
      ret, d, mlen := MakeRoom(d, n, mlen);
      if ret != BSTR_OK {
        return;
      }
      d[n] := m;
      n := n + 1;
      assert d[..n] == found + [m];
      acc := acc + g;
      pos := m + find.slen;
      if acc > INT_MAX {
        ret := BSTR_ERR;
        return;
      }
    }
  }

  /** The second half: the pieces move up, the last one first. */
  method MovePieces(a: array<byte>, d: array<int>, n: nat, nf: nat, r: seq<byte>, acc: nat,
                    ghost k: Sameness, ghost t: seq<byte>, ghost p0: nat, ghost f: seq<byte>)
    requires |f| == nf > 0 && p0 <= |t| && nf <= |r|
    requires n < d.Length && d[..n] == Matches(k, t, p0, f) && d[n] == |t|
    requires acc == n * (|r| - nf) && |t| + acc <= a.Length && a[..|t|] == t
    modifies a
    ensures |t| + acc == |Replaced(k, t, p0, f, r)|
    ensures a[..|t| + acc] == Replaced(k, t, p0, f, r)
  {
    hide Spliced, ReplaceFrom, FirstMatch, Matches, Replaced, Expanding, IsProduct;
    ghost var ms, x, g := d[..n], a[..], |r| - nf;
    var i: nat, acc: nat := n, acc;
    ExpandStart(x, k, t, p0, f, r, acc);
    ProductFrom(acc, n, g);
    while i > 0
      invariant 0 <= i <= n && IsProduct(acc, i, g)
      invariant a[..] == x && Expanding(x, k, t, f, r, ms, i, acc)
      decreases i
    {
      ProductShrinks(acc, i, g);
      ExpandStep(x, k, t, p0, f, r, ms, i, acc);
      var s := d[i - 1] + nf;
      assert d[i] == Start(t, ms, i);
      MovePiece(a, s, d[i] - s, acc, r);
      x := Spliced(Spliced(x, s + acc, x[s..d[i]]), s + acc - |r|, r);
      acc := acc - (|r| - nf);
      i := i - 1;
    }
    ProductIs(acc, 0, g);
    ExpandEnd(x, k, t, p0, f, r);
    ReplacedSize(k, t, p0, f, r);
  }

  /** One match: the l bytes after it move up by acc, and the replacement goes in front of them. */
  method MovePiece(a: array<byte>, s: nat, l: nat, acc: nat, r: seq<byte>)
    requires |r| <= s + acc && s + l + acc <= a.Length
    modifies a
    ensures a[..] == Spliced(Spliced(old(a[..]), s + acc, old(a[..])[s..s + l]), s + acc - |r|, r)
  {
    hide Spliced;
    if l != 0 {
      MemMove(a, s + acc, s, l);
    } else {
      SplicedSame(a[..], s + acc, a[s..s + l]);
    }
    if |r| != 0 {
      MemCpy(a, s + acc - |r|, r);
    } else {
      SplicedSame(a[..], s + acc - |r|, r);
    }
  }

  /** The expanded string is made in the block it is in, so a string that shares the block is still there. */
  ghost predicate Stays(mlen: int, k: Sameness, t: seq<byte>, pos: nat, f: seq<byte>, r: seq<byte>)
    requires |f| > 0
  {
    |f| < |r| && Expandable(k, t, pos, f, r) ==>
      BString.Grown(mlen, |t| + |Matches(k, t, pos, f)| * (|r| - |f|) + 1) == mlen
  }

  method ReplaceExpand(b: BString, find: BString, repl: BString, pos: nat, k: Sameness) returns (ret: int)
    requires b.Valid() && Before(b, find, pos) && Before(b, repl, pos) && 0 < find.slen < repl.slen
    requires repl.data == b.data ==> Stays(b.mlen, k, b.Contents(), pos, find.Contents(), repl.Contents())
    requires pos <= b.slen
    modifies b, b.data
    ensures b.Valid() && (b.data == old(b.data) || fresh(b.data))
    ensures var t, f, r := old(b.Contents()), old(find.Contents()), old(repl.Contents());
            && (ret == BSTR_OK || ret == BSTR_ERR)
            && (ret == BSTR_OK <==> Expandable(k, t, pos, f, r))
            && b.Contents() == if ret == BSTR_OK then Replaced(k, t, pos, f, r) else t
    ensures ret == BSTR_OK ==> b.Terminated()
  {
    hide Replaced, Matches, FirstMatch, Stays, BString.Grown, BString.MoveCost, SnapUpSize;
    ghost var t, f, r := b.Contents(), find.Contents(), repl.Contents();
    var ok, d, n, acc := FindAll(b, find, pos, repl.slen - find.slen, k);
    if ok != BSTR_OK {
      return BSTR_ERR;
    }
    d[n] := b.slen;
    ret := b.Balloc(b.slen + acc + 1);
    if ret == BSTR_OK {
      b.slen := b.slen + acc;
      assert b.data[..|t|] == t && repl.Contents() == r;
      MovePieces(b.data, d, n, find.slen, repl.data[..repl.slen], acc, k, t, pos, f);
      b.data[b.slen] := 0;
      assert b.Contents() == Replaced(k, t, pos, f, r);
    }
  }

  /** The result of a call: what is returned and what the string holds afterwards. */
  ghost function Outcome(k: Sameness, t: seq<byte>, pos: int, f: seq<byte>, r: seq<byte>): (int, seq<byte>) {
    if pos < 0 || f == [] then (BSTR_ERR, t)
    else if |r| > |f| && !Expandable(k, t, pos, f, r) then (BSTR_ERR, t)
    else (BSTR_OK, Replaced(k, t, pos, f, r))
  }

  /** The result of a call, for any list of places of which every other occurrence begins inside one: they
      are all replaced, unless the string grows and the list or the new length is too large. */
  lemma OutcomeIsLeftmost(k: Sameness, t: seq<byte>, pos: nat, f: seq<byte>, r: seq<byte>, ms: seq<int>)
    requires |f| > 0 && pos <= |t| && Leftmost(k, t, pos, f, ms)
    ensures Outcome(k, t, pos, f, r)
         == if |r| > |f| && (|ms| >= 0x800_0000 || |t| + |ms| * (|r| - |f|) >= 0x7fff_ffff) then (BSTR_ERR, t)
            else (BSTR_OK, t[..pos] + Stitch(t, pos, ms, |f|, r))
  {
    hide Leftmost, Replaced, Stitch, Matches;
    LeftmostIsUnique(k, t, pos, f, ms);
    ReplacedIsLeftmost(k, t, pos, f, r, ms);
  }

  /** There is always such a list. */
  lemma LeftmostExists(k: Sameness, t: seq<byte>, pos: nat, f: seq<byte>)
    requires |f| > 0
    ensures exists ms :: Leftmost(k, t, pos, f, ms)
  {
    hide Leftmost;
    MatchesAreLeftmost(k, t, pos, f);
  }

  /** A position past the end leaves the string; a negative one and an empty find are errors. */
  lemma OutcomeElsewhere(k: Sameness, t: seq<byte>, pos: int, f: seq<byte>, r: seq<byte>)
    requires pos < 0 || f == [] || (pos > |t| && |t| < INT_MAX)
    ensures Outcome(k, t, pos, f, r) == (if pos < 0 || f == [] then BSTR_ERR else BSTR_OK, t)
  {
    if 0 <= pos && f != [] {
      NothingToReplace(k, t, pos, f, r, INT_MAX);
    }
  }

  /** repl may share the block of b, and may be b. It is copied if it reaches past pos; if not, and the
      string is expanded, the block must not move, because it is read from there afterwards. */
  ghost predicate Usable(b: BString, find: BString, repl: BString, pos: int, k: Sameness)
    reads b, b.data, find, find.data, repl, repl.data
  {
    && b.Valid() && find.Valid() && repl.Valid()
    && (repl != b && repl.data == b.data && 0 <= repl.slen <= pos && find.slen > 0 ==>
          Stays(b.mlen, k, b.Contents(), pos, find.Contents(), repl.Contents()))
  }

  /** findreplaceengine. */
  method FindReplaceEngine(b: BString, find: BString, repl: BString, pos: int, instr: Sameness) returns (ret: int)
    requires Usable(b, find, repl, pos, instr)
    modifies b, b.data
    ensures b.Valid() && (b.data == old(b.data) || fresh(b.data))
    ensures (ret, b.Contents())
         == Outcome(instr, old(b.Contents()), pos, old(find.Contents()), old(repl.Contents()))
  {
    hide Replaced, Matches, FirstMatch, Expandable, Stays;
    if pos < 0 || find.slen <= 0 {
      return BSTR_ERR;
    }
    if pos > b.slen - find.slen {
      NothingToReplace(instr, b.Contents(), pos, find.Contents(), repl.Contents(), b.mlen);
      return BSTR_OK;
    }
    var auxf, auxr := find, repl;
    if find.data == b.data && pos - find.slen < 0 < b.slen {
      auxf := new BString.FromBlk(find.data[..find.slen]);
    }
    if repl.data == b.data && pos - repl.slen < 0 < b.slen {
      auxr := new BString.FromBlk(repl.data[..repl.slen]);
    }
    ret := ReplaceBefore(b, auxf, auxr, pos, instr);
  }

  /** The three cases of findreplaceengine, on strings that are not written to. */
  method ReplaceBefore(b: BString, find: BString, repl: BString, pos: nat, instr: Sameness) returns (ret: int)
    requires b.Valid() && Before(b, find, pos) && Before(b, repl, pos)
    requires find.slen > 0 && pos <= b.slen - find.slen
    requires repl.data == b.data ==> Stays(b.mlen, instr, b.Contents(), pos, find.Contents(), repl.Contents())
    modifies b, b.data
    ensures b.Valid() && (b.data == old(b.data) || fresh(b.data))
    ensures (ret, b.Contents())
         == Outcome(instr, old(b.Contents()), pos, old(find.Contents()), old(repl.Contents()))
  {
    hide Replaced, Matches, FirstMatch, Expandable, Stays;
    var delta := find.slen - repl.slen;
    if delta == 0 {
      ReplaceEqual(b, find, repl, pos, instr);
      return BSTR_OK;
    }
    if delta > 0 {
      ReplaceShrink(b, find, repl, pos, instr);
      return BSTR_OK;
    }
    ret := ReplaceExpand(b, find, repl, pos, instr);
  }

  /** "bba" in 4 bytes, with its first two bytes put in place of the "a" from 2 on: the block moves. */
  lemma SharedReplMoves()
    ensures !Stays(4, Exact, [98, 98, 97], 2, [97], [98, 98])
  {
    var t: seq<byte>, f: seq<byte>, r: seq<byte> := [98, 98, 97], [97], [98, 98];
    assert MatchAt(Exact, t, 2, f);
    assert FirstMatch(Exact, t, 3, f) == BSTR_ERR;
    assert Matches(Exact, t, 3, f) == [];
    assert Matches(Exact, t, 2, f) == [2];
    assert SnapUpSize(5) == 8;
  }

  lemma NothingToReplace(k: Sameness, t: seq<byte>, pos: nat, f: seq<byte>, r: seq<byte>, mlen: int)
    requires |f| > 0 && pos + |f| > |t| && |t| < mlen <= INT_MAX
    ensures Replaced(k, t, pos, f, r) == t && Expandable(k, t, pos, f, r)
  {
    assert Matches(k, t, pos, f) == [];
  }

  /** bfindreplace. */
  method BfindReplace(b: BString, find: BString, repl: BString, pos: int) returns (ret: int)
    requires Usable(b, find, repl, pos, Exact)
    modifies b, b.data
    ensures b.Valid() && (b.data == old(b.data) || fresh(b.data))
    ensures (ret, b.Contents())
         == Outcome(Exact, old(b.Contents()), pos, old(find.Contents()), old(repl.Contents()))
  {
    ret := FindReplaceEngine(b, find, repl, pos, Exact);
  }

  /** bfindreplacecaseless. */
  method BfindReplaceCaseless(b: BString, find: BString, repl: BString, pos: int) returns (ret: int)
    requires Usable(b, find, repl, pos, Caseless)
    modifies b, b.data
    ensures b.Valid() && (b.data == old(b.data) || fresh(b.data))
    ensures (ret, b.Contents())
         == Outcome(Caseless, old(b.Contents()), pos, old(find.Contents()), old(repl.Contents()))
  {
    ret := FindReplaceEngine(b, find, repl, pos, Caseless);
  }
}
