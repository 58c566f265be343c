/** Splitting a string at a character, at any of a set of characters or at a substring, the list the
    pieces are gathered in, and joining them again. */
module Split {
  import opened Bytes
  import opened SnapUp
  import opened BStrings
  import opened CharFields
  import opened Search
  import opened Replace

  // ---- what the pieces are ----

  /** The first index at or after p of a byte in the set, or the length. */
  function NextSplit(t: seq<byte>, p: nat, chars: set<byte>): (i: nat)
    requires p <= |t|
    ensures p <= i <= |t| && (i < |t| ==> t[i] in chars)
    ensures forall j :: p <= j < i ==> t[j] !in chars
    decreases |t| - p
  {
    if p == |t| || t[p] in chars then p else NextSplit(t, p + 1, chars)
  }

  lemma NextSplitIs(t: seq<byte>, p: nat, chars: set<byte>, i: nat)
    requires p <= i <= |t| && (i < |t| ==> t[i] in chars)
    requires forall j :: p <= j < i ==> t[j] !in chars
    ensures i == NextSplit(t, p, chars)
  {
  }

  /** The pieces of t from p on. */
  function Pieces(t: seq<byte>, p: nat, chars: set<byte>): (ps: seq<seq<byte>>)
    requires p <= |t|
    ensures |ps| > 0
    decreases |t| - p
  {
    var i := NextSplit(t, p, chars);
    if i == |t| then [t[p..]] else [t[p..i]] + Pieces(t, i + 1, chars)
  }

  /** The pieces bsplitstrcb finds when the piece begins at p and the search goes on at i. After a
      match it skips the separator and then one byte more before it looks again. */
  function StrPieces(t: seq<byte>, sep: seq<byte>, p: nat, i: nat): (ps: seq<seq<byte>>)
    requires |sep| > 0 && p <= |t| && p <= i
    ensures |ps| > 0
    decreases |t| + 1 - i
  {
    if i + |sep| > |t| then [t[p..]]
    else if MatchAt(Exact, t, i, sep) then [t[p..i]] + StrPieces(t, sep, i + |sep|, i + |sep| + 1)
    else StrPieces(t, sep, p, i + 1)
  }

  function Singles(t: seq<byte>): seq<seq<byte>> {
    if t == [] then [] else [t[..1]] + Singles(t[1..])
  }

  /** The pieces a splitting function makes of a whole string. */
  function SplitStr(t: seq<byte>, sep: seq<byte>): seq<seq<byte>> {
    if sep == [] then Singles(t)
    else if |sep| == 1 then Pieces(t, 0, {sep[0]})
    else StrPieces(t, sep, 0, 0)
  }

  function Join(ps: seq<seq<byte>>, sep: seq<byte>): seq<byte> {
    if ps == [] then []
    else if |ps| == 1 then ps[0]
    else ps[0] + sep + Join(ps[1..], sep)
  }

  // ---- splitting and joining undo each other ----

  lemma {:induction false} JoinPieces(t: seq<byte>, p: nat, c: byte)
    requires p <= |t|
    ensures Join(Pieces(t, p, {c}), [c]) == t[p..]
    decreases |t| - p
  {
    hide NextSplit, Join;
    var i := NextSplit(t, p, {c});
    if i < |t| {
      JoinPieces(t, i + 1, c);
      JoinCons(t[p..i], Pieces(t, i + 1, {c}), [c]);
      CutAtByte(t, p, i);
    } else {
      JoinOne(t[p..], [c]);
    }
  }

  lemma CutAtByte(t: seq<byte>, p: nat, i: nat)
    requires p <= i < |t|
    ensures t[p..] == t[p..i] + [t[i]] + t[i + 1..]
  {
  }

  lemma JoinOne(x: seq<byte>, sep: seq<byte>)
    ensures Join([x], sep) == x
  {
  }

  lemma JoinCons(x: seq<byte>, ps: seq<seq<byte>>, sep: seq<byte>)
    requires ps != []
    ensures Join([x] + ps, sep) == x + sep + Join(ps, sep)
  {
    assert ([x] + ps)[1..] == ps;
  }

  lemma CutAtMatch(t: seq<byte>, p: nat, i: nat, sep: seq<byte>)
    requires p <= i && MatchAt(Exact, t, i, sep)
    ensures t[p..] == t[p..i] + sep + t[i + |sep|..]
  {
    assert t[i..i + |sep|] == sep;
  }

  lemma {:induction false} JoinStrPieces(t: seq<byte>, sep: seq<byte>, p: nat, i: nat)
    requires |sep| > 0 && p <= |t| && p <= i
    ensures Join(StrPieces(t, sep, p, i), sep) == t[p..]
    decreases |t| + 1 - i
  {
    hide Join, MatchAt;
    JoinOne(t[p..], sep);
    if i + |sep| > |t| {
    } else {
      if MatchAt(Exact, t, i, sep) {
        JoinStrPieces(t, sep, i + |sep|, i + |sep| + 1);
        JoinCons(t[p..i], StrPieces(t, sep, i + |sep|, i + |sep| + 1), sep);
        CutAtMatch(t, p, i, sep);
      } else {
        JoinStrPieces(t, sep, p, i + 1);
      }
    }
  }

  lemma {:induction false} JoinSingles(t: seq<byte>)
    ensures Join(Singles(t), []) == t
  {
    if t == [] {
    } else {
      JoinSingles(t[1..]);
      if t[1..] == [] {
        assert Singles(t) == [t[..1]];
      } else {
        JoinCons(t[..1], Singles(t[1..]), []);
        assert t == t[..1] + [] + t[1..];
      }
    }
  }

  /** For every separator, the empty one included, joining what bsplitstr makes gives the string back. */
  lemma JoinAfterSplit(t: seq<byte>, sep: seq<byte>)
    ensures Join(SplitStr(t, sep), sep) == t
  {
    if sep == [] {
      JoinSingles(t);
    } else if |sep| == 1 {
      JoinPieces(t, 0, sep[0]);
      assert sep == [sep[0]];
    } else {
      JoinStrPieces(t, sep, 0, 0);
    }
  }

  ghost predicate Lacks(x: seq<byte>, c: byte) {
    forall i :: 0 <= i < |x| ==> x[i] != c
  }

  lemma NextSplitShift(a: seq<byte>, t: seq<byte>, p: nat, chars: set<byte>)
    requires p <= |t|
    ensures NextSplit(a + t, |a| + p, chars) == |a| + NextSplit(t, p, chars)
  {
    var i := NextSplit(t, p, chars);
    forall j | |a| + p <= j < |a| + i ensures (a + t)[j] !in chars {
      assert (a + t)[j] == t[j - |a|];
    }
    NextSplitIs(a + t, |a| + p, chars, |a| + i);
  }

  lemma SliceShift(a: seq<byte>, t: seq<byte>, p: nat, i: nat)
    requires p <= i <= |t|
    ensures (a + t)[|a| + p..|a| + i] == t[p..i] && (a + t)[|a| + p..] == t[p..]
  {
  }

  /** Splitting looks at nothing before p. */
  lemma {:induction false} PiecesShift(a: seq<byte>, t: seq<byte>, p: nat, chars: set<byte>)
    requires p <= |t|
    ensures Pieces(a + t, |a| + p, chars) == Pieces(t, p, chars)
    decreases |t| - p
  {
    hide NextSplit;
    var i := NextSplit(t, p, chars);
    NextSplitShift(a, t, p, chars);
    SliceShift(a, t, p, i);
    if i == |t| {
    } else {
      PiecesShift(a, t, i + 1, chars);
    }
  }

  /** Splitting a joined list gives the list, when it is not empty and no entry holds the character. */
  lemma {:induction false} SplitAfterJoin(ps: seq<seq<byte>>, c: byte)
    requires ps != [] && forall k :: 0 <= k < |ps| ==> Lacks(ps[k], c)
    ensures Pieces(Join(ps, [c]), 0, {c}) == ps
  {
    var x, t := ps[0], Join(ps, [c]);
    if |ps| == 1 {
      NextSplitIs(t, 0, {c}, |t|);
    } else {
      var rest := Join(ps[1..], [c]);
      assert t == (x + [c]) + rest;
      NextSplitIs(t, 0, {c}, |x|);
      SplitAfterJoin(ps[1..], c);
      PiecesShift(x + [c], rest, 0, {c});
      assert t[..|x|] == x;
      assert Pieces(t, 0, {c}) == [x] + Pieces(rest, 0, {c});
    }
  }

  /** There is one more piece than there are split characters. */
  lemma {:induction false} PieceCount(t: seq<byte>, p: nat, chars: set<byte>)
    requires p <= |t|
    ensures |Pieces(t, p, chars)| == 1 + CountIn(t[p..], chars)
    decreases |t| - p
  {
    hide CountIn;
    CountToNext(t, p, chars);
    var i := NextSplit(t, p, chars);
    if i == |t| {
    } else {
      PieceCount(t, i + 1, chars);
    }
  }

  /** No piece holds a split character. */
  lemma {:induction false} PiecesAreFree(t: seq<byte>, p: nat, chars: set<byte>)
    requires p <= |t|
    ensures forall k, j :: 0 <= k < |Pieces(t, p, chars)| && 0 <= j < |Pieces(t, p, chars)[k]| ==>
              Pieces(t, p, chars)[k][j] !in chars
    decreases |t| - p
  {
    var i := NextSplit(t, p, chars);
    if i == |t| {
    } else {
      PiecesAreFree(t, i + 1, chars);
      var first, rest := t[p..i], Pieces(t, i + 1, chars);
      assert forall k, j :: 0 <= k < |[first] + rest| && 0 <= j < |([first] + rest)[k]| ==>
               ([first] + rest)[k][j] !in chars by {
        assert forall k :: 0 < k < |[first] + rest| ==> ([first] + rest)[k] == rest[k - 1];
      }
    }
  }

  lemma CountToNext(t: seq<byte>, p: nat, chars: set<byte>)
    requires p <= |t|
    ensures var i := NextSplit(t, p, chars);
            CountIn(t[p..], chars) == if i < |t| then 1 + CountIn(t[i + 1..], chars) else 0
  {
    var i := NextSplit(t, p, chars);
    CountNone(t[p..i], chars);
    CountAppend(t[p..i], t[i..], chars);
    assert t[p..] == t[p..i] + t[i..];
    if i < |t| {
      assert t[i..][1..] == t[i + 1..];
    }
  }

  function CountIn(t: seq<byte>, chars: set<byte>): nat {
    if t == [] then 0 else (if t[0] in chars then 1 else 0) + CountIn(t[1..], chars)
  }

  lemma {:induction false} CountNone(t: seq<byte>, chars: set<byte>)
    requires forall j :: 0 <= j < |t| ==> t[j] !in chars
    ensures CountIn(t, chars) == 0
  {
    if t == [] {
    } else {
      CountNone(t[1..], chars);
    }
  }

  lemma {:induction false} CountAppend(a: seq<byte>, b: seq<byte>, chars: set<byte>)
    ensures CountIn(a + b, chars) == CountIn(a, chars) + CountIn(b, chars)
  {
    if a == [] {
      assert a + b == b;
    } else {
      CountAppend(a[1..], b, chars);
      assert (a + b)[1..] == a[1..] + b;
    }
  }

  // ---- the callbacks ----

  /** One call of a callback: the offset of a piece and the piece. */
  type Call = (int, seq<byte>)

  function CharCalls(t: seq<byte>, p: nat, chars: set<byte>): seq<Call>
    requires p <= |t|
    decreases |t| - p
  {
    var i := NextSplit(t, p, chars);
    if i == |t| then [(p, t[p..])] else [(p, t[p..i])] + CharCalls(t, i + 1, chars)
  }

  function StrCalls(t: seq<byte>, sep: seq<byte>, p: nat, i: nat): seq<Call>
    requires |sep| > 0 && p <= |t| && p <= i
    decreases |t| + 1 - i
  {
    if i + |sep| > |t| then [(p, t[p..])]
    else if MatchAt(Exact, t, i, sep) then [(p, t[p..i])] + StrCalls(t, sep, i + |sep|, i + |sep| + 1)
    else StrCalls(t, sep, p, i + 1)
  }

  function SingleCalls(t: seq<byte>, i: nat): seq<Call>
    requires i <= |t|
    decreases |t| - i
  {
    if i == |t| then [] else [(i, t[i..i + 1])] + SingleCalls(t, i + 1)
  }

  // ---- what the calls are, without reference to how they are found ----

  /** Where the piece of a call ends. */
  function EndOf(c: Call): int {
    c.0 + |c.1|
  }

  /** The calls show sections of t from pos to the end, with gap bytes left out between them. */
  ghost predicate Sections(t: seq<byte>, pos: nat, gap: nat, calls: seq<Call>) {
    && calls != [] && calls[0].0 == pos && EndOf(calls[|calls| - 1]) == |t|
    && (forall k :: 0 <= k < |calls| ==>
          0 <= calls[k].0 && EndOf(calls[k]) <= |t| && calls[k].1 == t[calls[k].0..EndOf(calls[k])])
    && (forall k :: 0 < k < |calls| ==> calls[k].0 == EndOf(calls[k - 1]) + gap)
  }

  lemma SectionsLast(t: seq<byte>, pos: nat, gap: nat)
    requires pos <= |t|
    ensures Sections(t, pos, gap, [(pos, t[pos..])])
  {
  }

  lemma SectionsCons(t: seq<byte>, pos: nat, i: nat, gap: nat, rest: seq<Call>)
    requires pos <= i && i + gap <= |t| && Sections(t, i + gap, gap, rest)
    ensures Sections(t, pos, gap, [(pos, t[pos..i])] + rest)
  {
    var calls := [(pos, t[pos..i])] + rest;
    forall k | 0 <= k < |calls|
      ensures 0 <= calls[k].0 && EndOf(calls[k]) <= |t| && calls[k].1 == t[calls[k].0..EndOf(calls[k])]
    {
      assert k > 0 ==> calls[k] == rest[k - 1];
    }
    forall k | 0 < k < |calls| ensures calls[k].0 == EndOf(calls[k - 1]) + gap {
      assert calls[k] == rest[k - 1] && (k > 1 ==> calls[k - 1] == rest[k - 2]);
    }
    assert calls[|calls| - 1] == rest[|rest| - 1] && calls[0] == (pos, t[pos..i]);
  }

  /** The bytes left out are in the set, and no byte shown is. */
  ghost predicate CutAtChars(t: seq<byte>, pos: nat, chars: set<byte>, calls: seq<Call>) {
    && Sections(t, pos, 1, calls)
    && (forall k, j :: 0 <= k < |calls| && 0 <= j < |calls[k].1| ==> calls[k].1[j] !in chars)
    && (forall k :: 0 <= k < |calls| - 1 ==> 0 <= EndOf(calls[k]) < |t| && t[EndOf(calls[k])] in chars)
  }

  lemma {:induction false} CharCallsCut(t: seq<byte>, pos: nat, chars: set<byte>)
    requires pos <= |t|
    ensures CutAtChars(t, pos, chars, CharCalls(t, pos, chars))
    decreases |t| - pos
  {
    hide NextSplit, Sections;
    var i := NextSplit(t, pos, chars);
    if i == |t| {
      SectionsLast(t, pos, 1);
    } else {
      CharCallsCut(t, i + 1, chars);
      SectionsCons(t, pos, i, 1, CharCalls(t, i + 1, chars));
      CutAtCharsCons(t, pos, i, chars, CharCalls(t, i + 1, chars));
    }
  }

  lemma CutAtCharsCons(t: seq<byte>, pos: nat, i: nat, chars: set<byte>, rest: seq<Call>)
    requires pos <= i < |t| && t[i] in chars && forall j :: pos <= j < i ==> t[j] !in chars
    requires CutAtChars(t, i + 1, chars, rest) && Sections(t, pos, 1, [(pos, t[pos..i])] + rest)
    ensures CutAtChars(t, pos, chars, [(pos, t[pos..i])] + rest)
  {
    hide Sections;
    var calls := [(pos, t[pos..i])] + rest;
    forall k, j | 0 <= k < |calls| && 0 <= j < |calls[k].1| ensures calls[k].1[j] !in chars {
      assert k > 0 ==> calls[k] == rest[k - 1];
    }
    forall k | 0 <= k < |calls| - 1 ensures 0 <= EndOf(calls[k]) < |t| && t[EndOf(calls[k])] in chars {
      assert k > 0 ==> calls[k] == rest[k - 1];
    }
  }

  /** Only one list of calls is like that. */
  lemma {:induction false} CutAtCharsOnce(t: seq<byte>, pos: nat, chars: set<byte>, calls: seq<Call>)
    requires pos <= |t| && CutAtChars(t, pos, chars, calls)
    ensures calls == CharCalls(t, pos, chars)
    decreases |calls|
  {
    hide NextSplit, CutAtChars, Sections;
    CutAtCharsFirst(t, pos, chars, calls);
    var i := EndOf(calls[0]);
    NextSplitIs(t, pos, chars, i);
    if |calls| == 1 {
      assert t[pos..|t|] == t[pos..] && calls == [calls[0]];
    } else {
      CutAtCharsRest(t, pos, chars, calls);
      CutAtCharsOnce(t, i + 1, chars, calls[1..]);
      assert calls == [calls[0]] + calls[1..];
    }
  }

  lemma CutAtCharsFirst(t: seq<byte>, pos: nat, chars: set<byte>, calls: seq<Call>)
    requires CutAtChars(t, pos, chars, calls)
    ensures calls != [] && calls[0].0 == pos <= EndOf(calls[0]) <= |t| && calls[0].1 == t[pos..EndOf(calls[0])]
    ensures if |calls| == 1 then EndOf(calls[0]) == |t|
            else EndOf(calls[0]) < |t| && t[EndOf(calls[0])] in chars
    ensures forall j :: pos <= j < EndOf(calls[0]) ==> t[j] !in chars
  {
    forall j | pos <= j < EndOf(calls[0]) ensures t[j] !in chars {
      assert t[j] == calls[0].1[j - pos];
    }
  }

  lemma CutAtCharsRest(t: seq<byte>, pos: nat, chars: set<byte>, calls: seq<Call>)
    requires CutAtChars(t, pos, chars, calls) && |calls| > 1
    ensures CutAtChars(t, EndOf(calls[0]) + 1, chars, calls[1..])
  {
    var rest := calls[1..];
    forall k | 0 < k < |rest| ensures rest[k].0 == EndOf(rest[k - 1]) + 1 {
      assert rest[k] == calls[k + 1] && rest[k - 1] == calls[k];
    }
    assert rest[0] == calls[1];
  }

  /** The separator stands in each gap, and nowhere between the place where the search went on and there.
      It goes on at i for the first piece, and one byte after the begin of each later one. */
  ghost predicate CutAtStr(t: seq<byte>, sep: seq<byte>, pos: nat, i: nat, calls: seq<Call>) {
    && Sections(t, pos, |sep|, calls)
    && (forall k :: 0 <= k < |calls| - 1 ==> MatchAt(Exact, t, EndOf(calls[k]), sep))
    && (forall k :: 0 <= k < |calls| - 1 ==> (if k == 0 then i else calls[k].0 + 1) <= EndOf(calls[k]))
    && (forall k, q | 0 <= k < |calls| && (if k == 0 then i else calls[k].0 + 1) <= q
                      && (k == |calls| - 1 || q < EndOf(calls[k])) :: !MatchAt(Exact, t, q, sep))
  }

  lemma {:induction false} StrCallsCut(t: seq<byte>, sep: seq<byte>, p: nat, i: nat)
    requires |sep| > 0 && p <= |t| && p <= i
    ensures CutAtStr(t, sep, p, i, StrCalls(t, sep, p, i))
    decreases |t| + 1 - i
  {
    hide Sections, MatchAt;
    if i + |sep| > |t| {
      SectionsLast(t, p, |sep|);
      NoMatchPast(t, sep, i);
    } else if MatchAt(Exact, t, i, sep) {
      var rest := StrCalls(t, sep, i + |sep|, i + |sep| + 1);
      StrCallsCut(t, sep, i + |sep|, i + |sep| + 1);
      CutAtStrCons(t, sep, p, i, rest);
    } else {
      StrCallsCut(t, sep, p, i + 1);
    }
  }

  lemma NoMatchPast(t: seq<byte>, sep: seq<byte>, i: nat)
    requires i + |sep| > |t|
    ensures forall q :: i <= q ==> !MatchAt(Exact, t, q, sep)
  {
  }

  lemma CutAtStrCons(t: seq<byte>, sep: seq<byte>, p: nat, i: nat, rest: seq<Call>)
    requires |sep| > 0 && p <= i && i + |sep| <= |t| && MatchAt(Exact, t, i, sep)
    requires CutAtStr(t, sep, i + |sep|, i + |sep| + 1, rest)
    ensures CutAtStr(t, sep, p, i, [(p, t[p..i])] + rest)
  {
    hide MatchAt;
    var calls := [(p, t[p..i])] + rest;
    SectionsCons(t, p, i, |sep|, rest);
    assert rest[0].0 == i + |sep|;
    forall k | 0 < k < |calls| ensures calls[k] == rest[k - 1] {
    }
    assert EndOf(calls[0]) == i;
  }

  /** The calls of bsplitscb from pos on; without split characters, the whole string at once. */
  lemma SetCallsCut(t: seq<byte>, pos: nat, splitStr: seq<byte>)
    requires pos <= |t|
    ensures if splitStr == [] then SetCalls(t, pos, splitStr) == [(0, t)]
            else CutAtChars(t, pos, (set c | c in splitStr), SetCalls(t, pos, splitStr))
  {
    hide CutAtChars, CharCalls;
    CharCallsCut(t, pos, CharsOf(splitStr));
  }

  /** The calls of bsplitstrcb from pos on. */
  lemma SepCallsCut(t: seq<byte>, pos: nat, sep: seq<byte>)
    requires pos <= |t|
    ensures var calls := SepCalls(t, pos, sep);
            if sep == [] then
              |calls| == |t| - pos && forall k :: 0 <= k < |calls| ==> calls[k] == (pos + k, [t[pos + k]])
            else if |sep| == 1 then CutAtChars(t, pos, {sep[0]}, calls)
            else CutAtStr(t, sep, pos, pos, calls)
  {
    hide CutAtChars, CutAtStr, CharCalls, StrCalls;
    if sep == [] {
      SingleCallsAre(t, pos);
    } else if |sep| == 1 {
      CharCallsCut(t, pos, {sep[0]});
    } else {
      StrCallsCut(t, sep, pos, pos);
    }
  }

  lemma {:induction false} SingleCallsAre(t: seq<byte>, pos: nat)
    requires pos <= |t|
    ensures var calls := SingleCalls(t, pos);
            |calls| == |t| - pos && forall k :: 0 <= k < |calls| ==> calls[k] == (pos + k, [t[pos + k]])
    decreases |t| - pos
  {
    if pos == |t| {
    } else {
      SingleCallsAre(t, pos + 1);
      var calls, rest := SingleCalls(t, pos), SingleCalls(t, pos + 1);
      assert t[pos..pos + 1] == [t[pos]] && calls == [(pos, t[pos..pos + 1])] + rest;
      forall k | 0 <= k < |calls| ensures calls[k] == (pos + k, [t[pos + k]]) {
        assert k > 0 ==> calls[k] == rest[k - 1];
      }
    }
  }

  /** The pieces of bsplitstr are those of its calls. */
  lemma SplitStrShows(t: seq<byte>, sep: seq<byte>)
    ensures SplitStr(t, sep) == Entries(SepCalls(t, 0, sep))
  {
    if sep == [] {
      SingleEntries(t, 0);
      assert t[0..] == t;
    } else if |sep| == 1 {
      CharEntries(t, 0, {sep[0]});
    } else {
      StrEntries(t, sep, 0, 0);
    }
  }

  /** With one byte for a separator, bsplitstr makes one piece more than it occurs, and none that holds it. */
  lemma SplitStrAtByte(t: seq<byte>, c: byte)
    ensures |SplitStr(t, [c])| == 1 + multiset(t)[c]
    ensures forall k :: 0 <= k < |SplitStr(t, [c])| ==> c !in SplitStr(t, [c])[k]
  {
    PieceCount(t, 0, {c});
    CountIsMultiset(t, c);
    PiecesAreFree(t, 0, {c});
    assert t[0..] == t;
  }

  lemma {:induction false} CountIsMultiset(t: seq<byte>, c: byte)
    ensures CountIn(t, {c}) == multiset(t)[c]
  {
    if t == [] {
    } else {
      CountIsMultiset(t[1..], c);
      assert t == [t[0]] + t[1..];
    }
  }

  /** With no separator, it makes a piece of each byte. */
  lemma SplitStrAtNothing(t: seq<byte>)
    ensures |SplitStr(t, [])| == |t| && forall k :: 0 <= k < |t| ==> SplitStr(t, [])[k] == [t[k]]
  {
    SplitStrShows(t, []);
    SepCallsCut(t, 0, []);
  }

  /** What a callback returns: any function of all the calls it has had, the last one included. */
  type Verdict = seq<Call> -> int

  /** The calls the callback has had after those of rest up to the first with a negative result, and what
      is returned. */
  function Made(before: seq<Call>, rest: seq<Call>, verdict: Verdict): (seq<Call>, int)
    decreases |rest|
  {
    if rest == [] then (before, BSTR_OK)
    else
      var now := before + [rest[0]];
      var v := verdict(now);
      if v < 0 then (now, v) else Made(now, rest[1..], verdict)
  }

  /** The calls are made one after the other, as long as none returns a negative value; the last one made
      decides what is returned. */
  lemma {:induction false} MadeInOrder(before: seq<Call>, rest: seq<Call>, verdict: Verdict)
    ensures var (calls, ret) := Made(before, rest, verdict);
            var n := |calls| - |before|;
            && 0 <= n <= |rest| && calls == before + rest[..n]
            && (forall m :: 0 < m < n ==> verdict(before + rest[..m]) >= 0)
            && if ret < 0 then n > 0 && ret == verdict(calls)
               else ret == BSTR_OK && n == |rest| && (n > 0 ==> verdict(calls) >= 0)
    decreases |rest|
  {
    if rest == [] {
    } else {
      var now := before + [rest[0]];
      MadeInOrder(now, rest[1..], verdict);
      var n := |Made(before, rest, verdict).0| - |before|;
      assert before + rest[..1] == now;
      forall m | 0 < m <= n && verdict(now) >= 0 ensures before + rest[..m] == now + rest[1..][..m - 1] {
      }
    }
  }

  lemma MadeFails(before: seq<Call>, rest: seq<Call>, verdict: Verdict)
    ensures var (calls, ret) := Made(before, rest, verdict); ret == BSTR_OK || (ret < 0 && calls != [])
  {
    hide Made;
    MadeInOrder(before, rest, verdict);
  }

  function Entries(calls: seq<Call>): (ps: seq<seq<byte>>)
    ensures |ps| == |calls|
  {
    seq(|calls|, k requires 0 <= k < |calls| => calls[k].1)
  }

  lemma EntriesOne(c: Call)
    ensures Entries([c]) == [c.1]
  {
  }

  lemma EntriesCons(c: Call, calls: seq<Call>)
    ensures Entries([c] + calls) == [c.1] + Entries(calls)
  {
  }

  lemma {:induction false} CharEntries(t: seq<byte>, p: nat, chars: set<byte>)
    requires p <= |t|
    ensures Entries(CharCalls(t, p, chars)) == Pieces(t, p, chars)
    decreases |t| - p
  {
    hide NextSplit, Entries;
    var i := NextSplit(t, p, chars);
    EntriesOne((p, t[p..]));
    if i == |t| {
    } else {
      CharEntries(t, i + 1, chars);
      EntriesCons((p, t[p..i]), CharCalls(t, i + 1, chars));
    }
  }

  lemma {:induction false} StrEntries(t: seq<byte>, sep: seq<byte>, p: nat, i: nat)
    requires |sep| > 0 && p <= |t| && p <= i
    ensures Entries(StrCalls(t, sep, p, i)) == StrPieces(t, sep, p, i)
    decreases |t| + 1 - i
  {
    hide MatchAt, Entries;
    EntriesOne((p, t[p..]));
    if i + |sep| > |t| {
    } else {
      if MatchAt(Exact, t, i, sep) {
        EntriesCons((p, t[p..i]), StrCalls(t, sep, i + |sep|, i + |sep| + 1));
        StrEntries(t, sep, i + |sep|, i + |sep| + 1);
      } else {
        StrEntries(t, sep, p, i + 1);
      }
    }
  }

  lemma {:induction false} SingleEntries(t: seq<byte>, i: nat)
    requires i <= |t|
    ensures Entries(SingleCalls(t, i)) == Singles(t[i..])
    decreases |t| - i
  {
    if i == |t| {
    } else {
      SingleEntries(t, i + 1);
      assert t[i..][1..] == t[i + 1..];
      assert t[i..][..1] == t[i..i + 1];
    }
  }

  /** The number of entries a list can take before doubling its capacity overflows. */
  const LIST_MAX := 0x4000_0000

  /** struct bstrList. Its entries are never changed after they are made, so they are held by value. */
  class BstrList {
    var qty: int
    var mlen: int
    var entry: array<seq<byte>>

    ghost predicate Valid()
      reads this
    {
      0 <= qty <= mlen == entry.Length <= INT_MAX && 0 < mlen
    }

    ghost function List(): seq<seq<byte>>
      requires Valid()
      reads this, entry
    {
      entry[..qty]
    }

    /** The capacity is as bscb leaves it, a power of two. */
    ghost predicate Doubled()
      reads this
    {
      0 < mlen <= LIST_MAX && IsPow2(mlen)
    }

    /** The list bsplit and bsplitstr start with. */
    constructor ()
      ensures Valid() && Doubled() && List() == [] && fresh(entry)
    {
      qty, mlen := 0, 4;
      entry := new seq<byte>[4];
      new;
      assert mlen == Pow2(2);
    }

    /** bscb. It fails, changing nothing, exactly when the list is full and its capacity cannot be
        doubled. */
    method Bscb(b: BString, ofs: int, len: int) returns (ret: int)
      requires Valid() && b.Valid()
      requires 0 <= ofs && 0 <= len && ofs + len <= b.slen
      modifies this, entry
      ensures Valid() && (entry == old(entry) || fresh(entry))
      ensures ret == if old(qty) < old(mlen) || 2 * old(mlen) <= INT_MAX then BSTR_OK else BSTR_ERR
      ensures List() == if ret == BSTR_OK then old(List()) + [b.Contents()[ofs..ofs + len]] else old(List())
      ensures old(Doubled()) ==> Doubled() && (ret == BSTR_OK <==> old(qty) < LIST_MAX)
    {
      hide IsPow2, AsInt32;
      if qty >= mlen {
        DoubleCapacity(mlen);
        var m := AsInt32(mlen * 2);
        if qty >= m {   // m has wrapped
          return BSTR_ERR;
        }
        var e := new seq<byte>[m];
        forall k | 0 <= k < mlen {
          e[k] := entry[k];
        }
        assert e[..qty] == entry[..qty];
        entry := e;
        mlen := m;
      }
      var r := Bmidstr(b, ofs, len);
      assert r.Contents() == b.Contents()[ofs..ofs + len];
      entry[qty] := r.data[..r.slen];
      qty := qty + 1;
      return BSTR_OK;
    }
  }

  lemma DoubleCapacity(n: nat)
    requires 0 < n <= INT_MAX
    ensures if 2 * n <= INT_MAX then AsInt32(n * 2) == 2 * n else AsInt32(n * 2) < 0
    ensures IsPow2(n) && n < LIST_MAX ==> IsPow2(2 * n) && 2 * n <= LIST_MAX
  {
    if IsPow2(n) {
      DoublePow2(n);
    }
  }

  /** A callback with its parm: bscb filling a list, or any function of the calls it has had. */
  class Callback {
    const list: BstrList?
    const verdict: Verdict
    /** The calls made so far. */
    var calls: seq<Call>

    ghost predicate Valid()
      reads this, list, if list == null then {} else {list.entry}
    {
      list != null ==>
        && FillsList(verdict)
        && list.Valid() && list.Doubled() && list.List() == Entries(Kept(calls))
    }

    ghost function Repr(): set<object>
      reads this, list
    {
      {this as object} + if list == null then {} else {list as object, list.entry as object}
    }

    constructor (list: BstrList?, verdict: Verdict)
      requires list != null ==> list.Valid() && list.Doubled() && list.List() == [] && FillsList(verdict)
      ensures Valid() && this.list == list && this.verdict == verdict && calls == []
    {
      this.list, this.verdict := list, verdict;
      calls := [];
    }

    /** cb(parm, ofs, len) for a section of str. */
    method Section(str: BString, ofs: int, len: int) returns (ret: int)
      requires Valid() && str.Valid() && str.data as object !in Repr()
      requires 0 <= ofs && 0 <= len && ofs + len <= str.slen
      modifies Repr()
      ensures Valid() && fresh(Repr() - old(Repr()))
      ensures str.Valid() && str.Contents() == old(str.Contents()) && str.data as object !in Repr()
      ensures calls == old(calls) + [(ofs, str.Contents()[ofs..ofs + len])] && ret == verdict(calls)
    {
      var e := str.Slice(ofs, ofs + len);
      KeptAppend(calls, (ofs, e));
      var now := calls + [(ofs, e)];
      if list != null {
        assert str.data as object != list.entry as object;
        ret := list.Bscb(str, ofs, len);
        assert str.Contents() == old(str.Contents());
      } else {
        ret := verdict(now);
      }
      calls := now;
    }

    /** cb(parm, ofs, entry) of the streaming functions. */
    method Entry(ofs: int, entry: seq<byte>) returns (ret: int)
      requires list == null
      modifies this
      ensures calls == old(calls) + [(ofs, entry)] && ret == verdict(calls)
    {
      calls := calls + [(ofs, entry)];
      ret := verdict(calls);
    }
  }

  /** What bscb returns: it fails when the list is full. */
  ghost predicate FillsList(verdict: Verdict) {
    forall calls :: verdict(calls) == if |calls| <= LIST_MAX then BSTR_OK else BSTR_ERR
  }

  /** The calls whose pieces are in the list. */
  ghost function Kept(calls: seq<Call>): seq<Call> {
    if |calls| <= LIST_MAX then calls else calls[..LIST_MAX]
  }

  lemma KeptAppend(calls: seq<Call>, c: Call)
    ensures |Kept(calls)| == if |calls| <= LIST_MAX then |calls| else LIST_MAX
    ensures Entries(Kept(calls + [c]))
         == if |calls| < LIST_MAX then Entries(Kept(calls)) + [c.1] else Entries(Kept(calls))
  {
    if |calls| >= LIST_MAX {
      assert (calls + [c])[..LIST_MAX] == calls[..LIST_MAX];
    }
  }

  /** A list takes all the calls, or stops at the first one too many. */
  lemma {:induction false} MadeByList(before: seq<Call>, rest: seq<Call>, verdict: Verdict)
    requires FillsList(verdict) && |before| <= LIST_MAX
    ensures Made(before, rest, verdict)
         == if |before + rest| <= LIST_MAX then (before + rest, BSTR_OK)
            else ((before + rest)[..LIST_MAX + 1], BSTR_ERR)
    decreases |rest|
  {
    if rest == [] {
      assert before + rest == before;
    } else {
      var now := before + [rest[0]];
      assert now + rest[1..] == before + rest;
      if |now| <= LIST_MAX {
        MadeByList(now, rest[1..], verdict);
      } else {
        assert (before + rest)[..LIST_MAX + 1] == now;
      }
    }
  }

  /** The callback has had the calls now, and the calls still to come would be rest. */
  ghost predicate Underway(c0: seq<Call>, all: seq<Call>, now: seq<Call>, rest: seq<Call>, verdict: Verdict) {
    Made(c0, all, verdict) == Made(now, rest, verdict)
  }

  lemma UnderwayStart(c0: seq<Call>, all: seq<Call>, verdict: Verdict)
    ensures Underway(c0, all, c0, all, verdict)
  {
  }

  lemma UnderwayStep(c0: seq<Call>, all: seq<Call>, now: seq<Call>, head: Call, rest: seq<Call>, verdict: Verdict)
    requires Underway(c0, all, now, [head] + rest, verdict)
    ensures var v := verdict(now + [head]);
            if v < 0 then Made(c0, all, verdict) == (now + [head], v)
            else Underway(c0, all, now + [head], rest, verdict)
  {
    assert ([head] + rest)[1..] == rest;
  }

  lemma UnderwayEnd(c0: seq<Call>, all: seq<Call>, now: seq<Call>, verdict: Verdict)
    requires Underway(c0, all, now, [], verdict)
    ensures Made(c0, all, verdict) == (now, BSTR_OK)
  {
  }

  /** A split of t in the middle: rest are the calls still to come. */
  ghost predicate Splitting(cb: Callback, str: BString, t: seq<byte>, c0: seq<Call>, all: seq<Call>, rest: seq<Call>)
    reads cb, cb.Repr(), str, str.data
  {
    && str.Valid() && str.Contents() == t && str.data as object !in cb.Repr()
    && cb.Valid() && Underway(c0, all, cb.calls, rest, cb.verdict)
  }

  /** The callback has been called as it should have been, and ret is to be returned. */
  ghost predicate Finished(cb: Callback, c0: seq<Call>, all: seq<Call>, ret: int)
    reads cb, cb.Repr()
  {
    cb.Valid() && (cb.calls, ret) == Made(c0, all, cb.verdict)
  }

  lemma SplittingStarts(cb: Callback, str: BString, all: seq<Call>)
    requires str.Valid() && cb.Valid() && str.data as object !in cb.Repr()
    ensures Splitting(cb, str, str.Contents(), cb.calls, all, all)
  {
    hide Made;
    UnderwayStart(cb.calls, all, cb.verdict);
  }

  lemma SplittingEnds(cb: Callback, str: BString, t: seq<byte>, c0: seq<Call>, all: seq<Call>)
    requires Splitting(cb, str, t, c0, all, [])
    ensures Finished(cb, c0, all, BSTR_OK)
  {
    hide Made;
    UnderwayEnd(c0, all, cb.calls, cb.verdict);
  }

  /** One call of the callback, for the piece from p to i. */
  method ShowPiece(cb: Callback, str: BString, p: nat, i: nat, ghost t: seq<byte>, ghost c0: seq<Call>,
                   ghost all: seq<Call>, ghost rest: seq<Call>)
    returns (ret: int)
    requires p <= i <= |t| && Splitting(cb, str, t, c0, all, [(p, t[p..i])] + rest)
    modifies cb.Repr()
    ensures fresh(cb.Repr() - old(cb.Repr()))
    ensures if ret < 0 then Finished(cb, c0, all, ret) else Splitting(cb, str, t, c0, all, rest)
  {
    hide Made, Underway, FillsList;
    UnderwayStep(c0, all, cb.calls, (p, t[p..i]), rest, cb.verdict);
    ret := cb.Section(str, p, i - p);
  }

  /** The calls after a piece that ended at p - 1; past the end of the string there are none. */
  function MoreCalls(t: seq<byte>, p: nat, chars: set<byte>): seq<Call> {
    if p > |t| then [] else CharCalls(t, p, chars)
  }

  lemma CharCallsStep(t: seq<byte>, p: nat, chars: set<byte>, i: nat)
    requires p <= i <= |t| && (i < |t| ==> t[i] in chars)
    requires forall j :: p <= j < i ==> t[j] !in chars
    ensures MoreCalls(t, p, chars) == [(p, t[p..i])] + MoreCalls(t, i + 1, chars)
  {
    NextSplitIs(t, p, chars, i);
    if NextSplit(t, p, chars) == |t| {
      assert t[p..|t|] == t[p..];
    }
  }

  /** bsplitcb. */
  method Bsplitcb(str: BString, splitChar: byte, pos: int, cb: Callback) returns (ret: int)
    requires str.Valid() && cb.Valid()
    requires str.data as object !in cb.Repr()
    modifies cb.Repr()
    ensures fresh(cb.Repr() - old(cb.Repr()))
    ensures if pos < 0 || pos > str.slen then ret == BSTR_ERR && unchanged(cb) && cb.Valid()
            else Finished(cb, old(cb.calls), CharCalls(str.Contents(), pos, {splitChar}), ret)
  {
    hide Splitting, Finished, CharCalls, NextSplit, Made, FillsList, Entries, Kept;
    if pos < 0 || pos > str.slen {
      return BSTR_ERR;
    }
    ghost var t, c0, all, chars := str.Contents(), cb.calls, CharCalls(str.Contents(), pos, {splitChar}), {splitChar};
    SplittingStarts(cb, str, all);
    var p := pos;
    while true
      invariant 0 <= p <= |t| && str.Valid() && str.Contents() == t
      invariant fresh(cb.Repr() - old(cb.Repr()))
      invariant Splitting(cb, str, t, c0, all, MoreCalls(t, p, chars))
      decreases |t| - p
    {
      var i := p;
      while i < str.slen && str.data[i] != splitChar
        invariant p <= i <= |t| && forall j :: p <= j < i ==> t[j] != splitChar
      {
        i := i + 1;
      }
      CharCallsStep(t, p, chars, i);
      ret := ShowPiece(cb, str, p, i, t, c0, all, MoreCalls(t, i + 1, chars));
      if ret < 0 {
        return;
      }
      p := i + 1;
      if p > str.slen {
        SplittingEnds(cb, str, t, c0, all);
        return BSTR_OK;
      }
    }
  }

  /** bsplitscb. With no split characters the whole string is shown once, whatever pos is. */
  method Bsplitscb(str: BString, splitStr: seq<byte>, pos: int, cb: Callback) returns (ret: int)
    requires str.Valid() && cb.Valid()
    requires str.data as object !in cb.Repr()
    modifies cb.Repr()
    ensures fresh(cb.Repr() - old(cb.Repr()))
    ensures if pos < 0 || pos > str.slen then ret == BSTR_ERR && unchanged(cb) && cb.Valid()
            else Finished(cb, old(cb.calls), SetCalls(str.Contents(), pos, splitStr), ret)
  {
    hide Finished, CharCalls, Made, FillsList, Entries, Kept;
    if pos < 0 || pos > str.slen {
      return BSTR_ERR;
    }
    if |splitStr| == 0 {
      ret := SplitNot(str, cb);
      return;
    }
    if |splitStr| == 1 {
      ret := Bsplitcb(str, splitStr[0], pos, cb);
      assert CharsOf(splitStr) == {splitStr[0]};
      return;
    }
    var chrs := new CharField();
    ret := chrs.Build(splitStr);
    ret := SplitField(str, chrs, CharsOf(splitStr), pos, cb);
  }

  /** bsplitscb without split characters. */
  method SplitNot(str: BString, cb: Callback) returns (ret: int)
    requires str.Valid() && cb.Valid() && str.data as object !in cb.Repr()
    modifies cb.Repr()
    ensures fresh(cb.Repr() - old(cb.Repr()))
    ensures Finished(cb, old(cb.calls), [(0, str.Contents())], ret)
  {
    MadeOne(cb.calls, (0, str.Contents()), cb.verdict);
    assert str.Contents()[0..str.slen] == str.Contents();
    ret := cb.Section(str, 0, str.slen);
    if ret > 0 {
      ret := 0;
    }
  }

  lemma MadeOne(before: seq<Call>, c: Call, verdict: Verdict)
    ensures var now := before + [c];
            Made(before, [c], verdict) == (now, if verdict(now) < 0 then verdict(now) else BSTR_OK)
  {
    assert [c][1..] == [];
  }

  /** The calls of bsplitscb. */
  function SetCalls(t: seq<byte>, pos: nat, splitStr: seq<byte>): seq<Call>
    requires pos <= |t|
  {
    if splitStr == [] then [(0, t)] else CharCalls(t, pos, CharsOf(splitStr))
  }

  /** bsplitscb, the loop. */
  method SplitField(str: BString, chrs: CharField, ghost chars: set<byte>, pos: nat, cb: Callback) returns (ret: int)
    requires str.Valid() && cb.Valid() && pos <= str.slen
    requires str.data as object !in cb.Repr()
    requires chrs.Valid() && chrs.Holds(chars) && chrs.content as object !in cb.Repr()
    modifies cb.Repr()
    ensures fresh(cb.Repr() - old(cb.Repr()))
    ensures Finished(cb, old(cb.calls), CharCalls(str.Contents(), pos, chars), ret)
  {
    hide Splitting, Finished, CharCalls, NextSplit, Made, FillsList, Entries, Kept;
    ghost var t, c0, all := str.Contents(), cb.calls, CharCalls(str.Contents(), pos, chars);
    SplittingStarts(cb, str, all);
    var p := pos;
    while true
      invariant 0 <= p <= |t| && str.Valid() && str.Contents() == t
      invariant fresh(cb.Repr() - old(cb.Repr())) && chrs.Holds(chars) && chrs.content as object !in cb.Repr()
      invariant Splitting(cb, str, t, c0, all, MoreCalls(t, p, chars))
      decreases |t| - p
    {
      var i := p;
      while i < str.slen && !chrs.Test(str.data[i])
        invariant p <= i <= |t| && forall j :: p <= j < i ==> t[j] !in chars
      {
        assert t[i] !in chars;
        i := i + 1;
      }
      CharCallsStep(t, p, chars, i);
      ret := ShowPiece(cb, str, p, i, t, c0, all, MoreCalls(t, i + 1, chars));
      if ret < 0 {
        return;
      }
      p := i + 1;
      if p > str.slen {
        SplittingEnds(cb, str, t, c0, all);
        return BSTR_OK;
      }
    }
  }

  /** The calls of bsplitstrcb. */
  function SepCalls(t: seq<byte>, pos: nat, sep: seq<byte>): seq<Call>
    requires pos <= |t|
  {
    if sep == [] then SingleCalls(t, pos)
    else if |sep| == 1 then CharCalls(t, pos, {sep[0]})
    else StrCalls(t, sep, pos, pos)
  }

  /** bsplitstrcb. */
  method Bsplitstrcb(str: BString, splitStr: seq<byte>, pos: int, cb: Callback) returns (ret: int)
    requires str.Valid() && cb.Valid()
    requires str.data as object !in cb.Repr()
    modifies cb.Repr()
    ensures fresh(cb.Repr() - old(cb.Repr()))
    ensures if pos < 0 || pos > str.slen then ret == BSTR_ERR && unchanged(cb) && cb.Valid()
            else Finished(cb, old(cb.calls), SepCalls(str.Contents(), pos, splitStr), ret)
  {
    hide Finished, CharCalls, StrCalls, SingleCalls;
    if pos < 0 || pos > str.slen {
      return BSTR_ERR;
    }
    if |splitStr| == 0 {
      ret := SplitSingles(str, pos, cb);
    } else if |splitStr| == 1 {
      ret := Bsplitcb(str, splitStr[0], pos, cb);
    } else {
      ret := SplitAtStr(str, splitStr, pos, cb);
    }
  }

  /** bsplitstrcb with an empty separator: one call for each byte. */
  method SplitSingles(str: BString, pos: nat, cb: Callback) returns (ret: int)
    requires str.Valid() && cb.Valid() && pos <= str.slen
    requires str.data as object !in cb.Repr()
    modifies cb.Repr()
    ensures fresh(cb.Repr() - old(cb.Repr()))
    ensures Finished(cb, old(cb.calls), SingleCalls(str.Contents(), pos), ret)
  {
    hide Splitting, Finished, Made, FillsList, Entries, Kept;
    ghost var t, c0, all := str.Contents(), cb.calls, SingleCalls(str.Contents(), pos);
    SplittingStarts(cb, str, all);
    var i := pos;
    while i < str.slen
      invariant pos <= i <= |t| && str.Valid() && str.Contents() == t
      invariant fresh(cb.Repr() - old(cb.Repr()))
      invariant Splitting(cb, str, t, c0, all, SingleCalls(t, i))
    {
      ret := ShowPiece(cb, str, i, i + 1, t, c0, all, SingleCalls(t, i + 1));
      if ret < 0 {
        return;
      }
      i := i + 1;
    }
    SplittingEnds(cb, str, t, c0, all);
    return BSTR_OK;
  }

  lemma StrCallsStep(t: seq<byte>, sep: seq<byte>, p: nat, i: nat)
    requires |sep| > 0 && p <= |t| && p <= i
    ensures StrCalls(t, sep, p, i) ==
            if i + |sep| > |t| then [(p, t[p..])]
            else if MatchAt(Exact, t, i, sep) then [(p, t[p..i])] + StrCalls(t, sep, i + |sep|, i + |sep| + 1)
            else StrCalls(t, sep, p, i + 1)
  {
  }

  /** bsplitstrcb with a separator of two bytes or more. */
  method SplitAtStr(str: BString, splitStr: seq<byte>, pos: nat, cb: Callback) returns (ret: int)
    requires str.Valid() && cb.Valid() && pos <= str.slen && |splitStr| >= 2
    requires str.data as object !in cb.Repr()
    modifies cb.Repr()
    ensures fresh(cb.Repr() - old(cb.Repr()))
    ensures Finished(cb, old(cb.calls), StrCalls(str.Contents(), splitStr, pos, pos), ret)
  {
    hide Splitting, Finished, Made, MatchAt, StrCalls, FillsList, Entries, Kept;
    ghost var t, c0, all := str.Contents(), cb.calls, StrCalls(str.Contents(), splitStr, pos, pos);
    SplittingStarts(cb, str, all);
    var i, p := pos, pos;
    while i <= str.slen - |splitStr|
      invariant 0 <= p <= i && p <= |t| && str.Valid() && str.Contents() == t
      invariant fresh(cb.Repr() - old(cb.Repr()))
      invariant Splitting(cb, str, t, c0, all, StrCalls(t, splitStr, p, i))
      decreases |t| + 1 - i
    {
      ExactMatch(t, i, splitStr);
      StrCallsStep(t, splitStr, p, i);
      if splitStr == str.data[i..i + |splitStr|] {
        ret := ShowPiece(cb, str, p, i, t, c0, all, StrCalls(t, splitStr, i + |splitStr|, i + |splitStr| + 1));
        if ret < 0 {
          return;
        }
        i := i + |splitStr|;
        p := i;
        assert Splitting(cb, str, t, c0, all, StrCalls(t, splitStr, p, i + 1));
      } else {
        assert StrCalls(t, splitStr, p, i) == StrCalls(t, splitStr, p, i + 1);
      }
      i := i + 1;
    }
    StrCallsStep(t, splitStr, p, i);
    assert t[p..|t|] == t[p..] && [(p, t[p..])] == [(p, t[p..])] + [];
    ret := ShowPiece(cb, str, p, str.slen, t, c0, all, []);
    if ret < 0 {
      return;
    }
    SplittingEnds(cb, str, t, c0, all);
    return BSTR_OK;
  }

  /** What a list made by a split holds: the pieces; there is no list if they are too many for one. */
  ghost predicate ListOf(bl: BstrList?, ps: seq<seq<byte>>)
    reads bl, if bl == null then {} else {bl.entry}
  {
    if |ps| > LIST_MAX then bl == null else bl != null && bl.Valid() && bl.List() == ps
  }

  /** The end of bsplit, bsplits and bsplitstr: a list that could not take all pieces is given up. */
  method ListOrNull(g: Callback, ret: int, ghost all: seq<Call>) returns (bl: BstrList?)
    requires g.list != null && Finished(g, [], all, ret)
    ensures (bl == null || bl == g.list) && ListOf(bl, Entries(all))
  {
    hide Made;
    MadeByList([], all, g.verdict);
    assert [] + all == all;
    return if ret < 0 then null else g.list;
  }

  /** bsplit. */
  method Bsplit(str: BString, splitChar: byte) returns (bl: BstrList?)
    requires str.Valid()
    ensures bl != null ==> fresh(bl) && fresh(bl.entry)
    ensures ListOf(bl, Pieces(str.Contents(), 0, {splitChar}))
  {
    hide Finished, ListOf;
    var list := new BstrList();
    var g := new Callback(list, calls => if |calls| <= LIST_MAX then BSTR_OK else BSTR_ERR);
    var ret := Bsplitcb(str, splitChar, 0, g);
    bl := ListOrNull(g, ret, CharCalls(str.Contents(), 0, {splitChar}));
    CharEntries(str.Contents(), 0, {splitChar});
  }

  /** bsplits. */
  method Bsplits(str: BString, splitStr: seq<byte>) returns (bl: BstrList?)
    requires str.Valid()
    ensures bl != null ==> fresh(bl) && fresh(bl.entry)
    ensures ListOf(bl, if splitStr == [] then [str.Contents()] else Pieces(str.Contents(), 0, CharsOf(splitStr)))
  {
    hide Finished, ListOf;
    var list := new BstrList();
    var g := new Callback(list, calls => if |calls| <= LIST_MAX then BSTR_OK else BSTR_ERR);
    var ret := Bsplitscb(str, splitStr, 0, g);
    bl := ListOrNull(g, ret, SetCalls(str.Contents(), 0, splitStr));
    CharEntries(str.Contents(), 0, CharsOf(splitStr));
  }

  /** bsplitstr. */
  method Bsplitstr(str: BString, splitStr: seq<byte>) returns (bl: BstrList?)
    requires str.Valid()
    ensures bl != null ==> fresh(bl) && fresh(bl.entry)
    ensures ListOf(bl, SplitStr(str.Contents(), splitStr))
  {
    hide Finished, ListOf;
    var list := new BstrList();
    var g := new Callback(list, calls => if |calls| <= LIST_MAX then BSTR_OK else BSTR_ERR);
    var ret := Bsplitstrcb(str, splitStr, 0, g);
    bl := ListOrNull(g, ret, SepCalls(str.Contents(), 0, splitStr));
    ghost var t := str.Contents();
    if splitStr == [] {
      SingleEntries(t, 0);
    } else if |splitStr| == 1 {
      CharEntries(t, 0, {splitStr[0]});
    } else {
      StrEntries(t, splitStr, 0, 0);
    }
    assert t[0..] == t;
  }

  // ---- joining in one block of the right size ----

  function Sizes(ps: seq<seq<byte>>): nat {
    if ps == [] then 0 else Sizes(ps[..|ps| - 1]) + |ps[|ps| - 1]|
  }

  lemma {:induction false} JoinSnoc(ps: seq<seq<byte>>, x: seq<byte>, sep: seq<byte>)
    requires ps != []
    ensures Join(ps + [x], sep) == Join(ps, sep) + sep + x
  {
    if |ps| == 1 {
      assert (ps + [x])[1..] == [x];
    } else {
      JoinSnoc(ps[1..], x, sep);
      assert (ps + [x])[1..] == ps[1..] + [x];
      ConcatAssoc4(ps[0] + sep, Join(ps[1..], sep), sep, x);
    }
  }

  lemma {:induction false} JoinSize(ps: seq<seq<byte>>, sep: seq<byte>)
    requires ps != []
    ensures |Join(ps, sep)| == Sizes(ps) + (|ps| - 1) * |sep|
  {
    var init, x := ps[..|ps| - 1], ps[|ps| - 1];
    assert ps == init + [x];
    if init == [] {
    } else {
      JoinSize(init, sep);
      JoinSnoc(init, x, sep);
      Distribute(|init| - 1, |sep|);
    }
  }

  lemma {:induction false} SizesMono(ps: seq<seq<byte>>, k: nat)
    requires k <= |ps|
    ensures Sizes(ps[..k]) <= Sizes(ps)
  {
    if k < |ps| {
      SizesMono(ps[..|ps| - 1], k);
      assert ps[..|ps| - 1][..k] == ps[..k];
    } else {
      assert ps[..k] == ps;
    }
  }

  lemma SizesNext(ps: seq<seq<byte>>, i: nat)
    requires i < |ps|
    ensures Sizes(ps[..i + 1]) == Sizes(ps[..i]) + |ps[i]| && Sizes(ps[..i + 1]) <= Sizes(ps) && Sizes(ps[..0]) == 0
  {
    assert ps[..i + 1][..i] == ps[..i];
    SizesMono(ps, i + 1);
  }

  lemma ProductAtLeast0(a: nat, b: nat)
    ensures a * b >= 0 && (b == 0 ==> a * b == 0)
  {
  }

  /** C division, which rounds towards zero. */
  function TruncDiv(a: int, b: int): int
    requires b > 0
  {
    if a >= 0 then a / b else -(-a / b)
  }

  /** Dividing the product back finds out whether it wrapped; small products are not checked. */
  lemma WrapIsCaught(q: nat, len: nat)
    requires 0 < len <= INT_MAX && q < INT_MAX
    ensures var v := AsInt32(q * len);
            if (q + 1 > 512 || len > 127) && TruncDiv(v, len) != q then q * len > INT_MAX
            else v == q * len <= INT_MAX
  {
    hide AsInt32;
    var n := q * len;
    var v := AsInt32(n);
    WrapFacts(n);
    if q <= 511 && len <= 127 {
      MulMono(q, 511, len);
    }
    if n <= INT_MAX {
      DivExact(q, len);
    } else if v >= 0 {
      DivBelow(v, len, q);
    } else {
      DivNegative(v, len);
      assert q > 0;
    }
  }

  lemma WrapFacts(n: nat)
    ensures AsInt32(n) <= INT_MAX && (n <= INT_MAX ==> AsInt32(n) == n) && (n > INT_MAX ==> AsInt32(n) < n)
  {
  }

  lemma DivBelow(v: nat, len: nat, q: nat)
    requires len > 0 && v < q * len
    ensures v / len < q
  {
    var d := v / len;
    assert v == d * len + v % len;
    if d >= q {
      MulMono(q, d, len);
    }
  }

  lemma DivNegative(v: int, len: nat)
    requires len > 0 && v < 0
    ensures TruncDiv(v, len) <= 0
  {
    assert -v / len >= 0;
  }

  lemma DivExact(q: nat, len: nat)
    requires len > 0
    ensures q * len / len == q
  {
    var n := q * len;
    var d := n / len;
    assert n == d * len + n % len;
    if d < q {
      MulMono(d + 1, q, len);
      Distribute(d, len);
    } else if d > q {
      MulMono(q + 1, d, len);
      Distribute(q, len);
    }
  }

  /** bjoinblk: NULL exactly when the result and its NUL do not fit an `int`. */
  method Bjoinblk(bl: BstrList, blk: seq<byte>) returns (b: BString?)
    requires bl.Valid() && |blk| <= INT_MAX
    ensures b == null <==> |Join(bl.List(), blk)| >= INT_MAX
    ensures b != null ==> fresh(b) && fresh(b.data) && b.Valid() && b.Terminated()
    ensures b != null ==> b.Contents() == Join(bl.List(), blk)
    ensures bl.qty == 0 ==> b != null && b.Contents() == []
  {
    ghost var ps := bl.List();
    if bl.qty < 1 {
      b := new BString.FromBlk([]);
      return;
    }
    hide Sizes, Join;
    JoinSize(ps, blk);
    ProductAtLeast0(|ps| - 1, |blk|);
    var i, c := 0, 1;
    SizesNext(ps, 0);
    while i < bl.qty
      invariant 0 <= i <= |ps| && c == 1 + Sizes(ps[..i]) <= INT_MAX
    {
      var v := |bl.entry[i]|;
      SizesNext(ps, i);
      if v > INT_MAX - c {
        return null;
      }
      c := c + v;
      i := i + 1;
    }
    assert ps[..i] == ps;
    var len := |blk|;
    if len != 0 {
      WrapIsCaught(bl.qty - 1, len);
      var v := AsInt32((bl.qty - 1) * len);
      if (bl.qty > 512 || len > 127) && TruncDiv(v, len) != bl.qty - 1 {
        return null;
      }
      if v > INT_MAX - c {
        return null;
      }
      c := c + v;
    }
    assert c == |Join(ps, blk)| + 1;
    b := FillJoin(bl, blk, c);
  }

  /** bjoinblk, the copying. The loop without a separator is this one with nothing copied between. */
  method FillJoin(bl: BstrList, blk: seq<byte>, c: int) returns (b: BString)
    requires bl.Valid() && bl.qty > 0 && c == |Join(bl.List(), blk)| + 1 <= INT_MAX
    ensures fresh(b) && fresh(b.data) && b.Valid() && b.Terminated() && b.Contents() == Join(bl.List(), blk)
  {
    hide Join, Spliced;
    ghost var ps := bl.List();
    var block := new byte[c];
    var v := |bl.entry[0]|;
    JoinGrows(ps, blk, 0);
    assert ps[..1] == [ps[0]];
    JoinOne(ps[0], blk);
    SplicedUpTo(block[..], 0, ps[0]);
    MemCpy(block, 0, bl.entry[0]);
    var p := v;
    var i := 1;
    while i < bl.qty
      invariant 1 <= i <= |ps| && fresh(block) && bl.List() == ps && bl.Valid()
      invariant p == |Join(ps[..i], blk)| < c && block[..p] == Join(ps[..i], blk)
    {
      JoinGrows(ps, blk, i);
      ghost var was := Join(ps[..i], blk);
      assert |was + blk + ps[i]| == p + |blk| + |ps[i]| < c;
      CopyEntry(block, p, blk, bl.entry[i], was);
      p := p + |blk| + |bl.entry[i]|;
      i := i + 1;
    }
    assert ps[..i] == ps;
    block[c - 1] := 0;
    b := new BString.OfBlock(block);
  }

  /** The separator and an entry are copied after what is there. */
  method CopyEntry(block: array<byte>, p: nat, sep: seq<byte>, x: seq<byte>, ghost was: seq<byte>)
    requires p + |sep| + |x| <= block.Length && block[..p] == was
    modifies block
    ensures block[..p + |sep| + |x|] == was + sep + x
  {
    hide Spliced;
    SplicedUpTo(block[..], p, sep);
    MemCpy(block, p, sep);
    SplicedUpTo(block[..], p + |sep|, x);
    MemCpy(block, p + |sep|, x);
  }

  /** The join of the first i + 1 entries, and room for it. */
  lemma JoinGrows(ps: seq<seq<byte>>, sep: seq<byte>, i: nat)
    requires i < |ps|
    ensures ps[..i + 1] == ps[..i] + [ps[i]]
    ensures i > 0 ==> Join(ps[..i + 1], sep) == Join(ps[..i], sep) + sep + ps[i]
    ensures |Join(ps[..i + 1], sep)| <= |Join(ps, sep)|
    decreases |ps| - i
  {
    if i > 0 {
      JoinSnoc(ps[..i], ps[i], sep);
    }
    if i + 1 < |ps| {
      JoinGrows(ps, sep, i + 1);
    } else {
      assert ps[..i + 1] == ps;
    }
  }

  /** bjoin. */
  method Bjoin(bl: BstrList, sep: BString) returns (b: BString?)
    requires bl.Valid() && sep.Valid()
    ensures b == null <==> |Join(bl.List(), sep.Contents())| >= INT_MAX
    ensures b != null ==> fresh(b) && b.Valid() && b.Terminated() && b.Contents() == Join(bl.List(), sep.Contents())
  {
    b := Bjoinblk(bl, sep.data[..sep.slen]);
  }

  // ---- splitting, joining and replacing ----

  /** Replacing one byte everywhere is splitting at it and joining with the replacement. */
  lemma {:induction false} ReplaceIsSplitJoin(t: seq<byte>, p: nat, c: byte, r: seq<byte>)
    requires p <= |t|
    ensures ReplaceFrom(Exact, t, p, [c], r) == Join(Pieces(t, p, {c}), r)
    decreases |t| - p
  {
    hide NextSplit, FirstMatch, Join;
    var i := NextSplit(t, p, {c});
    NextSplitIsMatch(t, p, c);
    if i < |t| {
      ReplaceIsSplitJoin(t, i + 1, c, r);
      JoinCons(t[p..i], Pieces(t, i + 1, {c}), r);
      Unfold(Exact, t, p, [c], r);
    } else {
      JoinOne(t[p..], r);
    }
  }

  lemma NextSplitIsMatch(t: seq<byte>, p: nat, c: byte)
    requires p <= |t|
    ensures FirstMatch(Exact, t, p, [c]) == (var i := NextSplit(t, p, {c}); if i == |t| then BSTR_ERR else i)
  {
    var i := NextSplit(t, p, {c});
    assert forall q :: MatchAt(Exact, t, q, [c]) ==> [c][0] == t[q + 0];
    FirstMatchIs(Exact, t, p, [c], if i == |t| then BSTR_ERR else i);
  }

  // ---- what bsplitstr makes of adjacent separators ----

  /** The pieces between the leftmost occurrences of the separator. */
  ghost function Between(t: seq<byte>, sep: seq<byte>, p: nat): seq<seq<byte>>
    requires |sep| > 0 && p <= |t|
    decreases |t| - p
  {
    var m := FirstMatch(Exact, t, p, sep);
    if m == BSTR_ERR then [t[p..]] else [t[p..m]] + Between(t, sep, m + |sep|)
  }

  /** Running on to the next occurrence. */
  lemma {:induction false} StrPiecesRun(t: seq<byte>, sep: seq<byte>, p: nat, i: nat)
    requires |sep| > 0 && p <= |t| && p <= i
    ensures var m := FirstMatch(Exact, t, i, sep);
            StrPieces(t, sep, p, i) ==
            if m == BSTR_ERR then [t[p..]] else [t[p..m]] + StrPieces(t, sep, m + |sep|, m + |sep| + 1)
    decreases |t| + 1 - i
  {
    hide MatchAt;
    if i + |sep| > |t| || MatchAt(Exact, t, i, sep) {
    } else {
      StrPiecesRun(t, sep, p, i + 1);
    }
  }

  /** No leftmost occurrence is directly followed by another occurrence. */
  ghost predicate Apart(t: seq<byte>, sep: seq<byte>, p: nat)
    requires |sep| > 0
  {
    var ms := Matches(Exact, t, p, sep);
    forall x :: 0 <= x < |ms| ==> !MatchAt(Exact, t, ms[x] + |sep|, sep)
  }

  lemma ApartStep(t: seq<byte>, sep: seq<byte>, p: nat)
    requires |sep| > 0 && FirstMatch(Exact, t, p, sep) != BSTR_ERR
    ensures var e := FirstMatch(Exact, t, p, sep) + |sep|;
            Apart(t, sep, p) <==> !MatchAt(Exact, t, e, sep) && Apart(t, sep, e)
  {
    hide FirstMatch, Matches, MatchAt;
    var m := FirstMatch(Exact, t, p, sep);
    var ms, rest := Matches(Exact, t, p, sep), Matches(Exact, t, m + |sep|, sep);
    MatchesNext(Exact, t, p, sep);
    assert ms == [m] + rest && ms[0] == m;
    if Apart(t, sep, p) {
      forall x | 0 <= x < |rest| ensures !MatchAt(Exact, t, rest[x] + |sep|, sep) {
        assert ms[x + 1] == rest[x];
      }
    }
    if !MatchAt(Exact, t, m + |sep|, sep) && Apart(t, sep, m + |sep|) {
      forall x | 0 <= x < |ms| ensures !MatchAt(Exact, t, ms[x] + |sep|, sep) {
        assert x > 0 ==> ms[x] == rest[x - 1];
      }
    }
  }

  /** After a match that ended at p, the pieces are the intended ones exactly when no occurrence stands
      at p and none of the later leftmost ones is directly followed by another. */
  lemma {:induction false} AfterMatch(t: seq<byte>, sep: seq<byte>, p: nat)
    requires |sep| > 0 && p <= |t|
    ensures StrPieces(t, sep, p, p + 1) == Between(t, sep, p) <==> !MatchAt(Exact, t, p, sep) && Apart(t, sep, p)
    decreases |t| - p
  {
    StrPiecesRun(t, sep, p, p + 1);
    if MatchAt(Exact, t, p, sep) {
      assert Between(t, sep, p)[0] == [];
      assert StrPieces(t, sep, p, p + 1)[0] != [];
    } else {
      StrPiecesRun(t, sep, p, p);
      AfterRun(t, sep, p);
    }
  }

  lemma {:induction false} AfterRun(t: seq<byte>, sep: seq<byte>, p: nat)
    requires |sep| > 0 && p <= |t|
    ensures StrPieces(t, sep, p, p) == Between(t, sep, p) <==> Apart(t, sep, p)
    decreases |t| - p, 0
  {
    hide FirstMatch, StrPieces, Matches;
    StrPiecesRun(t, sep, p, p);
    var m := FirstMatch(Exact, t, p, sep);
    MatchesNext(Exact, t, p, sep);
    if m == BSTR_ERR {
    } else {
      ApartStep(t, sep, p);
      AfterMatch(t, sep, m + |sep|);
      var a, b := StrPieces(t, sep, m + |sep|, m + |sep| + 1), Between(t, sep, m + |sep|);
      assert ([t[p..m]] + a)[1..] == a && ([t[p..m]] + b)[1..] == b;
    }
  }

  /** bsplitstr with a separator of two bytes or more cuts at the leftmost occurrences exactly when no
      two of them are adjacent. */
  lemma SplitStrIsBetween(t: seq<byte>, sep: seq<byte>)
    requires |sep| >= 2
    ensures SplitStr(t, sep) == Between(t, sep, 0) <==> Apart(t, sep, 0)
  {
    AfterRun(t, sep, 0);
  }

  /** "a,,,,b" split at ",," keeps a separator inside a piece. */
  lemma AdjacentSeparators()
    ensures var t, sep: seq<byte> := [97, 44, 44, 44, 44, 98], [44, 44];
            SplitStr(t, sep) == [[97], [44, 44, 98]] && Between(t, sep, 0) == [[97], [], [98]]
  {
    var t, sep: seq<byte> := [97, 44, 44, 44, 44, 98], [44, 44];
    assert sep[0] != t[0] && sep[1] != t[5];
    assert MatchAt(Exact, t, 1, sep) && MatchAt(Exact, t, 3, sep);
    assert FirstMatch(Exact, t, 0, sep) == 1 && FirstMatch(Exact, t, 3, sep) == 3;
    assert FirstMatch(Exact, t, 4, sep) == BSTR_ERR && FirstMatch(Exact, t, 5, sep) == BSTR_ERR;
    StrPiecesRun(t, sep, 0, 0);
    StrPiecesRun(t, sep, 3, 4);
    assert Between(t, sep, 3) == [t[3..3]] + Between(t, sep, 5);
    assert Between(t, sep, 0) == [t[..1]] + Between(t, sep, 3);
    assert t[..1] == [97] && t[3..3] == [] && t[3..] == [44, 44, 98] && t[5..] == [98];
  }
}
