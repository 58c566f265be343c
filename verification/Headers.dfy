/** The header block of a message: traverse_hashmap prints a map, parse_headers reads it back. */
module Headers {
  import opened Bytes
  import opened Search
  import opened Split
  import opened Compare
  import opened DArrays
  import opened Hashmaps

  const CRLF: seq<byte> := [13, 10]
  const COLON: byte := 58
  const SPACE: byte := 32

  type Field = Binding<seq<byte>>
  type HeaderMap = Hashmap<seq<byte>>

  /** What %s shows of a string: the bytes before the first NUL. */
  function CStr(a: seq<byte>): seq<byte> {
    if a == [] || a[0] == 0 then [] else [a[0]] + CStr(a[1..])
  }

  /** The bytes before the first NUL, or all of them. */
  lemma {:induction false} CStrIsPrefix(a: seq<byte>)
    ensures CStr(a) <= a && 0 !in CStr(a) && (|CStr(a)| == |a| || a[|CStr(a)|] == 0)
  {
    if a == [] || a[0] == 0 {
    } else {
      CStrIsPrefix(a[1..]);
    }
  }

  /** "key: value" without the line end. */
  function FieldLine(x: Field): seq<byte> {
    CStr(x.key) + [COLON, SPACE] + CStr(x.data)
  }

  function Printed(xs: seq<Field>): seq<byte> {
    if xs == [] then [] else FieldLine(xs[0]) + CRLF + Printed(xs[1..])
  }

  /** The bindings of a map in the order of a traversal. */
  function Flat<V>(view: View<V>): seq<Binding<V>> {
    if view == [] then [] else view[0] + Flat(view[1..])
  }

  // ---- parsing ----

  /** snprintf into a buffer of 256 bytes. */
  function Truncated(s: seq<byte>): seq<byte> {
    if |s| > 255 then s[..255] else s
  }

  /** The first place at or after i that is not a space. */
  function SkipSpaces(t: seq<byte>, i: nat): (r: nat)
    requires i <= |t|
    ensures i <= r <= |t| && (r < |t| ==> t[r] != SPACE)
    ensures forall j :: i <= j < r ==> t[j] == SPACE
    decreases |t| - i
  {
    if i == |t| || t[i] != SPACE then i else SkipSpaces(t, i + 1)
  }

  /** The field in the line [from, end) with its colon at c. */
  function FieldAt(t: seq<byte>, from: nat, c: nat, end: nat): Field
    requires from <= c < end <= |t| && SkipSpaces(t, c + 1) <= end
  {
    Binding(Truncated(t[from..c]), Truncated(t[SkipSpaces(t, c + 1)..end]))
  }

  lemma SpacesStopAtLineEnd(t: seq<byte>, i: nat, end: nat)
    requires i <= end && MatchAt(Exact, t, end, CRLF)
    ensures SkipSpaces(t, i) <= end
  {
    assert t[end + 0] == CRLF[0];
  }

  /** The fields found from a place on, and the place where parsing stops: the blank line, the end of
      the text, or a line that does not end. */
  function Parsed(t: seq<byte>, from: nat): (r: (seq<Field>, nat))
    requires from <= |t|
    decreases |t| - from
  {
    var end := FirstMatch(Exact, t, from, CRLF);
    if end == BSTR_ERR || end == from then ([], from)
    else
      FirstMatchIsLeast(Exact, t, from, CRLF);
      var c := NextSplit(t[..end], from, {COLON});
      var (xs, stop) := Parsed(t, end + 2);
      if c == end then (xs, stop)
      else
        SpacesStopAtLineEnd(t, c + 1, end);
        ([FieldAt(t, from, c, end)] + xs, stop)
  }

  /** The fields of one line: one, or none if it has no colon. */
  ghost function LineFields(t: seq<byte>, from: nat, end: nat): seq<Field>
    requires from <= end && MatchAt(Exact, t, end, CRLF)
  {
    var c := NextSplit(t[..end], from, {COLON});
    if c == end then []
    else
      SpacesStopAtLineEnd(t, c + 1, end);
      [FieldAt(t, from, c, end)]
  }

  /** One line of parse_headers. */
  method ParseLine(t: seq<byte>, current: nat, lineEnd: nat, headers: HeaderMap) returns (n: nat)
    requires headers.Valid() && current <= lineEnd && MatchAt(Exact, t, lineEnd, CRLF)
    modifies headers.Repr
    ensures headers.Valid() && fresh(headers.Repr - old(headers.Repr))
    ensures headers.view == InsertedAll(old(headers.view), headers.policy, LineFields(t, current, lineEnd))
    ensures n == |LineFields(t, current, lineEnd)|
  {
    hide Inserted, InsertedAll, NextSplit, SkipSpaces, Truncated, MatchAt, Live;
    LineFitsText(t, lineEnd);
    var colon := NextSplit(t[..lineEnd], current, {COLON}); // memchr
    InsertedNone(headers.view, headers.policy);
    if colon == lineEnd {
      return 0;
    }
    var valueStart := ValueStart(t, colon + 1, lineEnd);
    InsertedOne(headers.view, headers.policy, FieldAt(t, current, colon, lineEnd));
    var ret := headers.Set(Truncated(t[current..colon]), Truncated(t[valueStart..lineEnd]));
    return 1;
  }

  /** parse_headers on the text before the NUL. */
  method ParseHeaders(t: seq<byte>, headers: HeaderMap) returns (count: nat, end: nat)
    requires headers.Valid() && NulFree(t)
    modifies headers.Repr
    ensures headers.Valid() && fresh(headers.Repr - old(headers.Repr))
    ensures headers.view == InsertedAll(old(headers.view), headers.policy, Parsed(t, 0).0)
    ensures count == |Parsed(t, 0).0| && end == Parsed(t, 0).1
  {
    hide InsertedAll, Parsed, FirstMatch, LineFields, MatchAt;
    count := 0;
    var current := 0;
    while current < |t|
      invariant 0 <= current <= |t| && headers.Valid() && fresh(headers.Repr - old(headers.Repr))
      invariant InsertedAll(old(headers.view), headers.policy, Parsed(t, 0).0)
             == InsertedAll(headers.view, headers.policy, Parsed(t, current).0)
      invariant count + |Parsed(t, current).0| == |Parsed(t, 0).0| && Parsed(t, current).1 == Parsed(t, 0).1
      decreases |t| - current
    {
      var lineEnd := FirstMatch(Exact, t, current, CRLF);     // strstr
      if lineEnd == BSTR_ERR || lineEnd == current {
        break;
      }
      ParsedLine(t, current);
      ghost var before := headers.view;
      var n := ParseLine(t, current, lineEnd, headers);
      InsertedAllAppend(before, headers.policy, LineFields(t, current, lineEnd), Parsed(t, lineEnd + 2).0);
      count := count + n;
      current := lineEnd + 2;
    }
    NoLineAtEnd(t);
    ParsedStop(t, current);
    InsertedNone(headers.view, headers.policy);
    end := current;
  }

  lemma ParsedLine(t: seq<byte>, from: nat)
    requires from <= |t| && FirstMatch(Exact, t, from, CRLF) != BSTR_ERR && FirstMatch(Exact, t, from, CRLF) != from
    ensures var end := FirstMatch(Exact, t, from, CRLF);
            && MatchAt(Exact, t, end, CRLF)
            && Parsed(t, from) == (LineFields(t, from, end) + Parsed(t, end + 2).0, Parsed(t, end + 2).1)
  {
    hide Parsed;
    ParsedStep(t, from);
    var rest := Parsed(t, FirstMatch(Exact, t, from, CRLF) + 2).0;
    assert [] + rest == rest;
  }

  /** One line of the text. */
  lemma ParsedStep(t: seq<byte>, from: nat)
    requires from <= |t| && FirstMatch(Exact, t, from, CRLF) != BSTR_ERR && FirstMatch(Exact, t, from, CRLF) != from
    ensures var end := FirstMatch(Exact, t, from, CRLF);
            var c := NextSplit(t[..end], from, {COLON});
            && MatchAt(Exact, t, end, CRLF) && (c < end ==> SkipSpaces(t, c + 1) <= end)
            && Parsed(t, from).1 == Parsed(t, end + 2).1
            && Parsed(t, from).0 == if c == end then Parsed(t, end + 2).0
                                    else [FieldAt(t, from, c, end)] + Parsed(t, end + 2).0
  {
    hide FirstMatch, NextSplit, SkipSpaces, Truncated, MatchAt;
    var end := FirstMatch(Exact, t, from, CRLF);
    FirstMatchIsLeast(Exact, t, from, CRLF);
    var c := NextSplit(t[..end], from, {COLON});
    if c < end {
      SpacesStopAtLineEnd(t, c + 1, end);
    }
  }

  lemma ParsedStop(t: seq<byte>, from: nat)
    requires from <= |t|
    requires var end := FirstMatch(Exact, t, from, CRLF); end == BSTR_ERR || end == from
    ensures Parsed(t, from) == ([], from)
  {
  }

  lemma NoLineAtEnd(t: seq<byte>)
    ensures FirstMatch(Exact, t, |t|, CRLF) == BSTR_ERR
  {
  }

  lemma LineFitsText(t: seq<byte>, end: nat)
    requires MatchAt(Exact, t, end, CRLF)
    ensures end + 2 <= |t|
  {
  }

  lemma InsertedOne<V>(view: View<V>, p: Policy, x: Binding<V>)
    requires |view| == DEFAULT_NUMBER_OF_BUCKETS
    ensures InsertedAll(view, p, [x]) == Inserted(view, p, x)
  {
    assert [x][1..] == [];
  }

  lemma InsertedNone<V>(view: View<V>, p: Policy)
    requires |view| == DEFAULT_NUMBER_OF_BUCKETS
    ensures InsertedAll(view, p, []) == view
  {
  }

  /** The loop over the spaces before a value. It needs no bound: the line end is not a space. */
  method ValueStart(t: seq<byte>, i: nat, ghost end: nat) returns (r: nat)
    requires i <= end && MatchAt(Exact, t, end, CRLF)
    ensures r == SkipSpaces(t, i) <= end
  {
    hide SkipSpaces;
    r := i;
    SpacesStopAtLineEnd(t, i, end);
    assert t[end + 0] == CRLF[0];
    while t[r] == SPACE
      invariant i <= r <= end && SkipSpaces(t, i) == SkipSpaces(t, r)
      decreases end - r
    {
      SpaceSkipped(t, r, end);
      r := r + 1;
    }
    SpacesDone(t, r);
  }

  lemma SpaceSkipped(t: seq<byte>, i: nat, end: nat)
    requires i <= end && MatchAt(Exact, t, end, CRLF) && t[i] == SPACE
    ensures i < end && SkipSpaces(t, i) == SkipSpaces(t, i + 1)
  {
    assert t[end + 0] == CRLF[0];
  }

  lemma SpacesDone(t: seq<byte>, i: nat)
    requires i < |t| && t[i] != SPACE
    ensures SkipSpaces(t, i) == i
  {
  }

  // ---- what is read, without reference to how it is read ----

  /** The first 255 bytes of s, or all of it. */
  ghost predicate FirstBytes(p: seq<byte>, s: seq<byte>) {
    p <= s && |p| == if |s| < 255 then |s| else 255
  }

  /** What the line of t from from to end gives: nothing without a colon, or one field. Its key is what
      comes before the first colon, and its value what comes after that and the spaces that follow it. */
  ghost predicate LineGives(t: seq<byte>, from: nat, end: nat, xs: seq<Field>)
    requires from <= end <= |t|
  {
    if COLON !in t[from..end] then xs == []
    else |xs| == 1 && exists c, s :: ColonAndValue(t, from, end, c, s)
                                     && FirstBytes(xs[0].key, t[from..c]) && FirstBytes(xs[0].data, t[s..end])
  }

  /** The first colon of the line is at c, and the first byte after it that is not a space at s. */
  ghost predicate ColonAndValue(t: seq<byte>, from: nat, end: nat, c: int, s: int)
    requires from <= end <= |t|
  {
    && from <= c < s <= end && t[c] == 58 && 58 !in t[from..c]
    && (forall j :: c < j < s ==> t[j] == 32) && (s < end ==> t[s] != 32)
  }

  lemma LineFieldsGiven(t: seq<byte>, from: nat, end: nat)
    requires from <= end && MatchAt(Exact, t, end, CRLF)
    ensures end + 2 <= |t| && LineGives(t, from, end, LineFields(t, from, end))
  {
    hide MatchAt, SkipSpaces, NextSplit;
    LineFitsText(t, end);
    var c := NextSplit(t[..end], from, {COLON});
    assert forall j :: from <= j < end ==> t[from..end][j - from] == t[..end][j];
    if c < end {
      SpacesStopAtLineEnd(t, c + 1, end);
      var s := SkipSpaces(t, c + 1);
      assert t[from..end][c - from] == COLON;
      assert forall j :: from <= j < c ==> t[from..c][j - from] == t[..end][j];
      assert ColonAndValue(t, from, end, c, s);
    } else {
      assert LineFields(t, from, end) == [];
    }
  }

  /** The line from from on is not empty, ends at the first line end, and the next one begins at next. */
  ghost predicate LineTo(t: seq<byte>, from: nat, next: nat, xs: seq<Field>) {
    from + 2 < next <= |t| && IsLeastMatch(Exact, t, from, CRLF, next - 2) && LineGives(t, from, next - 2, xs)
  }

  /** Reading stops at stop: the blank line, the end of the text, or a line that does not end. */
  ghost predicate StopsAt(t: seq<byte>, stop: nat) {
    stop <= |t| && (IsLeastMatch(Exact, t, stop, CRLF, BSTR_ERR) || IsLeastMatch(Exact, t, stop, CRLF, stop))
  }

  /** The lines that were read begin at starts, the last of which is where reading stopped, and each gives its
      part of the fields. */
  ghost predicate ReadLines(t: seq<byte>, starts: seq<nat>, parts: seq<seq<Field>>) {
    && |starts| == |parts| + 1 && StopsAt(t, starts[|parts|])
    && forall k :: 0 <= k < |parts| ==> LineTo(t, starts[k], starts[k + 1], parts[k])
  }

  lemma ReadLinesCons(t: seq<byte>, from: nat, xs: seq<Field>, starts: seq<nat>, parts: seq<seq<Field>>)
    requires ReadLines(t, starts, parts) && LineTo(t, from, starts[0], xs)
    ensures ReadLines(t, [from] + starts, [xs] + parts)
  {
    hide LineTo, StopsAt;
    var ss, ps := [from] + starts, [xs] + parts;
    forall k | 0 <= k < |ps| ensures LineTo(t, ss[k], ss[k + 1], ps[k]) {
      assert ss[k + 1] == starts[k] && (k > 0 ==> ss[k] == starts[k - 1] && ps[k] == parts[k - 1]);
    }
    assert ss[|ps|] == starts[|parts|];
  }

  /** The fields parsed from a place on are those its lines give, one after the other. */
  lemma {:induction false} ParsedIsRead(t: seq<byte>, from: nat) returns (starts: seq<nat>, parts: seq<seq<Field>>)
    requires from <= |t|
    ensures ReadLines(t, starts, parts) && starts[0] == from
    ensures starts[|parts|] == Parsed(t, from).1 && Flat(parts) == Parsed(t, from).0
    decreases |t| - from
  {
    hide Parsed, FirstMatch, LineFields, LineGives, IsLeastMatch, MatchAt;
    FirstMatchIsLeast(Exact, t, from, CRLF);
    var end := FirstMatch(Exact, t, from, CRLF);
    if end == BSTR_ERR || end == from {
      ParsedStop(t, from);
      starts, parts := [from], [];
    } else {
      ParsedLine(t, from);
      LineFieldsGiven(t, from, end);
      var ss, ps := ParsedIsRead(t, end + 2);
      var xs := LineFields(t, from, end);
      ReadLinesCons(t, from, xs, ss, ps);
      starts, parts := [from] + ss, [xs] + ps;
      assert starts[|parts|] == ss[|ps|] && parts[1..] == ps;
    }
  }

  // ---- printing ----

  /** The block under construction: its size as it was asked for, the C string in it, which is anything
      before the first node, and the size kept beside it. */
  class HeaderBuffer {
    var capacity: int
    var text: seq<byte>
    var size: int

    constructor (uninitialised: seq<byte>)
      ensures capacity == 0 && text == uninitialised && size == 0
    {
      capacity, text, size := 0, uninitialised, 0;
    }

    /** traverse_hashmap for one node: realloc, sprintf and strncat. The block asked for has room for the
        text and its NUL. */
    method TraverseNode(node: HashmapNode<seq<byte>>) returns (ret: int)
      requires size == 0 || 0 < |text| <= size
      modifies this
      ensures ret == 0 && text == (if old(size) == 0 then [] else old(text)) + Printed([node.AsBinding()])
      ensures Printed([node.AsBinding()]) == CStr(node.key) + [58, 32] + CStr(node.data) + [13, 10]
      ensures size == old(size) + |node.key| + 2 + |node.data| + 2
      ensures capacity == size + 1 && 0 < |text| < capacity
    {
      var keyLen, valueLen := |node.key|, |node.data|;
      var totalSize := size + keyLen + 2 + valueLen + 2;
      capacity := totalSize + 1;
      if size == 0 {
        text := [];
      }
      size := totalSize;
      var added := CStr(node.key) + [COLON, SPACE] + CStr(node.data) + CRLF;
      CStrLength(node.key);
      CStrLength(node.data);
      assert |added| <= totalSize;   // so strncat copies all of it
      text := text + added;
      assert Printed([node.AsBinding()]) == added + Printed([]);
      return 0;
    }
  }

  lemma {:induction false} CStrLength(a: seq<byte>)
    ensures |CStr(a)| <= |a|
    ensures NulFree(a) ==> CStr(a) == a
  {
    if a == [] {
    } else {
      CStrLength(a[1..]);
    }
  }

  lemma {:induction false} PrintedAppend(xs: seq<Field>, ys: seq<Field>)
    ensures Printed(xs + ys) == Printed(xs) + Printed(ys)
  {
    if xs == [] {
      assert xs + ys == ys;
    } else {
      PrintedAppend(xs[1..], ys);
      assert (xs + ys)[1..] == xs[1..] + ys && (xs + ys)[0] == xs[0];
      ConcatAssoc(FieldLine(xs[0]) + CRLF, Printed(xs[1..]), Printed(ys));
    }
  }

  lemma {:induction false} FlatAppend<V>(view: View<V>, bs: seq<Binding<V>>)
    ensures Flat(view + [bs]) == Flat(view) + bs
  {
    if view == [] {
      assert view + [bs] == [bs];
      assert Flat([bs]) == bs + Flat([]);
    } else {
      FlatAppend(view[1..], bs);
      assert (view + [bs])[1..] == view[1..] + [bs];
      assert view[0] + (Flat(view[1..]) + bs) == view[0] + Flat(view[1..]) + bs;
    }
  }

  /** The bytes the size counts for. */
  function Counted(xs: seq<Field>): nat {
    if xs == [] then 0 else |xs[0].key| + |xs[0].data| + 4 + Counted(xs[1..])
  }

  lemma {:induction false} CountedAppend(xs: seq<Field>, ys: seq<Field>)
    ensures Counted(xs + ys) == Counted(xs) + Counted(ys)
  {
    if xs == [] {
      assert xs + ys == ys;
    } else {
      CountedAppend(xs[1..], ys);
      assert (xs + ys)[1..] == xs[1..] + ys;
    }
  }

  /** No key and no value holds a NUL. */
  ghost predicate AllNulFree(xs: seq<Field>) {
    forall k :: 0 <= k < |xs| ==> NulFree(xs[k].key) && NulFree(xs[k].data)
  }

  lemma {:induction false} CStrWhole(a: seq<byte>)
    requires |CStr(a)| == |a|
    ensures CStr(a) == a && NulFree(a)
  {
    if a == [] {
    } else {
      assert |CStr(a[1..])| == |a[1..]|;
      CStrWhole(a[1..]);
    }
  }

  lemma AllNulFreeStep(xs: seq<Field>)
    requires xs != []
    ensures AllNulFree(xs) <==> NulFree(xs[0].key) && NulFree(xs[0].data) && AllNulFree(xs[1..])
  {
    hide NulFree;
    if AllNulFree(xs) {
      forall k | 0 <= k < |xs[1..]| ensures NulFree(xs[1..][k].key) && NulFree(xs[1..][k].data) {
        assert xs[1..][k] == xs[k + 1];
      }
    } else {
      var k :| 0 <= k < |xs| && !(NulFree(xs[k].key) && NulFree(xs[k].data));
      assert k > 0 ==> xs[1..][k - 1] == xs[k];
    }
  }

  lemma CStrKeepsLength(a: seq<byte>)
    ensures |CStr(a)| <= |a| && (|CStr(a)| == |a| <==> NulFree(a))
  {
    CStrLength(a);
    if |CStr(a)| == |a| {
      CStrWhole(a);
    }
  }

  /** The size counts whole strings, so it is the length of the text exactly when nothing holds a NUL,
      and too large otherwise. */
  lemma {:induction false} CountedIsLength(xs: seq<Field>)
    ensures Counted(xs) >= |Printed(xs)|
    ensures Counted(xs) == |Printed(xs)| <==> AllNulFree(xs)
  {
    hide NulFree, CStr;
    if xs == [] {
    } else {
      CStrKeepsLength(xs[0].key);
      CStrKeepsLength(xs[0].data);
      CountedIsLength(xs[1..]);
      AllNulFreeStep(xs);
    }
  }

  /** The text in the buffer after the nodes xs: without any, what happens to be in the block. */
  ghost function TextAfter(xs: seq<Field>, uninitialised: seq<byte>): seq<byte> {
    if xs == [] then uninitialised else Printed(xs)
  }

  ghost predicate PrintedSoFar(buffer: HeaderBuffer, xs: seq<Field>, uninitialised: seq<byte>)
    reads buffer
  {
    && buffer.text == TextAfter(xs, uninitialised) && buffer.size == Counted(xs)
    && buffer.capacity == if xs == [] then 0 else Counted(xs) + 1
  }

  /** Hashmap_traverse with traverse_hashmap: the buckets in order, each from its first node on. */
  method Traverse(map_: HeaderMap, buffer: HeaderBuffer) returns (rc: int)
    requires map_.Valid() && PrintedSoFar(buffer, [], buffer.text) && buffer !in map_.Repr
    modifies buffer
    ensures rc == 0 && PrintedSoFar(buffer, Flat(map_.view), old(buffer.text))
  {
    hide PrintedSoFar;
    ghost var u := buffer.text;
    var i := 0;
    while i < map_.buckets.end
      invariant 0 <= i <= DEFAULT_NUMBER_OF_BUCKETS
      invariant PrintedSoFar(buffer, Flat(map_.view[..i]), u)
    {
      var bucket := map_.buckets.Get(i);
      assert map_.view[..i + 1] == map_.view[..i] + [map_.view[i]];
      FlatAppend(map_.view[..i], map_.view[i]);
      if bucket.Some? {
        rc := TraverseBucket(bucket.value, map_.view[i], map_.policy, Flat(map_.view[..i]), u, buffer);
        if rc != 0 {
          return;
        }
      } else {
        assert Flat(map_.view[..i]) + [] == Flat(map_.view[..i]);
      }
      i := i + 1;
    }
    assert map_.view[..i] == map_.view;
    return 0;
  }

  method TraverseBucket(d: Bucket<seq<byte>>, ghost bs: seq<Field>, ghost p: Policy, ghost before: seq<Field>,
                        ghost u: seq<byte>, buffer: HeaderBuffer)
    returns (rc: int)
    requires Holds(d, bs, p) && d as object != buffer && d.contents as object != buffer
    requires PrintedSoFar(buffer, before, u)
    modifies buffer
    ensures rc == 0 && PrintedSoFar(buffer, before + bs, u)
  {
    hide Printed, Counted, Holds;
    var j := 0;
    assert before + bs[..0] == before;
    HoldsCount(d, bs, p);
    while j < d.end
      invariant 0 <= j <= d.end == |bs| && Holds(d, bs, p)
      invariant PrintedSoFar(buffer, before + bs[..j], u)
    {
      HoldsNode(d, bs, p, j);
      var node := d.Get(j);
      assert before + bs[..j + 1] == (before + bs[..j]) + [bs[j]];
      PrintedAppend(before + bs[..j], [bs[j]]);
      CountedAppend(before + bs[..j], [bs[j]]);
      CountedEmpty(before + bs[..j]);
      CountedOne(bs[j]);
      CountedIsLength(before + bs[..j]);
      rc := buffer.TraverseNode(node.value);
      if rc != 0 {
        return;
      }
      j := j + 1;
    }
    assert bs[..j] == bs;
    return 0;
  }

  lemma HoldsCount(d: Bucket<seq<byte>>, bs: seq<Field>, p: Policy)
    requires Holds(d, bs, p)
    ensures d.Valid() && d.end == |bs|
  {
  }

  lemma HoldsNode(d: Bucket<seq<byte>>, bs: seq<Field>, p: Policy, j: nat)
    requires Holds(d, bs, p) && j < |bs|
    ensures d.Valid() && j < d.end && d.contents[j].Some? && d.contents[j].value.AsBinding() == bs[j]
  {
  }

  lemma CountedOne(x: Field)
    ensures Counted([x]) == |x.key| + |x.data| + 4
  {
    assert Counted([x][1..]) == 0;
  }

  lemma CountedEmpty(xs: seq<Field>)
    ensures if xs == [] then Counted(xs) == 0 && Printed(xs) == [] else Counted(xs) > 0 && Printed(xs) != []
  {
  }

  /** The text of a header block. */
  ghost function BlockText(xs: seq<Field>, uninitialised: seq<byte>): seq<byte> {
    TextAfter(xs, uninitialised) + CRLF
  }

  /** The header block of http_response_builder_construct: the map is printed, the block made two bytes
      larger than the text, and the blank line appended. */
  method HeaderBlock(map_: HeaderMap, uninitialised: seq<byte>) returns (block: seq<byte>, size: int, capacity: int)
    requires map_.Valid()
    ensures block == BlockText(Flat(map_.view), uninitialised)
    ensures size == capacity == Counted(Flat(map_.view)) + 2
  {
    var buffer := new HeaderBuffer(uninitialised);
    var rc := Traverse(map_, buffer);
    size := buffer.size + 2;
    capacity := size;
    block := buffer.text + CRLF;
  }

  /** The block is the printed map and the blank line, whatever was in the memory, exactly when the map
      has a binding: for an empty map the C code appends to a block it never initialised. */
  lemma BlockIsPrinted(xs: seq<Field>)
    ensures (forall u :: BlockText(xs, u) == Printed(xs) + CRLF) <==> xs != []
  {
    if xs == [] {
      assert BlockText(xs, [65])[0] == 65;
      assert (Printed(xs) + CRLF)[0] == 13;
    }
  }

  /** The block of HeaderBlock holds its text with the NUL exactly when some key or value holds a NUL,
      because only then is the text shorter than the size kept for it. */
  lemma BlockFitsExactly(xs: seq<Field>, uninitialised: seq<byte>)
    ensures |BlockText(xs, uninitialised)| + 1 <= Counted(xs) + 2 <==> !AllNulFree(xs)
  {
    CountedIsLength(xs);
  }

  /** "A: B" needs 9 bytes with its blank line and NUL, and 8 are asked for. */
  lemma BlockTooSmall()
    ensures var xs := [Binding([65], [66])]; |BlockText(xs, [])| + 1 == 9 && Counted(xs) + 2 == 8
  {
    var xs: seq<Field> := [Binding([65], [66])];
    assert xs[1..] == [] && Printed([]) == [] && Counted([]) == 0;
    assert NulFree([65]) && NulFree([66]);
    CStrKeepsLength([65]);
    CStrKeepsLength([66]);
  }

  // ---- reading back what was printed ----

  ghost predicate NoLineEnd(a: seq<byte>) {
    forall q :: !MatchAt(Exact, a, q, CRLF)
  }

  /** The fields that survive: field names without a colon, values without leading space, no line end or
      NUL inside, and not longer than the parser's buffers. */
  ghost predicate Printable(x: Field) {
    && NulFree(x.key) && NulFree(x.data)
    && Lacks(x.key, COLON) && NoLineEnd(x.key) && NoLineEnd(x.data)
    && (x.data == [] || x.data[0] != SPACE)
    && |x.key| <= 255 && |x.data| <= 255
  }

  ghost predicate AllPrintable(xs: seq<Field>) {
    forall k :: 0 <= k < |xs| ==> Printable(xs[k])
  }

  lemma LineEndIsAtTheEnd(pre: seq<byte>, x: Field, tail: seq<byte>)
    requires NoLineEnd(x.key) && NoLineEnd(x.data)
    ensures var line := x.key + [COLON, SPACE] + x.data;
            FirstMatch(Exact, pre + line + CRLF + tail, |pre|, CRLF) == |pre| + |line|
  {
    var line := x.key + [COLON, SPACE] + x.data;
    var t := pre + line + CRLF + tail;
    var n, k := |pre|, |x.key|;
    hide MatchAt, FirstMatch;
    LineParts(pre, x.key, x.data, CRLF + tail);
    assert t == pre + line + (CRLF + tail);
    assert t[n + k] == COLON && t[n + k + 1] == SPACE && t[n + |line|] == 13 && t[n + |line| + 1] == 10;
    LineEndAt(t, n + |line|);
    forall q | n <= q < n + |line| ensures !MatchAt(Exact, t, q, CRLF) {
      LineEndAt(t, q);
      if q + 2 <= n + k {
        LineEndInPart(x.key, t, n, q);
      } else if n + k + 2 <= q && q + 2 <= n + |line| {
        LineEndInPart(x.data, t, n + k + 2, q);
      }
    }
    assert forall q :: n <= q && MatchAt(Exact, t, q, CRLF) ==> n + |line| <= q;
    FirstMatchIs(Exact, t, n, CRLF, n + |line|);
  }

  lemma LineEndAt(t: seq<byte>, q: nat)
    requires q + 1 < |t|
    ensures MatchAt(Exact, t, q, CRLF) <==> t[q] == 13 && t[q + 1] == 10
  {
    if MatchAt(Exact, t, q, CRLF) {
      assert CRLF[0] == t[q + 0] && CRLF[1] == t[q + 1];
    }
  }

  lemma LineEndInPart(part: seq<byte>, t: seq<byte>, at: nat, q: nat)
    requires at <= q && q + 2 <= at + |part| <= |t| && t[at..at + |part|] == part
    ensures MatchAt(Exact, t, q, CRLF) <==> MatchAt(Exact, part, q - at, CRLF)
  {
    LineEndAt(t, q);
    LineEndAt(part, q - at);
    assert t[at..at + |part|][q - at] == t[q] && t[at..at + |part|][q - at + 1] == t[q + 1];
  }

  /** A printed field is read as itself, wherever it stands and whatever follows. */
  lemma FieldReadsBack(pre: seq<byte>, x: Field, tail: seq<byte>)
    requires Printable(x)
    ensures var line := FieldLine(x);
            var t, next := pre + line + CRLF + tail, |pre| + |line| + 2;
            Parsed(t, |pre|) == ([x] + Parsed(t, next).0, Parsed(t, next).1)
  {
    hide FirstMatch, Parsed, NextSplit, NoLineEnd, SkipSpaces, Truncated, FieldLine, CStr, Lacks, NulFree;
    FieldLineIs(x);
    FieldStands(pre, x, tail);
    FieldFound(pre + FieldLine(x) + CRLF + tail, |pre|, x);
  }

  /** Where the parts of a printed field are found. */
  lemma FieldStands(pre: seq<byte>, x: Field, tail: seq<byte>)
    requires Printable(x)
    ensures var line := x.key + [COLON, SPACE] + x.data;
            var t, n := pre + line + CRLF + tail, |pre|;
            var c, end := n + |x.key|, n + |line|;
            && t[n..c] == x.key && t[c + 2..end] == x.data
            && FirstMatch(Exact, t, n, CRLF) == end && NextSplit(t[..end], n, {COLON}) == c
            && SkipSpaces(t, c + 1) == c + 2
  {
    hide FirstMatch, NextSplit, NoLineEnd, SkipSpaces, Lacks, NulFree;
    var line := x.key + [COLON, SPACE] + x.data;
    var t, n := pre + line + CRLF + tail, |pre|;
    LineEndIsAtTheEnd(pre, x, tail);
    assert t[..n + |line|] == pre + line;
    ColonAfterKey(pre, x, t[..n + |line|]);
    ValueAfterSpace(pre, x, t);
    LineParts(pre, x.key, x.data, CRLF + tail);
    assert t == pre + line + (CRLF + tail);
  }

  lemma FieldFound(t: seq<byte>, n: nat, x: Field)
    requires |x.key| <= 255 && |x.data| <= 255
    requires var c, end := n + |x.key|, n + |x.key| + 2 + |x.data|;
             && end <= |t| && t[n..c] == x.key && t[c + 2..end] == x.data
             && FirstMatch(Exact, t, n, CRLF) == end && NextSplit(t[..end], n, {COLON}) == c
             && SkipSpaces(t, c + 1) == c + 2
    ensures var next := n + |x.key| + |x.data| + 4;
            next <= |t| && Parsed(t, n) == ([x] + Parsed(t, next).0, Parsed(t, next).1)
  {
    hide FirstMatch, Parsed, NextSplit, SkipSpaces, Truncated;
    ParsedStep(t, n);
    NotTruncated(x.key);
    NotTruncated(x.data);
  }

  lemma FieldLineIs(x: Field)
    requires NulFree(x.key) && NulFree(x.data)
    ensures FieldLine(x) == x.key + [COLON, SPACE] + x.data
  {
    CStrLength(x.key);
    CStrLength(x.data);
  }

  lemma NotTruncated(s: seq<byte>)
    requires |s| <= 255
    ensures Truncated(s) == s
  {
  }

  lemma LineParts(pre: seq<byte>, key: seq<byte>, data: seq<byte>, tail: seq<byte>)
    ensures var t, c := pre + (key + [COLON, SPACE] + data) + tail, |pre| + |key|;
            t[|pre|..c] == key && t[c + 2..c + 2 + |data|] == data
  {
  }

  lemma ColonAfterKey(pre: seq<byte>, x: Field, u: seq<byte>)
    requires Lacks(x.key, COLON) && u == pre + (x.key + [COLON, SPACE] + x.data)
    ensures NextSplit(u, |pre|, {COLON}) == |pre| + |x.key|
  {
    forall j | |pre| <= j < |pre| + |x.key| ensures u[j] !in {COLON} {
      assert u[j] == x.key[j - |pre|];
    }
    NextSplitIs(u, |pre|, {COLON}, |pre| + |x.key|);
  }

  lemma ValueAfterSpace(pre: seq<byte>, x: Field, t: seq<byte>)
    requires x.data == [] || x.data[0] != SPACE
    requires var line := x.key + [COLON, SPACE] + x.data; pre + line + CRLF <= t
    ensures SkipSpaces(t, |pre| + |x.key| + 1) == |pre| + |x.key| + 2
  {
    var line := x.key + [COLON, SPACE] + x.data;
    var u, c := pre + line + CRLF, |pre| + |x.key|;
    assert u[c + 1] == SPACE;
    assert u[c + 2] == if x.data == [] then 13 else x.data[0];
  }

  /** A printed list of fields, its blank line and anything after it: parsing gives the list back and
      stops at the blank line. */
  lemma {:induction false} FieldsReadBack(pre: seq<byte>, xs: seq<Field>, tail: seq<byte>)
    requires AllPrintable(xs)
    ensures Parsed(pre + Printed(xs) + CRLF + tail, |pre|) == (xs, |pre| + |Printed(xs)|)
    decreases |xs|
  {
    hide Printable, Parsed, FieldLine;
    var t := pre + Printed(xs) + CRLF + tail;
    if xs == [] {
      assert MatchAt(Exact, t, |pre|, CRLF);
      FirstMatchIs(Exact, t, |pre|, CRLF, |pre|);
      ParsedStop(t, |pre|);
    } else {
      var line := FieldLine(xs[0]);
      var pre', tail' := pre + line + CRLF, Printed(xs[1..]) + CRLF + tail;
      assert t == pre' + Printed(xs[1..]) + CRLF + tail == pre + line + CRLF + tail';
      FieldReadsBack(pre, xs[0], tail');
      FieldsReadBack(pre', xs[1..], tail);
      assert [xs[0]] + xs[1..] == xs;
    }
  }

  // ---- and nothing else survives ----

  /** A part of a line, cut to the parser's buffer. */
  lemma PartIsClean(t: seq<byte>, from: nat, end: nat, a: nat, b: nat)
    requires NulFree(t) && from <= a <= b <= end <= |t| && FirstMatch(Exact, t, from, CRLF) == end
    ensures var p := Truncated(t[a..b]);
            p <= t[a..b] && NulFree(p) && NoLineEnd(p) && |p| <= 255 && (p == [] ==> a == b)
  {
    hide FirstMatch, MatchAt;
    var p := Truncated(t[a..b]);
    FirstMatchIsLeast(Exact, t, from, CRLF);
    assert t[a..a + |p|] == p;
    MatchInPart(p, t, a);
    forall q ensures !MatchAt(Exact, p, q, CRLF) {
      assert MatchAt(Exact, p, q, CRLF) ==> MatchFits(p, q) && MatchAt(Exact, t, q + a, CRLF);
    }
  }

  /** Whatever a line gives is printable. */
  lemma FieldAtIsPrintable(t: seq<byte>, from: nat)
    requires NulFree(t) && from <= |t| && FirstMatch(Exact, t, from, CRLF) != BSTR_ERR
    ensures var end := FirstMatch(Exact, t, from, CRLF);
            var c := NextSplit(t[..end], from, {COLON});
            c < end && SkipSpaces(t, c + 1) <= end ==> Printable(FieldAt(t, from, c, end))
  {
    hide FirstMatch, NextSplit, SkipSpaces, Truncated, NoLineEnd;
    var end := FirstMatch(Exact, t, from, CRLF);
    var c := NextSplit(t[..end], from, {COLON});
    if c < end && SkipSpaces(t, c + 1) <= end {
      var s := SkipSpaces(t, c + 1);
      PartIsClean(t, from, end, from, c);
      PartIsClean(t, from, end, s, end);
      var x := FieldAt(t, from, c, end);
      forall j | 0 <= j < |x.key| ensures x.key[j] != COLON {
        assert x.key[j] == t[from..c][j] == t[..end][from + j];
      }
    }
  }

  /** Only printable fields are ever read from a text. */
  lemma {:induction false} ParsedArePrintable(t: seq<byte>, from: nat)
    requires NulFree(t) && from <= |t|
    ensures forall x :: x in Parsed(t, from).0 ==> Printable(x)
    decreases |t| - from
  {
    hide FirstMatch, NextSplit, SkipSpaces, Parsed, Printable, NulFree;
    var end := FirstMatch(Exact, t, from, CRLF);
    if end == BSTR_ERR || end == from {
      ParsedStop(t, from);
    } else {
      ParsedStep(t, from);
      FieldAtIsPrintable(t, from);
      ParsedArePrintable(t, end + 2);
    }
  }

  /** A field read back from its own printed line, followed by a blank line, is the field exactly when it
      is printable: each condition is needed. */
  lemma ReadsBackExactly(x: Field)
    ensures Parsed(FieldLine(x) + CRLF + CRLF, 0).0 == [x] <==> Printable(x)
  {
    hide Printable, Parsed, FieldLine;
    var t := FieldLine(x) + CRLF + CRLF;
    if Printable(x) {
      FieldsReadBack([], [x], []);
      assert Printed([x]) == FieldLine(x) + CRLF + Printed([]);
      assert [] + Printed([x]) + CRLF + [] == t;
    } else {
      FieldLineNulFree(x);
      ParsedArePrintable(t, 0);
      assert x in [x];
    }
  }

  lemma FieldLineNulFree(x: Field)
    ensures NulFree(FieldLine(x))
  {
    CStrNulFree(x.key);
    CStrNulFree(x.data);
  }

  lemma {:induction false} CStrNulFree(a: seq<byte>)
    ensures NulFree(CStr(a))
  {
    if a == [] || a[0] == 0 {
    } else {
      CStrNulFree(a[1..]);
    }
  }

  lemma {:induction false} PrintedNulFree(xs: seq<Field>)
    ensures NulFree(Printed(xs))
  {
    hide FieldLine;
    if xs == [] {
    } else {
      FieldLineNulFree(xs[0]);
      PrintedNulFree(xs[1..]);
    }
  }

  /** The key "A:" loses its colon: "A:: B" is read as the key "A" and the value ": B". */
  lemma ColonIsLost()
    ensures var x: Field := Binding([65, 58], [66]);
            Parsed(FieldLine(x) + CRLF + CRLF, 0).0 == [Binding([65], [58, 32, 66])]
  {
    hide Parsed, FirstMatch, NextSplit, CStr;
    var x: Field := Binding([65, 58], [66]);
    FieldLineIs(x);
    var t := FieldLine(x) + CRLF + CRLF;
    assert t == [65, 58, 58, 32, 66, 13, 10, 13, 10];
    ColonLine(t);
    ParsedStep(t, 0);
    ParsedStop(t, 7);
  }

  lemma ColonLine(t: seq<byte>)
    requires t == [65, 58, 58, 32, 66, 13, 10, 13, 10]
    ensures FirstMatch(Exact, t, 0, CRLF) == 5 && FirstMatch(Exact, t, 7, CRLF) == 7
    ensures NextSplit(t[..5], 0, {COLON}) == 1
    ensures SkipSpaces(t, 2) == 2 && FieldAt(t, 0, 1, 5) == Binding([65], [58, 32, 66])
  {
    hide FirstMatch, NextSplit, MatchAt;
    forall q | 0 <= q < 5 ensures !MatchAt(Exact, t, q, CRLF) {
      LineEndAt(t, q);
    }
    LineEndAt(t, 5);
    LineEndAt(t, 7);
    FirstMatchIs(Exact, t, 0, CRLF, 5);
    FirstMatchIs(Exact, t, 7, CRLF, 7);
    NextSplitIs(t[..5], 0, {COLON}, 1);
    assert t[0..1] == [65] && t[2..5] == [58, 32, 66];
  }

  /** A printed list, its blank line and what follows parse to the list exactly when all fields are
      printable. */
  lemma PrintedReadsBackExactly(xs: seq<Field>, tail: seq<byte>)
    requires NulFree(tail)
    ensures Parsed(Printed(xs) + CRLF + tail, 0) == (xs, |Printed(xs)|) <==> AllPrintable(xs)
  {
    hide Printable, Parsed, Printed;
    var t := Printed(xs) + CRLF + tail;
    if AllPrintable(xs) {
      FieldsReadBack([], xs, tail);
      assert t == [] + Printed(xs) + CRLF + tail;
    } else {
      PrintedNulFree(xs);
      ParsedArePrintable(t, 0);
      var k :| 0 <= k < |xs| && !Printable(xs[k]);
      assert xs[k] in xs;
    }
  }

  ghost predicate MatchFits(a: seq<byte>, q: int) {
    0 <= q && q + 2 <= |a|
  }

  lemma MatchInPart(part: seq<byte>, t: seq<byte>, at: nat)
    requires at + |part| <= |t| && t[at..at + |part|] == part
    ensures forall q {:trigger MatchAt(Exact, part, q, CRLF)} ::
              MatchAt(Exact, part, q, CRLF) ==> MatchFits(part, q) && MatchAt(Exact, t, q + at, CRLF)
  {
    forall q | MatchAt(Exact, part, q, CRLF) ensures MatchFits(part, q) && MatchAt(Exact, t, q + at, CRLF) {
      assert CRLF[0] == part[q + 0] == t[at..at + |part|][q] && CRLF[1] == part[q + 1] == t[at..at + |part|][q + 1];
    }
  }

  // ---- rebuilding the buckets ----

  lemma {:induction false} InsertedAllAppend<V>(view: View<V>, p: Policy, xs: seq<Binding<V>>, ys: seq<Binding<V>>)
    requires |view| == DEFAULT_NUMBER_OF_BUCKETS
    ensures InsertedAll(view, p, xs + ys) == InsertedAll(InsertedAll(view, p, xs), p, ys)
    decreases |xs|
  {
    if xs == [] {
      assert xs + ys == ys;
    } else {
      InsertedAllAppend(Inserted(view, p, xs[0]), p, xs[1..], ys);
      assert (xs + ys)[1..] == xs[1..] + ys;
    }
  }

  lemma {:induction false} InsertBucket<V>(view: View<V>, p: Policy, b: nat, xs: seq<Binding<V>>)
    requires |view| == DEFAULT_NUMBER_OF_BUCKETS && b < |view|
    requires forall k :: 0 <= k < |xs| ==> p.BucketOf(xs[k].key) == b
    ensures InsertedAll(view, p, xs) == view[b := view[b] + xs]
    decreases |xs|
  {
    if xs == [] {
      assert view[b] + xs == view[b];
    } else {
      InsertBucket(Inserted(view, p, xs[0]), p, b, xs[1..]);
      assert view[b] + [xs[0]] + xs[1..] == view[b] + xs;
    }
  }

  /** Putting the bindings of the first n buckets into an empty map, in the order of a traversal, makes
      those buckets, each in its order. */
  lemma {:induction false} Rebuild<V>(view: View<V>, p: Policy, n: nat)
    requires WellPlaced(view, p) && n <= |view|
    ensures InsertedAll(EmptyView<V>(), p, Flat(view[..n])) == view[..n] + EmptyView<V>()[n..]
  {
    if n == 0 {
      assert Flat(view[..0]) == [];
      assert view[..0] + EmptyView<V>()[0..] == EmptyView<V>();
    } else {
      Rebuild(view, p, n - 1);
      assert view[..n] == view[..n - 1] + [view[n - 1]];
      FlatAppend(view[..n - 1], view[n - 1]);
      InsertedAllAppend(EmptyView<V>(), p, Flat(view[..n - 1]), view[n - 1]);
      var before := view[..n - 1] + EmptyView<V>()[n - 1..];
      InsertBucket(before, p, n - 1, view[n - 1]);
      assert before[n - 1] == [];
      assert [] + view[n - 1] == view[n - 1];
      assert before[n - 1 := view[n - 1]] == view[..n] + EmptyView<V>()[n..];
    }
  }

  lemma {:induction false} FlatMember<V>(view: View<V>, x: Binding<V>)
    ensures x in Flat(view) <==> exists b :: 0 <= b < |view| && x in view[b]
  {
    if view == [] {
    } else {
      FlatMember(view[1..], x);
      if x in Flat(view[1..]) {
        var b :| 0 <= b < |view[1..]| && x in view[1..][b];
        assert x in view[b + 1];
      }
      if c :| 0 < c < |view| && x in view[c] {
        assert x in view[1..][c - 1];
      }
    }
  }

  /** Every binding of a map comes from one of the insertions. */
  lemma {:induction false} InsertedMember<V>(view: View<V>, p: Policy, xs: seq<Binding<V>>, x: Binding<V>)
    requires |view| == DEFAULT_NUMBER_OF_BUCKETS && x in Flat(InsertedAll(view, p, xs))
    ensures x in Flat(view) || x in xs
    decreases |xs|
  {
    hide Flat;
    if xs == [] {
    } else {
      var next := Inserted(view, p, xs[0]);
      InsertedMember(next, p, xs[1..], x);
      FlatMember(next, x);
      FlatMember(view, x);
      if x in Flat(next) {
        var b :| 0 <= b < |next| && x in next[b];
        assert x in view[b] || x == xs[0];
      }
    }
  }

  /** Inserting what was printed gives the map back, and inserting printable fields cannot give a map
      that holds any other. */
  lemma CopyExactly(view: View<seq<byte>>, p: Policy, xs: seq<Field>)
    requires WellPlaced(view, p) && forall x :: x in xs ==> Printable(x)
    ensures xs == Flat(view) ==> InsertedAll(EmptyView<seq<byte>>(), p, xs) == view
    ensures InsertedAll(EmptyView<seq<byte>>(), p, xs) == view ==> AllPrintable(Flat(view))
  {
    hide Printable, Flat, InsertedAll;
    Rebuild(view, p, DEFAULT_NUMBER_OF_BUCKETS);
    assert view[..DEFAULT_NUMBER_OF_BUCKETS] == view;
    assert view + EmptyView<seq<byte>>()[DEFAULT_NUMBER_OF_BUCKETS..] == view;
    if InsertedAll(EmptyView<seq<byte>>(), p, xs) == view {
      forall k | 0 <= k < |Flat(view)| ensures Printable(Flat(view)[k]) {
        InsertedMember(EmptyView<seq<byte>>(), p, xs, Flat(view)[k]);
        FlatMember(EmptyView<seq<byte>>(), Flat(view)[k]);
      }
    }
  }

  /** Printing a map and parsing the text, with a body or anything else after it, into an empty map gives
      the same map, down to the order in each bucket, exactly when every field is printable. The count is
      then the number of bindings, and parsing stops at the blank line. The copy of an empty map holds
      whatever its block is read as. */
  method PrintThenParse(map_: HeaderMap, uninitialised: seq<byte>, body: seq<byte>)
    returns (copy: HeaderMap, count: nat, end: nat)
    requires map_.Valid() && NulFree(uninitialised) && NulFree(body)
    ensures fresh(copy) && copy.Valid() && copy.policy == map_.policy
    ensures var (xs, stop) := Parsed(BlockText(Flat(map_.view), uninitialised) + body, 0);
            && copy.view == InsertedAll(EmptyView<seq<byte>>(), map_.policy, xs) && count == |xs| && end == stop
    ensures Flat(map_.view) != [] ==>
              && (copy.view == map_.view <==> AllPrintable(Flat(map_.view)))
              && (copy.view == map_.view ==> count == |Flat(map_.view)| && end == |Printed(Flat(map_.view))|)
  {
    hide Printable, Printed, Flat, Parsed, AllPrintable;
    ghost var xs := Flat(map_.view);
    var block, size, capacity := HeaderBlock(map_, uninitialised);
    copy := new Hashmap(map_.policy);
    PrintedNulFree(xs);
    count, end := ParseHeaders(block + body, copy);
    PrintedReadsBackExactly(xs, body);
    ParsedArePrintable(block + body, 0);
    CopyExactly(map_.view, map_.policy, Parsed(block + body, 0).0);
  }

  /** The block of a list of fields is read back as they are, whatever was in the memory and whatever
      follows, exactly when there is a field and all of them are printable. */
  lemma BlockReadsBackExactly(xs: seq<Field>)
    ensures (forall u, body :: NulFree(u) && NulFree(body) ==>
               Parsed(BlockText(xs, u) + body, 0) == (xs, |Printed(xs)|))
            <==> xs != [] && AllPrintable(xs)
  {
    hide Printable, Printed, Parsed, AllPrintable;
    if xs == [] {
      LeftoversAreRead();
      assert NulFree([65, 58, 32, 66, 13, 10]) && NulFree([]);
    } else {
      forall u, body | NulFree(u) && NulFree(body)
        ensures Parsed(BlockText(xs, u) + body, 0) == (xs, |Printed(xs)|) <==> AllPrintable(xs)
      {
        PrintedReadsBackExactly(xs, body);
      }
      var none: seq<byte> := [];
      assert NulFree(none) && BlockText(xs, none) == Printed(xs) + CRLF;
      PrintedReadsBackExactly(xs, none);
    }
  }

  /** The block of an empty map, in memory that held "A: B" and a line end, is read as one field. */
  lemma LeftoversAreRead()
    ensures var x, u: seq<byte> := Binding([65], [66]), [65, 58, 32, 66, 13, 10];
            Parsed(BlockText([], u) + [], 0) == ([x], 6)
  {
    hide Parsed;
    var x: Field := Binding([65], [66]);
    assert FieldLine(x) == [65, 58, 32, 66] by {
      FieldLineIs(x);
    }
    assert Printed([x]) == FieldLine(x) + CRLF + Printed([x][1..]) == [65, 58, 32, 66, 13, 10];
    assert Printable(x) by {
      SingleHasNoLineEnd(65);
      SingleHasNoLineEnd(66);
    }
    FieldsReadBack([], [x], []);
    assert BlockText([], Printed([x])) + [] == [] + Printed([x]) + CRLF + [];
  }

  lemma SingleHasNoLineEnd(c: byte)
    ensures NoLineEnd([c])
  {
  }
}
