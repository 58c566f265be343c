/** bssplitscb: splitting a stream while it is read, with over-reading and push-back. */
module StreamSplit {
  import opened Bytes
  import opened BStrings
  import opened CharFields
  import opened Split
  import opened Streams

  const BSSSC_BUFF_LEN := 256

  /** The scan in the middle of a piece that began at p. What was read of it is in buff, the rest of the
      text is what the stream stands for, and there is no split character before i. */
  ghost predicate Scanning(buff: BString, s: BStream, t: seq<byte>, p: nat, i: nat, chars: set<byte>)
    reads buff, buff.data, s, s.buff, s.buff.data, s.source
  {
    && Ready(buff, s) && p <= |t| && |t| + BSSSC_BUFF_LEN <= INT_MAX
    && t[p..] == buff.Contents() + s.Pending()
    && i <= buff.slen && NoTerm(buff.Contents()[..i], chars)
  }

  /** The calls made are those for the whole text, and the stream is left after the last piece shown. */
  ghost predicate StreamFinished(cb: Callback, s: BStream, c0: seq<Call>, all: seq<Call>, t: seq<byte>, ret: int)
    reads cb, s, s.buff, s.buff.data, s.source
  {
    && s.Valid()
    && (cb.calls, ret) == Made(c0, all, cb.verdict)
    && s.Pending() == if ret >= 0 then [] else After(t, cb.calls)
  }

  /** p is what follows the piece of a call and the byte after it. */
  ghost predicate LeftAfter(t: seq<byte>, c: Call, p: seq<byte>) {
    if 0 <= EndOf(c) + 1 <= |t| then p == t[EndOf(c) + 1..] else p == []
  }

  lemma LeftByStream(cb: Callback, s: BStream, c0: seq<Call>, all: seq<Call>, t: seq<byte>, ret: int)
    requires StreamFinished(cb, s, c0, all, t, ret)
    ensures ret >= 0 ==> s.Pending() == []
    ensures ret < 0 ==> cb.calls != [] && LeftAfter(t, cb.calls[|cb.calls| - 1], s.Pending())
  {
    hide Made;
    MadeFails(c0, all, cb.verdict);
  }

  /** What follows the last piece shown and its split character. */
  ghost function After(t: seq<byte>, calls: seq<Call>): seq<byte> {
    if calls == [] then t
    else
      var end := calls[|calls| - 1].0 + |calls[|calls| - 1].1| + 1;
      if 0 <= end <= |t| then t[end..] else []
  }

  /** Reading more of the piece. Nothing new arrives exactly when the text is used up. */
  method ReadMore(buff: BString, s: BStream, ghost t: seq<byte>, ghost p: nat, ghost i: nat, ghost chars: set<byte>)
    returns (ret: int)
    requires Scanning(buff, s, t, p, i, chars) && i == buff.slen
    modifies buff, buff.data, s, s.buff, s.buff.data, s.source
    ensures s.buff == old(s.buff) && s.source == old(s.source) && s.maxBuffSz == old(s.maxBuffSz)
    ensures s.buff.data == old(s.buff.data) || fresh(s.buff.data)
    ensures buff.data == old(buff.data) || fresh(buff.data)
    ensures buff.Valid() && Scanning(buff, s, t, p, i, chars)
    ensures ret >= 0 ==> i < buff.slen && |s.Pending()| < |old(s.Pending())|
    ensures ret < 0 ==> i == buff.slen && s.Pending() == [] && buff.Contents() == t[p..]
  {
    hide NoTerm, Chunk, Direct;
    ghost var b, q := buff.Contents(), s.Pending();
    assert |b| + |q| <= |t| && b[..i] == b;
    ret := Bsreada(buff, s, BSSSC_BUFF_LEN);
    ghost var got := buff.slen - |b|;
    assert b + q == (b + q[..got]) + q[got..];
    assert buff.Contents()[..i] == b;
  }

  /** A split character at i: what follows it goes back to the stream, and the piece is shown. */
  method CutPiece(buff: BString, s: BStream, cb: Callback, p: nat, i: nat, ghost t: seq<byte>, ghost c0: seq<Call>,
                  ghost all: seq<Call>, ghost chars: set<byte>)
    returns (ret: int)
    requires Scanning(buff, s, t, p, i, chars) && i < buff.slen && buff.data[i] in chars
    requires cb.list == null && Underway(c0, all, cb.calls, MoreCalls(t, p, chars), cb.verdict)
    modifies buff`slen, buff.data, s.buff, s.buff.data, cb
    ensures s.buff.data == old(s.buff.data) || fresh(s.buff.data)
    ensures p + i < |t|
    ensures ret < 0 ==> StreamFinished(cb, s, c0, all, t, ret)
    ensures ret >= 0 ==>
              && Scanning(buff, s, t, p + i + 1, 0, chars)
              && Underway(c0, all, cb.calls, MoreCalls(t, p + i + 1, chars), cb.verdict)
  {
    hide Made, Underway, MoreCalls, Scanning, StreamFinished, NoTerm;
    UnreadRest(buff, s, p, i, t, chars);
    UnderwayStep(c0, all, cb.calls, (p, t[p..p + i]), MoreCalls(t, p + i + 1, chars), cb.verdict);
    var c := buff.data[i];
    buff.data[i] := 0;
    assert buff.Contents() == t[p..p + i];
    ret := cb.Entry(p, buff.data[..buff.slen]);
    if ret < 0 {
      StoppedHere(cb, s, c0, all, t, ret, p, i);
      return;
    }
    buff.data[i] := c;
    buff.slen := 0;
    NextPiece(buff, s, t, p + i + 1, chars);
  }

  /** Everything after the split character is pushed back, and buff is cut down to the piece. */
  method UnreadRest(buff: BString, s: BStream, p: nat, i: nat, ghost t: seq<byte>, ghost chars: set<byte>)
    requires Scanning(buff, s, t, p, i, chars) && i < buff.slen && buff.data[i] in chars
    modifies buff`slen, s.buff, s.buff.data
    ensures s.buff.data == old(s.buff.data) || fresh(s.buff.data)
    ensures p + i < |t| && Ready(buff, s) && |t| + BSSSC_BUFF_LEN <= INT_MAX
    ensures buff.slen == i && buff.Contents() == t[p..p + i] && s.Pending() == t[p + i + 1..]
    ensures MoreCalls(t, p, chars) == [(p, t[p..p + i])] + MoreCalls(t, p + i + 1, chars)
  {
    hide MoreCalls, NoTerm;
    ghost var b, q := buff.Contents(), s.Pending();
    PieceOfText(t, p, i, b, q, chars);
    assert |t[p..]| == |b| + |q|;
    var ret := Bsunread(s, buff.data[i + 1..buff.slen]);
    assert buff.data[i + 1..buff.slen] == b[i + 1..];
    buff.slen := i;
    assert buff.Contents() == b[..i];
  }

  lemma StoppedHere(cb: Callback, s: BStream, c0: seq<Call>, all: seq<Call>, t: seq<byte>, ret: int, p: nat, i: nat)
    requires s.Valid() && ret < 0 && p + i < |t| && s.Pending() == t[p + i + 1..]
    requires (cb.calls, ret) == Made(c0, all, cb.verdict)
    requires cb.calls != [] && cb.calls[|cb.calls| - 1] == (p, t[p..p + i])
    ensures StreamFinished(cb, s, c0, all, t, ret)
  {
    hide Made;
  }

  lemma NextPiece(buff: BString, s: BStream, t: seq<byte>, p: nat, chars: set<byte>)
    requires Ready(buff, s) && p <= |t| && |t| + BSSSC_BUFF_LEN <= INT_MAX && buff.slen == 0 && s.Pending() == t[p..]
    ensures Scanning(buff, s, t, p, 0, chars)
  {
    assert t[p..] == buff.Contents() + s.Pending();
  }

  lemma PieceOfText(t: seq<byte>, p: nat, i: nat, b: seq<byte>, q: seq<byte>, chars: set<byte>)
    requires p <= |t| && t[p..] == b + q && i < |b| && NoTerm(b[..i], chars) && b[i] in chars
    ensures p + i < |t| && t[p..p + i] == b[..i] && t[p + i + 1..] == b[i + 1..] + q
    ensures MoreCalls(t, p, chars) == [(p, t[p..p + i])] + MoreCalls(t, p + i + 1, chars)
  {
    hide MoreCalls;
    assert t[p..][..i] == t[p..p + i] == b[..i];
    assert t[p..][i] == t[p + i] == b[i];
    assert t[p..][i + 1..] == t[p + i + 1..];
    forall j | p <= j < p + i ensures t[j] !in chars {
      assert t[j] == b[..i][j - p];
    }
    CharCallsStep(t, p, chars, p + i);
  }

  /** The last piece, which may be empty. */
  method LastPiece(buff: BString, s: BStream, cb: Callback, p: nat, ghost t: seq<byte>, ghost c0: seq<Call>,
                   ghost all: seq<Call>, ghost chars: set<byte>)
    returns (ret: int)
    requires buff.Valid() && Scanning(buff, s, t, p, buff.slen, chars) && s.Pending() == [] && buff.Contents() == t[p..]
    requires cb.list == null && Underway(c0, all, cb.calls, MoreCalls(t, p, chars), cb.verdict)
    modifies cb
    ensures StreamFinished(cb, s, c0, all, t, ret)
  {
    hide Made, Underway, MoreCalls, CharCalls;
    forall j | p <= j < |t| ensures t[j] !in chars {
      assert t[j] == t[p..][j - p] == buff.Contents()[..buff.slen][j - p];
    }
    assert t[p..|t|] == t[p..];
    CharCallsStep(t, p, chars, |t|);
    NoMoreCalls(t, chars);
    UnderwayStep(c0, all, cb.calls, (p, t[p..]), [], cb.verdict);
    ret := cb.Entry(p, buff.data[..buff.slen]);
    if ret >= 0 {
      UnderwayEnd(c0, all, cb.calls, cb.verdict);
    }
    if 0 < ret {
      ret := 0;
    }
  }

  lemma NoMoreCalls(t: seq<byte>, chars: set<byte>)
    ensures MoreCalls(t, |t| + 1, chars) == []
  {
  }

  /** bssplitscb, with a callback that leaves the stream alone: whatever the chunks, the calls and the
      result are those of bsplitscb on the whole text. */
  method Bssplitscb(s: BStream, splitStr: seq<byte>, cb: Callback) returns (ret: int)
    requires s.Valid() && cb.list == null
    requires |s.Pending()| + BSSSC_BUFF_LEN <= INT_MAX && |s.Pending()| + s.maxBuffSz < INT_MAX
    modifies s, s.buff, s.buff.data, s.source, cb
    ensures s.buff == old(s.buff) && s.source == old(s.source)
    ensures StreamFinished(cb, s, old(cb.calls), SetCalls(old(s.Pending()), 0, splitStr), old(s.Pending()), ret)
    ensures ret >= 0 ==> s.Pending() == []
    ensures ret < 0 ==> cb.calls != [] && LeftAfter(old(s.Pending()), cb.calls[|cb.calls| - 1], s.Pending())
  {
    hide Scanning, StreamFinished, Made, NoTerm, MoreCalls, CharCalls, LeftAfter;
    ghost var c0, t, all := cb.calls, s.Pending(), SetCalls(s.Pending(), 0, splitStr);
    var buff := new BString.FromBlk([]);
    if |splitStr| == 0 {
      ret := ShowWhole(s, buff, cb);
      LeftByStream(cb, s, c0, all, t, ret);
      return;
    }
    var chrs := new CharField();
    ret := chrs.Build(splitStr);
    ret := SplitStreamField(s, buff, chrs, CharsOf(splitStr), cb);
    LeftByStream(cb, s, c0, all, t, ret);
  }

  /** bssplitscb without split characters: everything is read, and shown once. */
  method ShowWhole(s: BStream, buff: BString, cb: Callback) returns (ret: int)
    requires Ready(buff, s) && cb.list == null && buff.slen == 0
    requires |s.Pending()| + BSSSC_BUFF_LEN <= INT_MAX
    modifies buff, buff.data, s, s.buff, s.buff.data, s.source, cb
    ensures s.buff == old(s.buff) && s.source == old(s.source)
    ensures StreamFinished(cb, s, old(cb.calls), [(0, old(s.Pending()))], old(s.Pending()), ret)
  {
    hide Scanning;
    ghost var t := s.Pending();
    WholeStarts(buff, s);
    ret := BSTR_OK;
    while ret >= 0
      invariant s.buff == old(s.buff) && s.source == old(s.source) && s.maxBuffSz == old(s.maxBuffSz)
      invariant s.buff.data == old(s.buff.data) || fresh(s.buff.data)
      invariant buff.data == old(buff.data) || fresh(buff.data)
      invariant Ready(buff, s) && Scanning(buff, s, t, 0, buff.slen, {}) && cb.calls == old(cb.calls)
      invariant ret < 0 ==> s.Pending() == [] && buff.Contents() == t
      decreases |s.Pending()| + (if ret < 0 then 0 else 1)
    {
      ghost var i := buff.slen;
      ret := ReadMore(buff, s, t, 0, i, {});
      WholeGoesOn(buff, s, t, i);
      assert t[0..] == t;
    }
    MadeOne(cb.calls, (0, t), cb.verdict);
    ret := cb.Entry(0, buff.data[..buff.slen]);
    if ret > 0 {
      ret := 0;
    }
  }

  lemma WholeStarts(buff: BString, s: BStream)
    requires Ready(buff, s) && buff.slen == 0 && |s.Pending()| + BSSSC_BUFF_LEN <= INT_MAX
    ensures Scanning(buff, s, s.Pending(), 0, 0, {})
  {
    assert s.Pending()[0..] == buff.Contents() + s.Pending();
  }

  lemma WholeGoesOn(buff: BString, s: BStream, t: seq<byte>, i: nat)
    requires Scanning(buff, s, t, 0, i, {})
    ensures Ready(buff, s) && Scanning(buff, s, t, 0, buff.slen, {})
  {
  }

  /** bssplitscb, the loop. */
  method SplitStreamField(s: BStream, buff: BString, chrs: CharField, ghost chars: set<byte>, cb: Callback)
    returns (ret: int)
    requires Ready(buff, s) && cb.list == null && buff.slen == 0
    requires |s.Pending()| + BSSSC_BUFF_LEN <= INT_MAX
    requires chrs.Valid() && chrs.Holds(chars)
    requires chrs.content as object != buff.data && chrs.content as object != s.buff.data
    modifies buff, buff.data, s, s.buff, s.buff.data, s.source, cb
    ensures s.buff == old(s.buff) && s.source == old(s.source)
    ensures StreamFinished(cb, s, old(cb.calls), CharCalls(old(s.Pending()), 0, chars), old(s.Pending()), ret)
  {
    hide Scanning, StreamFinished, Made, Underway, NoTerm, MoreCalls, CharCalls;
    ghost var t, c0, all := s.Pending(), cb.calls, CharCalls(s.Pending(), 0, chars);
    SplitStarts(buff, s, chars, cb);
    var p, i := 0, 0;
    while true
      invariant s.buff == old(s.buff) && s.source == old(s.source) && s.maxBuffSz == old(s.maxBuffSz)
      invariant s.buff.data == old(s.buff.data) || fresh(s.buff.data)
      invariant buff.data == old(buff.data) || fresh(buff.data)
      invariant chrs.Holds(chars) && chrs.content as object != buff.data && chrs.content as object != s.buff.data
      invariant 0 <= p <= |t| && 0 <= i <= |t| - p && Scanning(buff, s, t, p, i, chars)
      invariant Underway(c0, all, cb.calls, MoreCalls(t, p, chars), cb.verdict)
      decreases |t| - p - i
    {
      ScanFacts(buff, s, t, p, i, chars);
      if i >= buff.slen {
        ret := ReadMore(buff, s, t, p, i, chars);
        if i >= buff.slen {
          ret := LastPiece(buff, s, cb, p, t, c0, all, chars);
          return;
        }
        ScanFacts(buff, s, t, p, i, chars);
      }
      if chrs.Test(buff.data[i]) {
        ret := CutPiece(buff, s, cb, p, i, t, c0, all, chars);
        if ret < 0 {
          return;
        }
        p := p + i + 1;
        i := -1;
      } else {
        ScanPast(buff, s, t, p, i, chars);
      }
      i := i + 1;
    }
  }

  lemma SplitStarts(buff: BString, s: BStream, chars: set<byte>, cb: Callback)
    requires Ready(buff, s) && buff.slen == 0 && |s.Pending()| + BSSSC_BUFF_LEN <= INT_MAX
    ensures Scanning(buff, s, s.Pending(), 0, 0, chars)
    ensures Underway(cb.calls, CharCalls(s.Pending(), 0, chars), cb.calls, MoreCalls(s.Pending(), 0, chars), cb.verdict)
  {
    hide CharCalls, Underway;
    UnderwayStart(cb.calls, CharCalls(s.Pending(), 0, chars), cb.verdict);
    assert s.Pending()[0..] == buff.Contents() + s.Pending();
  }

  lemma ScanFacts(buff: BString, s: BStream, t: seq<byte>, p: nat, i: nat, chars: set<byte>)
    requires Scanning(buff, s, t, p, i, chars)
    ensures buff.Valid() && i <= buff.slen && p + buff.slen <= |t|
  {
    assert |t[p..]| == |buff.Contents()| + |s.Pending()|;
  }

  lemma ScanPast(buff: BString, s: BStream, t: seq<byte>, p: nat, i: nat, chars: set<byte>)
    requires Scanning(buff, s, t, p, i, chars) && i < buff.slen && buff.data[i] !in chars
    ensures Scanning(buff, s, t, p, i + 1, chars)
  {
    assert buff.Contents()[..i + 1] == buff.Contents()[..i] + [buff.data[i]];
  }

  /** The same bytes, split in memory and split while they are read, in any chunks and with a buffer of any
      size: the callback sees the same calls and both return the same. */
  method SplitBothWays(bytes: seq<byte>, splitStr: seq<byte>, maxBuffSz: int, offer: Offer, verdict: Verdict)
    returns (inMemory: (seq<Call>, int), streamed: (seq<Call>, int))
    requires maxBuffSz > 0 && |bytes| + BSSSC_BUFF_LEN <= INT_MAX && |bytes| + maxBuffSz < INT_MAX
    ensures inMemory == streamed == Made([], SetCalls(bytes, 0, splitStr), verdict)
  {
    hide Made, SetCalls;
    inMemory := SplitInMemory(bytes, splitStr, verdict);
    streamed := SplitStreamed(bytes, splitStr, maxBuffSz, offer, verdict);
  }

  method SplitInMemory(bytes: seq<byte>, splitStr: seq<byte>, verdict: Verdict) returns (seen: (seq<Call>, int))
    requires |bytes| < INT_MAX
    ensures seen == Made([], SetCalls(bytes, 0, splitStr), verdict)
  {
    hide Made, SetCalls;
    var str := new BString.FromBlk(bytes);
    var cb := new Callback(null, verdict);
    var ret := Bsplitscb(str, splitStr, 0, cb);
    seen := (cb.calls, ret);
  }

  method SplitStreamed(bytes: seq<byte>, splitStr: seq<byte>, maxBuffSz: int, offer: Offer, verdict: Verdict)
    returns (seen: (seq<Call>, int))
    requires maxBuffSz > 0 && |bytes| + BSSSC_BUFF_LEN <= INT_MAX && |bytes| + maxBuffSz < INT_MAX
    ensures seen == Made([], SetCalls(bytes, 0, splitStr), verdict)
  {
    hide Made, SetCalls;
    var source := new Source(bytes, offer);
    var s := new BStream(source);
    var ret := s.Bsbufflength(maxBuffSz);
    var cb := new Callback(null, verdict);
    ret := Bssplitscb(s, splitStr, cb);
    seen := (cb.calls, ret);
  }
}
