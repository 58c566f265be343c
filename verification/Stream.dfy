/** bStream: a stream that reads ahead into a buffer, with line reads, block reads and push-back. */
module Streams {
  import opened Bytes
  import opened BStrings
  import opened CharFields

  // ---- what a line is ----

  ghost predicate NoTerm(p: seq<byte>, term: set<byte>) {
    forall i :: 0 <= i < |p| ==> p[i] !in term
  }

  /** The bytes of p up to and including the first terminator, or all of p if there is none. */
  function Line(p: seq<byte>, term: set<byte>): (line: seq<byte>)
    ensures |line| <= |p| && line == p[..|line|]
  {
    if p == [] then []
    else if p[0] in term then [p[0]]
    else [p[0]] + Line(p[1..], term)
  }

  /** What was read before holds no terminator, and the next one is at i. */
  lemma {:induction false} LineAt(p: seq<byte>, term: set<byte>, i: nat)
    requires i < |p| && NoTerm(p[..i], term) && p[i] in term
    ensures Line(p, term) == p[..i + 1]
  {
    if i == 0 {
    } else {
      assert p[0] == p[..i][0];
      assert p[1..][..i - 1] == p[..i][1..];
      LineAt(p[1..], term, i - 1);
    }
  }

  lemma {:induction false} LineAll(p: seq<byte>, term: set<byte>)
    requires NoTerm(p, term)
    ensures Line(p, term) == p
  {
    if p == [] {
    } else {
      LineAll(p[1..], term);
    }
  }

  function Min(a: nat, b: nat): nat {
    if a <= b then a else b
  }

  /** How much an fread-like function delivers at a time, given what is left. What is left only gets
      shorter, so every chunking of a text is one such function. */
  type Offer = seq<byte> -> nat

  /** The answer to a request for n bytes when p is left: any positive number of them, 0 at the end. */
  function Chunk(n: nat, p: seq<byte>, offer: Offer): (l: nat)
    ensures l <= n && l <= |p| && (l == 0 ==> n == 0 || p == [])
  {
    Min(n, Min(|p|, if offer(p) == 0 then 1 else offer(p)))
  }

  /** The core stream behind readFnPtr and parm. */
  class Source {
    const offer: Offer
    /** The bytes not read yet. */
    var rest: seq<byte>

    constructor (bytes: seq<byte>, offer: Offer)
      ensures rest == bytes && this.offer == offer
    {
      this.offer := offer;
      rest := bytes;
    }

    method Read(a: array<byte>, at: nat, n: int) returns (l: int)
      requires n >= 0 && at + n <= a.Length
      modifies this, a
      ensures l == Chunk(n, old(rest), offer) && rest == old(rest)[l..]
      ensures a[..] == Spliced(old(a[..]), at, old(rest)[..l])
    {
      l := Chunk(n, rest, offer);
      MemCpy(a, at, rest[..l]);
      rest := rest[l..];
    }
  }

  const BS_BUFF_SZ := 1024

  class BStream {
    var buff: BString
    var source: Source
    var isEOF: bool
    var maxBuffSz: int

    ghost predicate Valid()
      reads this, buff, source
    {
      buff.Valid() && maxBuffSz > 0 && (isEOF ==> source.rest == [])
    }

    /** The one byte sequence the stream stands for: what is buffered, then what is unread. */
    ghost function Pending(): seq<byte>
      requires buff.Valid()
      reads this, buff, buff.data, source
    {
      buff.Contents() + source.rest
    }

    /** bsopen. */
    constructor (source: Source)
      ensures Valid() && Pending() == source.rest && this.source == source
      ensures fresh(buff) && fresh(buff.data) && !isEOF && maxBuffSz == BS_BUFF_SZ
    {
      buff := new BString.FromBlk([]);
      this.source := source;
      maxBuffSz := BS_BUFF_SZ;
      isEOF := false;
    }

    /** bsbufflength. */
    method Bsbufflength(sz: int) returns (ret: int)
      requires Valid()
      modifies this`maxBuffSz
      ensures Valid() && Pending() == old(Pending())
      ensures ret == if sz < 0 then BSTR_ERR else old(maxBuffSz)
      ensures maxBuffSz == if sz > 0 then sz else old(maxBuffSz)
    {
      if sz < 0 {
        return BSTR_ERR;
      }
      ret := maxBuffSz;
      if sz > 0 {
        maxBuffSz := sz;
      }
    }

    /** bseof: when it says so, there is nothing left. */
    method Bseof() returns (eof: bool)
      requires Valid()
      ensures eof <==> isEOF && buff.slen == 0
      ensures eof ==> Pending() == []
    {
      eof := isEOF && buff.slen == 0;
    }
  }

  /** r receives bytes from s: they share no memory, and everything that can arrive fits. */
  ghost predicate Ready(r: BString, s: BStream)
    reads r, s, s.buff, s.buff.data, s.source
  {
    && s.Valid() && r.Valid()
    && r != s.buff && r.data != s.buff.data
    && r.slen + |s.Pending()| + s.maxBuffSz < INT_MAX
  }

  /** The same for a read that first discards what r holds. */
  ghost predicate Replaces(r: BString, s: BStream)
    reads r, s, s.buff, s.buff.data, s.source
  {
    && s.Valid() && r.Valid()
    && r != s.buff && r.data != s.buff.data
    && |s.Pending()| + s.maxBuffSz < INT_MAX
  }

  /** Reading replaces blocks only by new ones and changes nothing else about the stream. */
  twostate predicate Same(r: BString, s: BStream)
    reads r, s, s.buff
  {
    && s.buff == old(s.buff) && s.source == old(s.source) && s.maxBuffSz == old(s.maxBuffSz)
    && (r.data == old(r.data) || fresh(r.data))
    && (s.buff.data == old(s.buff.data) || fresh(s.buff.data))
    && r.data != s.buff.data
  }

  /** Plant a sentinel after l bytes and look for c: what is found at l is the sentinel. */
  method ScanChar(b: array<byte>, at: nat, l: nat, c: byte) returns (i: nat)
    requires at + l < b.Length
    modifies b
    ensures b[..at + l] == old(b[..at + l])
    ensures i <= l && NoTerm(b[at..at + i], {c}) && b[at + i] == c
  {
    b[at + l] := c;
    i := 0;
    while b[at + i] != c
      invariant i <= l && NoTerm(b[at..at + i], {c})
      decreases l - i
    {
      i := i + 1;
    }
  }

  /** The same for a set of characters; the sentinel is one of them. */
  method ScanField(b: array<byte>, at: nat, l: nat, cf: CharField, c: byte, ghost term: set<byte>) returns (i: nat)
    requires at + l < b.Length && cf.Valid() && cf.Holds(term) && c in term
    requires cf.content as object != b
    modifies b
    ensures b[..at + l] == old(b[..at + l])
    ensures i <= l && NoTerm(b[at..at + i], term) && b[at + i] in term
  {
    b[at + l] := c;
    i := 0;
    while !cf.Test(b[at + i])
      invariant i <= l && NoTerm(b[at..at + i], term)
      decreases l - i
    {
      assert b[at + i] !in term;
      i := i + 1;
    }
  }

  /** The part of a line read so far came from the buffer and from whole chunks, none of which holds
      a terminator, and chunk has arrived after it in the block of r. The buffer is used up, though
      its length still says otherwise. */
  ghost predicate Filling(r: BString, s: BStream, r0: seq<byte>, p0: seq<byte>, got: seq<byte>,
                          chunk: seq<byte>, term: set<byte>)
    reads r, r.data, s, s.buff, s.source
  {
    && s.Valid() && r.Valid() && r != s.buff && r.data != s.buff.data
    && |chunk| <= s.maxBuffSz < s.buff.mlen
    && r.slen + |chunk| + |s.source.rest| + s.maxBuffSz < INT_MAX
    && r.Contents() == r0 + got && NoTerm(got, term)
    && r.slen + |chunk| < r.mlen && r.data[r.slen..r.slen + |chunk|] == chunk
    && p0 == got + chunk + s.source.rest
  }

  /** What a line read leaves behind when r was r0, the stream stood for p0, and isEOF was eof0. */
  ghost predicate LineRead(r: BString, s: BStream, r0: seq<byte>, p0: seq<byte>, eof0: bool, term: set<byte>, ret: int)
    reads r, r.data, s, s.buff, s.buff.data, s.source
  {
    var line := Line(p0, term);
    && s.Valid() && r.Valid() && r.Terminated()
    && r.Contents() == r0 + line
    && s.Pending() == p0[|line|..]
    && ret == (if line == [] then BSTR_ERR else BSTR_OK)
    && s.isEOF == (eof0 || NoTerm(line, term))
  }

  /** The terminator is in the buffer at i. */
  method TakeBuffered(r: BString, s: BStream, i: nat, ghost term: set<byte>)
    requires Ready(r, s) && i < s.buff.slen
    requires NoTerm(s.buff.data[..i], term) && s.buff.data[i] in term
    modifies r, r.data, s.buff`slen, s.buff.data
    ensures Same(r, s)
    ensures LineRead(r, s, old(r.Contents()), old(s.Pending()), s.isEOF, term, BSTR_OK)
  {
    hide NoTerm, Line, Clamp, DeleteOutcome, Shifted;
    ghost var p0, b0, rest := s.Pending(), s.buff.Contents(), s.source.rest;
    DropClamped(b0, i + 1);
    assert b0[..i] == s.buff.data[..i];
    LineInBuffer(p0, b0, rest, term, i);
    var ret := r.Bconcat(s.buff.data[..i + 1]);
    ret := s.buff.Bdelete(0, i + 1);
    assert s.buff.Contents() == b0[i + 1..];
  }

  lemma LineInBuffer(p0: seq<byte>, b0: seq<byte>, rest: seq<byte>, term: set<byte>, i: nat)
    requires p0 == b0 + rest && i < |b0| && NoTerm(b0[..i], term) && b0[i] in term
    ensures Line(p0, term) == b0[..i + 1] && p0[i + 1..] == b0[i + 1..] + rest && !NoTerm(b0[..i + 1], term)
  {
    hide Line;
    assert [] + b0 + rest == p0;
    LineInChunk(p0, [], b0, rest, term, i);
  }

  /** No terminator in the buffer: all of it is copied out. */
  method DrainBuffer(r: BString, s: BStream, ghost term: set<byte>)
    requires Ready(r, s) && s.maxBuffSz < s.buff.mlen
    requires NoTerm(s.buff.Contents(), term)
    modifies r, r.data
    ensures Same(r, s)
    ensures Filling(r, s, old(r.Contents()), old(s.Pending()), old(s.buff.Contents()), [], term)
  {
    var ret := r.Bconcat(s.buff.data[..s.buff.slen]);
  }

  /** One direct read into r. */
  method ReadChunk(r: BString, s: BStream, ghost r0: seq<byte>, ghost p0: seq<byte>, ghost got: seq<byte>,
                   ghost term: set<byte>)
    returns (l: int, ghost chunk: seq<byte>)
    requires Filling(r, s, r0, p0, got, [], term)
    modifies r, r.data, s.source
    ensures (r.data == old(r.data) || fresh(r.data)) && r.data != s.buff.data
    ensures Filling(r, s, r0, p0, got, chunk, term)
    ensures l == |chunk| && (l == 0 ==> s.source.rest == [])
    ensures |s.source.rest| == |old(s.source.rest)| - l
  {
    var ret := r.Balloc(r.slen + s.maxBuffSz + 1);
    ghost var rest := s.source.rest;
    l := s.source.Read(r.data, r.slen, s.maxBuffSz);
    chunk := rest[..l];
    assert rest == chunk + s.source.rest;
    assert got + [] + rest == got + chunk + s.source.rest;
  }

  lemma ChunkKept(x: seq<byte>, n: nat, before: seq<byte>, chunk: seq<byte>, i: nat)
    requires n == |before| && n + |chunk| <= |x| && x[..n + |chunk|] == before + chunk && i <= |chunk|
    ensures x[..n] == before && x[n..n + |chunk|] == chunk && x[n..n + i] == chunk[..i]
  {
    assert x[..n + |chunk|][..n] == x[..n];
    assert x[..n + |chunk|][n..] == x[n..n + |chunk|];
    assert x[n..n + |chunk|][..i] == x[n..n + i];
  }

  /** Planting the sentinel after the chunk, and looking for the terminator in it. */
  method ScanChunkChar(r: BString, s: BStream, l: nat, c: byte,
                       ghost r0: seq<byte>, ghost p0: seq<byte>, ghost got: seq<byte>, ghost chunk: seq<byte>)
    returns (i: nat)
    requires Filling(r, s, r0, p0, got, chunk, {c}) && l == |chunk|
    modifies r.data
    ensures Filling(r, s, r0, p0, got, chunk, {c})
    ensures i <= l && NoTerm(chunk[..i], {c}) && (i < l ==> chunk[i] == c)
  {
    hide NoTerm;
    ghost var n := r.slen;
    ghost var before := r.Contents();
    assert r.data[..n + |chunk|] == before + chunk;
    i := ScanChar(r.data, r.slen, l, c);
    ChunkKept(r.data[..], n, before, chunk, i);
  }

  /** The chunk holds no terminator either. */
  method KeepChunk(r: BString, s: BStream, l: nat, ghost r0: seq<byte>, ghost p0: seq<byte>, ghost got: seq<byte>,
                   ghost chunk: seq<byte>, ghost term: set<byte>)
    requires Filling(r, s, r0, p0, got, chunk, term) && l == |chunk| && NoTerm(chunk, term)
    modifies r`slen
    ensures Filling(r, s, r0, p0, got + chunk, [], term)
  {
    r.slen := r.slen + l;
    assert r.Contents() == r0 + (got + chunk);
  }

  /** Nothing more to read. */
  method EndOfStream(r: BString, s: BStream, rlo: int,
                     ghost r0: seq<byte>, ghost p0: seq<byte>, ghost got: seq<byte>, ghost eof0: bool,
                     ghost term: set<byte>)
    returns (ret: int)
    requires Filling(r, s, r0, p0, got, [], term) && s.source.rest == [] && rlo == |r0|
    modifies r.data, s`isEOF, s.buff`slen
    ensures LineRead(r, s, r0, p0, eof0, term, ret)
  {
    r.data[r.slen] := 0;
    s.buff.slen := 0;
    s.isEOF := true;
    LineAll(p0, term);
    return if r.slen == rlo then BSTR_ERR else BSTR_OK;
  }

  /** The terminator is at i in the chunk: what follows it goes back to the buffer. */
  method PushBack(r: BString, s: BStream, i: nat, l: nat, ghost r0: seq<byte>, ghost p0: seq<byte>,
                  ghost got: seq<byte>,
                  ghost chunk: seq<byte>, ghost term: set<byte>)
    requires Filling(r, s, r0, p0, got, chunk, term)
    requires i < l == |chunk| && NoTerm(chunk[..i], term) && chunk[i] in term
    modifies r`slen, r.data, s.buff`slen, s.buff.data
    ensures LineRead(r, s, r0, p0, s.isEOF, term, BSTR_OK)
  {
    hide NoTerm, Line;
    LineInChunk(p0, got, chunk, s.source.rest, term, i);
    var b := r.slen;
    ghost var x := r.data[..];
    PushBackLayout(x, b, i + 1, l, r0 + got, chunk);
    var i := i + 1;
    r.slen := r.slen + i;
    s.buff.slen := l - i;
    MemCpy(s.buff.data, 0, r.data[b + i..b + l]);
    r.data[r.slen] := 0;
    assert r.Contents() == x[..b + i];
    assert s.buff.Contents() == chunk[i..];
    ConcatAssoc(r0, got, chunk[..i]);
  }

  lemma PushBackLayout(x: seq<byte>, b: nat, i: nat, l: nat, before: seq<byte>, chunk: seq<byte>)
    requires i <= l == |chunk| && b + l <= |x| && x[..b] == before && x[b..b + l] == chunk
    ensures x[..b + i] == before + chunk[..i] && x[b + i..b + l] == chunk[i..]
  {
    assert x[b..b + i] == chunk[..i];
  }

  lemma LineInChunk(p0: seq<byte>, got: seq<byte>, chunk: seq<byte>, rest: seq<byte>, term: set<byte>, i: nat)
    requires p0 == got + chunk + rest && NoTerm(got, term)
    requires i < |chunk| && NoTerm(chunk[..i], term) && chunk[i] in term
    ensures Line(p0, term) == got + chunk[..i + 1]
    ensures p0[|got| + i + 1..] == chunk[i + 1..] + rest
    ensures !NoTerm(got + chunk[..i + 1], term)
  {
    var at := |got| + i;
    assert p0[..at] == got + chunk[..i];
    assert p0[at] == chunk[i];
    LineAt(p0, term, at);
    assert p0[..at + 1] == got + chunk[..i + 1];
    assert (got + chunk[..i + 1])[at] in term;
  }

  /** bsreadlna. */
  method Bsreadlna(r: BString, s: BStream, terminator: byte) returns (ret: int)
    requires Ready(r, s)
    modifies r, r.data, s, s.buff, s.buff.data, s.source
    ensures Same(r, s)
    ensures LineRead(r, s, old(r.Contents()), old(s.Pending()), old(s.isEOF), {terminator}, ret)
  {
    hide Filling, LineRead, NoTerm, Line;
    var l := s.buff.slen;
    ret := s.buff.Balloc(s.maxBuffSz + 1);
    var i := ScanChar(s.buff.data, 0, l, terminator);
    if i < l {
      TakeBuffered(r, s, i, {terminator});
      return BSTR_OK;
    }
    var rlo := r.slen;
    ghost var got := s.buff.Contents();
    DrainBuffer(r, s, {terminator});
    ret := ReadOn(r, s, terminator, rlo, old(r.Contents()), old(s.Pending()), got, old(s.isEOF));
  }

  /** bsreadlna, the direct reads into r. */
  method ReadOn(r: BString, s: BStream, c: byte, rlo: int, ghost r0: seq<byte>, ghost p0: seq<byte>,
                ghost got: seq<byte>, ghost eof0: bool) returns (ret: int)
    requires Filling(r, s, r0, p0, got, [], {c}) && s.isEOF == eof0 && rlo == |r0| && r.data != s.buff.data
    modifies r, r.data, s`isEOF, s.buff`slen, s.buff.data, s.source
    ensures r.data == old(r.data) || fresh(r.data)
    ensures r.data != s.buff.data
    ensures LineRead(r, s, r0, p0, eof0, {c}, ret)
  {
    hide Filling, LineRead, NoTerm, Line;
    ghost var got, chunk := got, [];
    while true
      invariant (r.data == old(r.data) || fresh(r.data)) && r.data != s.buff.data
      invariant s.isEOF == eof0 && Filling(r, s, r0, p0, got, [], {c})
      decreases |s.source.rest|
    {
      var l;
      l, chunk := ReadChunk(r, s, r0, p0, got, {c});
      if l <= 0 {
        ret := EndOfStream(r, s, rlo, r0, p0, got, eof0, {c});
        return;
      }
      var i := ScanChunkChar(r, s, l, c, r0, p0, got, chunk);
      if i < l {
        PushBack(r, s, i, l, r0, p0, got, chunk, {c});
        return BSTR_OK;
      }
      assert chunk[..i] == chunk;
      KeepChunk(r, s, l, r0, p0, got, chunk, {c});
      got := got + chunk;
    }
  }

  /** Planting one of the terminators as the sentinel, and looking for any of them in the chunk. */
  method ScanChunkField(r: BString, s: BStream, l: nat, cf: CharField, c: byte, ghost r0: seq<byte>,
                        ghost p0: seq<byte>,
                        ghost got: seq<byte>, ghost chunk: seq<byte>, ghost term: set<byte>)
    returns (i: nat)
    requires Filling(r, s, r0, p0, got, chunk, term) && l == |chunk|
    requires cf.Valid() && cf.Holds(term) && c in term && cf.content as object != r.data
    modifies r.data
    ensures Filling(r, s, r0, p0, got, chunk, term)
    ensures i <= l && NoTerm(chunk[..i], term) && (i < l ==> chunk[i] in term)
  {
    hide NoTerm;
    ghost var n := r.slen;
    ghost var before := r.Contents();
    assert r.data[..n + |chunk|] == before + chunk;
    i := ScanField(r.data, r.slen, l, cf, c, term);
    ChunkKept(r.data[..], n, before, chunk, i);
  }

  /** bsreadlnsa. */
  method Bsreadlnsa(r: BString, s: BStream, term: seq<byte>) returns (ret: int)
    requires Ready(r, s)
    modifies r, r.data, s, s.buff, s.buff.data, s.source
    ensures Same(r, s)
    ensures if term == []
            then ret == BSTR_ERR && unchanged(r, old(r.data), s, old(s.buff), old(s.buff.data), old(s.source))
            else LineRead(r, s, old(r.Contents()), old(s.Pending()), old(s.isEOF), CharsOf(term), ret)
  {
    hide Filling, LineRead, NoTerm, Line;
    if |term| == 1 {
      ret := Bsreadlna(r, s, term[0]);
      assert CharsOf(term) == {term[0]};
      return;
    }
    var cf := new CharField();
    ret := cf.Build(term);
    if ret != BSTR_OK {
      return BSTR_ERR;
    }
    ret := ReadLineField(r, s, cf, term[0], CharsOf(term));
  }

  /** bsreadlnsa, after the charField is built. */
  method ReadLineField(r: BString, s: BStream, cf: CharField, c: byte, ghost chars: set<byte>) returns (ret: int)
    requires Ready(r, s)
    requires cf.Valid() && cf.Holds(chars) && c in chars
    requires cf.content as object != r.data && cf.content as object != s.buff.data
    modifies r, r.data, s, s.buff, s.buff.data, s.source
    ensures Same(r, s)
    ensures LineRead(r, s, old(r.Contents()), old(s.Pending()), old(s.isEOF), chars, ret)
  {
    hide Filling, LineRead, NoTerm, Line;
    var l := s.buff.slen;
    ret := s.buff.Balloc(s.maxBuffSz + 1);
    var i := ScanField(s.buff.data, 0, l, cf, c, chars);
    if i < l {
      TakeBuffered(r, s, i, chars);
      return BSTR_OK;
    }
    var rlo := r.slen;
    ghost var got := s.buff.Contents();
    DrainBuffer(r, s, chars);
    ret := ReadOnField(r, s, cf, c, rlo, old(r.Contents()), old(s.Pending()), got, old(s.isEOF), chars);
  }

  /** bsreadlnsa, the direct reads into r. */
  method ReadOnField(r: BString, s: BStream, cf: CharField, c: byte, rlo: int, ghost r0: seq<byte>, ghost p0: seq<byte>,
                     ghost got: seq<byte>, ghost eof0: bool, ghost chars: set<byte>) returns (ret: int)
    requires Filling(r, s, r0, p0, got, [], chars) && s.isEOF == eof0 && rlo == |r0| && r.data != s.buff.data
    requires cf.Valid() && cf.Holds(chars) && c in chars
    requires cf.content as object != r.data && cf.content as object != s.buff.data
    modifies r, r.data, s`isEOF, s.buff`slen, s.buff.data, s.source
    ensures r.data == old(r.data) || fresh(r.data)
    ensures r.data != s.buff.data
    ensures LineRead(r, s, r0, p0, eof0, chars, ret)
  {
    hide Filling, LineRead, NoTerm, Line;
    ghost var got, chunk := got, [];
    while true
      invariant (r.data == old(r.data) || fresh(r.data)) && r.data != s.buff.data
      invariant s.isEOF == eof0 && Filling(r, s, r0, p0, got, [], chars)
      invariant cf.Holds(chars) && cf.content as object != r.data
      decreases |s.source.rest|
    {
      var l;
      l, chunk := ReadChunk(r, s, r0, p0, got, chars);
      if l <= 0 {
        ret := EndOfStream(r, s, rlo, r0, p0, got, eof0, chars);
        return;
      }
      var i := ScanChunkField(r, s, l, cf, c, r0, p0, got, chunk, chars);
      if i < l {
        PushBack(r, s, i, l, r0, p0, got, chunk, chars);
        return BSTR_OK;
      }
      assert chunk[..i] == chunk;
      KeepChunk(r, s, l, r0, p0, got, chunk, chars);
      got := got + chunk;
    }
  }

  /** bsreadln: the line replaces what r held. */
  method Bsreadln(r: BString, s: BStream, terminator: byte) returns (ret: int)
    requires Replaces(r, s)
    modifies r, r.data, s, s.buff, s.buff.data, s.source
    ensures Same(r, s)
    ensures LineRead(r, s, [], old(s.Pending()), old(s.isEOF), {terminator}, ret)
  {
    hide Filling, LineRead, NoTerm, Line;
    ret := s.buff.Balloc(s.maxBuffSz + 1);
    r.slen := 0;
    assert r.Contents() == [];
    ret := Bsreadlna(r, s, terminator);
  }

  /** bsreadlns. */
  method Bsreadlns(r: BString, s: BStream, term: seq<byte>) returns (ret: int)
    requires Replaces(r, s)
    modifies r, r.data, s, s.buff, s.buff.data, s.source
    ensures Same(r, s)
    ensures if term == []
            then ret == BSTR_ERR && unchanged(r, old(r.data), s, old(s.buff), old(s.buff.data), old(s.source))
            else LineRead(r, s, [], old(s.Pending()), old(s.isEOF), CharsOf(term), ret)
  {
    hide Filling, LineRead, NoTerm, Line;
    if |term| == 1 {
      ret := Bsreadln(r, s, term[0]);
      assert CharsOf(term) == {term[0]};
      return;
    }
    if |term| < 1 {
      return BSTR_ERR;
    }
    ret := s.buff.Balloc(s.maxBuffSz + 1);
    r.slen := 0;
    assert r.Contents() == [];
    ret := Bsreadlnsa(r, s, term);
  }

  /** The bytes a block read of up to n bytes delivers: all n if there are as many, but only one chunk if
      the single direct read was tried. */
  function BlockLength(p: seq<byte>, n: nat, direct: bool, offer: Offer): nat {
    if direct then Chunk(n, p, offer) else Min(n, |p|)
  }

  /** A block read delivers n bytes or all there are, in whatever chunks they come, exactly when it is not
      direct or no more than one byte is to be had. */
  lemma DeliversAllExactly(p: seq<byte>, n: nat, direct: bool)
    ensures (forall offer: Offer :: BlockLength(p, n, direct, offer) == Min(n, |p|)) <==> !direct || Min(n, |p|) <= 1
  {
    if direct && Min(n, |p|) > 1 {
      assert BlockLength(p, n, direct, _ => 1) == 1;
    }
  }

  /** Two bytes are asked for and there, and a direct read of a stream that offers one delivers one. */
  lemma DirectReadFallsShort()
    ensures BlockLength([65, 66], 2, true, _ => 1) == 1 && BlockLength([65, 66], 2, false, _ => 1) == 2
  {
  }

  /** What a block read of up to n bytes leaves behind. */
  ghost predicate BlockRead(r: BString, s: BStream, r0: seq<byte>, p0: seq<byte>, n: nat, direct: bool, ret: int)
    reads r, r.data, s, s.buff, s.buff.data, s.source
  {
    && s.Valid() && r.Valid()
    && var got := BlockLength(p0, n, direct, s.source.offer);
    && r.Contents() == r0 + p0[..got]
    && s.Pending() == p0[got..]
    && ret == (if got == 0 then BSTR_ERR else BSTR_OK)
  }

  /** The buffer is empty and r has room, so a single read goes straight into r. */
  ghost predicate Direct(r: BString, s: BStream, n: int)
    reads r, s, s.buff
  {
    s.buff.slen == 0 && r.mlen > n
  }

  /** What has arrived of p0 after r0 when n bytes were asked for: n bytes, or all there are. A single read
      brings only what the source offers, if that is less, but at least a byte. */
  ghost predicate Arrived(r0: seq<byte>, p0: seq<byte>, n: nat, single: bool, offered: nat, r: seq<byte>,
                          p: seq<byte>)
  {
    && r0 <= r && r + p == r0 + p0
    && var got := |r| - |r0|;
    && got <= n && got <= |p0|
    && (!single || offered >= n || offered >= |p0| ==> got == n || got == |p0|)
    && (single && 0 < offered < n && offered < |p0| ==> got == offered)
    && (single && offered == 0 ==> got == 1 || p0 == [])
  }

  /** bsreada. */
  method Bsreada(r: BString, s: BStream, n: int) returns (ret: int)
    requires Ready(r, s)
    modifies r, r.data, s, s.buff, s.buff.data, s.source
    ensures Same(r, s)
    ensures if n <= 0 || n > INT_MAX - old(r.slen)
            then ret == BSTR_ERR && unchanged(r, old(r.data), s, old(s.buff), old(s.buff.data), old(s.source))
            else BlockRead(r, s, old(r.Contents()), old(s.Pending()), n, old(Direct(r, s, n + r.slen)), ret)
    ensures 0 < n <= INT_MAX - old(r.slen) ==>
              Arrived(old(r.Contents()), old(s.Pending()), n, old(s.buff.slen) == 0 && old(r.mlen) > n + old(r.slen),
                      s.source.offer(old(s.Pending())), r.Contents(), s.Pending())
    ensures s.source.rest != old(s.source.rest) ==> s.buff.slen == 0
    ensures s.source.rest == old(s.source.rest) || |s.source.rest| < |old(s.source.rest)|
  {
    hide Arrived, BlockLength, Chunk;
    if n <= 0 || n > INT_MAX - r.slen {
      return BSTR_ERR;
    }
    BlockArrives(r.Contents(), s.Pending(), n, s.buff.slen == 0 && r.mlen > n + r.slen, s.source.offer);
    ret := ReadBlock(r, s, n);
  }

  /** bsreada, for a number of bytes that fits. */
  method ReadBlock(r: BString, s: BStream, n: int) returns (ret: int)
    requires Ready(r, s) && 0 < n <= INT_MAX - r.slen
    modifies r, r.data, s, s.buff, s.buff.data, s.source
    ensures Same(r, s)
    ensures BlockRead(r, s, old(r.Contents()), old(s.Pending()), n, old(Direct(r, s, n + r.slen)), ret)
    ensures s.source.rest != old(s.source.rest) ==> s.buff.slen == 0
    ensures s.source.rest == old(s.source.rest) || |s.source.rest| < |old(s.source.rest)|
  {
    hide BlockLength, Chunk, BString.Grown, BString.MoveCost;
    var orslen, n := r.slen, n + r.slen;
    var l := s.buff.slen;
    if l == 0 {
      if s.isEOF {
        NothingToRead(n - orslen, r.mlen > n, s.source.offer);
        return BSTR_ERR;
      }
      if r.mlen > n {
        ret := ReadDirect(r, s, n);
        return;
      }
    }
    ret := s.buff.Balloc(s.maxBuffSz + 1);
    ret := ReadThrough(r, s, n);
  }

  lemma BlockArrives(r0: seq<byte>, p0: seq<byte>, n: nat, direct: bool, offer: Offer)
    requires n > 0
    ensures var got := BlockLength(p0, n, direct, offer);
            got <= |p0| && Arrived(r0, p0, n, direct, offer(p0), r0 + p0[..got], p0[got..])
  {
    var got := BlockLength(p0, n, direct, offer);
    ConcatAssoc(r0, p0[..got], p0[got..]);
    assert p0[..got] + p0[got..] == p0;
  }

  lemma NothingToRead(n: nat, direct: bool, offer: Offer)
    ensures BlockLength([], n, direct, offer) == 0
  {
  }

  /** bsreada, the single read straight into r when nothing is buffered and r has room. */
  method ReadDirect(r: BString, s: BStream, n: int) returns (ret: int)
    requires Ready(r, s) && s.buff.slen == 0 && r.slen < n < r.mlen
    modifies r`slen, r.data, s`isEOF, s.source
    ensures BlockRead(r, s, old(r.Contents()), old(s.Pending()), n - old(r.slen), true, ret)
    ensures s.source.rest == old(s.source.rest) || |s.source.rest| < |old(s.source.rest)|
  {
    ghost var r0, p0 := r.Contents(), s.Pending();
    assert p0 == s.source.rest;
    var l := s.source.Read(r.data, r.slen, n - r.slen);
    if l <= 0 {
      s.isEOF := true;
      assert r.Contents() == r0;
      return BSTR_ERR;
    }
    r.slen := r.slen + l;
    assert r.Contents() == r0 + p0[..l];
    r.data[r.slen] := 0;
    assert r.Contents() == r0 + p0[..l];
    return BSTR_OK;
  }

  /** bsreada, the loop: what is in the buffer goes to r, and the buffer is filled again with no more
      than is still wanted. */
  method ReadThrough(r: BString, s: BStream, n: int) returns (ret: int)
    requires Ready(r, s) && r.slen < n <= INT_MAX && s.maxBuffSz < s.buff.mlen
    modifies r, r.data, s`isEOF, s.buff`slen, s.buff.data, s.source
    ensures r.data == old(r.data) || fresh(r.data)
    ensures r.data != s.buff.data
    ensures BlockRead(r, s, old(r.Contents()), old(s.Pending()), n - old(r.slen), false, ret)
    ensures s.source.rest != old(s.source.rest) ==> s.buff.slen == 0
    ensures s.source.rest == old(s.source.rest) || |s.source.rest| < |old(s.source.rest)|
  {
    hide BlockRead, Copying;
    ghost var r0, p0 := r.Contents(), s.Pending();
    var orslen, l := r.slen, s.buff.slen;
    ghost var got, rest := [], s.source.rest;
    CopyingStarts(r, s);
    while true
      invariant (r.data == old(r.data) || fresh(r.data)) && r.data != s.buff.data && r.Valid() && s.buff.Valid()
      invariant orslen <= r.slen < n && l >= 0 && Copying(r, s, r0, p0, got, l)
      invariant s.source.rest == rest || (|s.source.rest| < |rest| && 0 < l <= n - r.slen)
      decreases |s.source.rest|
    {
      if l + r.slen >= n {
        ret := TakeWanted(r, s, l, n, orslen, r0, p0, got);
        return;
      }
      got := TakeAll(r, s, l, r0, p0, got);
      l := if n - r.slen > s.maxBuffSz then s.maxBuffSz else n - r.slen;
      l := Refill(r, s, l, r0, p0, got);
      if l <= 0 {
        break;
      }
    }
    ret := SourceEnds(r, s, n, orslen, r0, p0, got);
  }

  /** The bytes got so far are in r, and l more wait at the start of the buffer's block. */
  ghost predicate Copying(r: BString, s: BStream, r0: seq<byte>, p0: seq<byte>, got: seq<byte>, l: nat)
    reads r, r.data, s, s.buff, s.buff.data, s.source
  {
    && s.Valid() && r.Valid() && r.data != s.buff.data && r != s.buff
    && s.maxBuffSz < s.buff.mlen && l < s.buff.mlen
    && r.slen + l + |s.source.rest| + s.maxBuffSz < INT_MAX
    && r.Contents() == r0 + got && p0 == got + s.buff.data[..l] + s.source.rest
  }

  lemma CopyingStarts(r: BString, s: BStream)
    requires Ready(r, s) && s.maxBuffSz < s.buff.mlen
    ensures Copying(r, s, r.Contents(), s.Pending(), [], s.buff.slen)
  {
    assert [] + s.buff.Contents() + s.source.rest == s.Pending();
  }

  /** The block holds as much as is still wanted. */
  method TakeWanted(r: BString, s: BStream, l: nat, n: int, orslen: int, ghost r0: seq<byte>, ghost p0: seq<byte>,
                    ghost got: seq<byte>)
    returns (ret: int)
    requires Copying(r, s, r0, p0, got, l) && r.slen < n <= l + r.slen && orslen == |r0|
    modifies r, r.data, s.buff`slen, s.buff.data
    ensures (r.data == old(r.data) || fresh(r.data)) && r.data != s.buff.data
    ensures BlockRead(r, s, r0, p0, n - |r0|, false, ret)
    ensures l <= n - old(r.slen) ==> s.buff.slen == 0
  {
    ghost var chunk, rest := s.buff.data[..l], s.source.rest;
    var xlen := n - r.slen;
    TakePart(r0, p0, got, chunk, rest, xlen);
    ret := r.Bconcat(s.buff.data[..xlen]);
    assert chunk[..xlen] == s.buff.data[..xlen];
    ret := DropFront(s.buff, l, xlen, chunk);
    return if r.slen == orslen then BSTR_ERR else BSTR_OK;
  }

  lemma DropClamped(t: seq<byte>, n: nat)
    requires n <= |t|
    ensures var (from, to) := Clamp(|t|, 0, n); t[..from] + t[to..] == t[n..]
  {
  }

  /** The string is the first l bytes of its block, without the first n. */
  method DropFront(b: BString, l: nat, n: nat, ghost chunk: seq<byte>) returns (ret: int)
    requires b.Valid() && n <= l < b.mlen && b.data[..l] == chunk
    modifies b`slen, b.data
    ensures b.Valid() && b.Contents() == chunk[n..] && b.slen == l - n
  {
    hide Clamp, DeleteOutcome, Shifted;
    DropClamped(chunk, n);
    b.slen := l;
    assert b.Contents() == chunk;
    ret := b.Bdelete(0, n);
  }

  method TakeAll(r: BString, s: BStream, l: nat, ghost r0: seq<byte>, ghost p0: seq<byte>, ghost got: seq<byte>)
    returns (ghost got': seq<byte>)
    requires Copying(r, s, r0, p0, got, l)
    modifies r, r.data
    ensures (r.data == old(r.data) || fresh(r.data)) && r.data != s.buff.data && r.Valid()
    ensures r.slen == old(r.slen) + l && Copying(r, s, r0, p0, got', 0)
  {
    got' := got + s.buff.data[..l];
    assert r0 + got + s.buff.data[..l] == r0 + got';
    assert got' + s.source.rest == got' + [] + s.source.rest;
    var ret := r.Bconcat(s.buff.data[..l]);
  }

  method Refill(r: BString, s: BStream, want: int, ghost r0: seq<byte>, ghost p0: seq<byte>, ghost got: seq<byte>)
    returns (l: int)
    requires Copying(r, s, r0, p0, got, 0) && 0 < want <= s.maxBuffSz
    modifies s.source, s.buff.data
    ensures 0 <= l <= want && Copying(r, s, r0, p0, got, l)
    ensures |s.source.rest| == |old(s.source.rest)| - l
    ensures l == 0 ==> s.source.rest == old(s.source.rest) == []
  {
    hide Spliced;
    ghost var rest, x := s.source.rest, s.buff.data[..];
    l := s.source.Read(s.buff.data, 0, want);
    SplicedFront(x, rest[..l]);
    Refilled(got, rest, l);
  }

  lemma SplicedFront(x: seq<byte>, s: seq<byte>)
    requires |s| <= |x|
    ensures Spliced(x, 0, s)[..|s|] == s
  {
  }

  lemma Refilled(got: seq<byte>, rest: seq<byte>, l: nat)
    requires l <= |rest|
    ensures got + [] + rest == got + rest[..l] + rest[l..]
  {
  }

  method SourceEnds(r: BString, s: BStream, n: int, orslen: int, ghost r0: seq<byte>, ghost p0: seq<byte>,
                    ghost got: seq<byte>)
    returns (ret: int)
    requires Copying(r, s, r0, p0, got, 0) && s.source.rest == [] && r.slen < n && orslen == |r0|
    modifies s`isEOF, s.buff`slen
    ensures BlockRead(r, s, r0, p0, n - |r0|, false, ret) && s.buff.slen == 0
  {
    assert p0 == got;
    s.isEOF := true;
    s.buff.slen := 0;
    return if r.slen == orslen then BSTR_ERR else BSTR_OK;
  }

  lemma TakePart(r0: seq<byte>, p0: seq<byte>, got: seq<byte>, chunk: seq<byte>, rest: seq<byte>, n: nat)
    requires p0 == got + chunk + rest && n <= |chunk|
    ensures r0 + got + chunk[..n] == r0 + p0[..|got| + n]
    ensures chunk[n..] + rest == p0[|got| + n..]
  {
  }

  /** bsread. */
  method Bsread(r: BString, s: BStream, n: int) returns (ret: int)
    requires Replaces(r, s)
    modifies r, r.data, s, s.buff, s.buff.data, s.source
    ensures Same(r, s)
    ensures if n <= 0 || n > INT_MAX
            then ret == BSTR_ERR && s.Valid() && r.Valid() && r.slen <= old(r.slen) && s.Pending() == old(s.Pending())
            else BlockRead(r, s, [], old(s.Pending()), n, old(Direct(r, s, n)), ret)
    ensures 0 < n <= INT_MAX ==>
              Arrived([], old(s.Pending()), n, old(s.buff.slen) == 0 && old(r.mlen) > n,
                      s.source.offer(old(s.Pending())), r.Contents(), s.Pending())
  {
    if n <= 0 {
      return BSTR_ERR;
    }
    ret := s.buff.Balloc(s.maxBuffSz + 1);
    r.slen := 0;
    assert r.Contents() == [];
    ret := Bsreada(r, s, n);
  }

  /** bsunread. */
  method Bsunread(s: BStream, b: seq<byte>) returns (ret: int)
    requires s.Valid()
    modifies s.buff, s.buff.data
    ensures s.Valid() && (s.buff.data == old(s.buff.data) || fresh(s.buff.data))
    ensures ret == if |b| + old(s.buff.slen) < INT_MAX then BSTR_OK else BSTR_ERR
    ensures s.Pending() == if ret == BSTR_OK then b + old(s.Pending()) else old(s.Pending())
  {
    hide Inserted;
    ghost var t := s.buff.Contents();
    ret := s.buff.Binsertblk(0, b, 63);
    InsertedInFront(t, b, 63);
    ConcatAssoc(b, t, s.source.rest);
  }

  /** bspeek, through bassign and under its condition. */
  method Bspeek(r: BString, s: BStream) returns (ret: int)
    requires r.Valid() && s.Valid() && r != s.buff && r.data != s.buff.data
    requires s.buff.slen < r.mlen || s.buff.slen < 0x4000_0000
    modifies r, r.data
    ensures Same(r, s) && r.Valid() && s.Valid() && ret == BSTR_OK
    ensures s.Pending() == old(s.Pending()) && r.Contents() == old(s.buff.Contents()) <= s.Pending()
  {
    ret := Bassign(r, s.buff.data[..s.buff.slen]);
  }
}
