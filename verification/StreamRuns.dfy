/** Whole runs of stream operations: nothing is lost, duplicated or reordered, and what lines come out
    does not depend on the chunks that came in. */
module StreamRuns {
  import opened Bytes
  import opened BStrings
  import opened CharFields
  import opened Streams

  datatype Op =
    | ReadLine(term: seq<byte>)
    | ReadBlock(n: int)
    | Unread(b: seq<byte>)
    | Peek

  /** One operation on a stream that stands for p: it delivers got, and the stream then stands for p'. */
  ghost predicate Step(p: seq<byte>, op: Op, got: seq<byte>, p': seq<byte>) {
    match op
    case ReadLine(term) =>
      got == (if term == [] then [] else Line(p, CharsOf(term))) && p' == p[|got|..]
    case ReadBlock(n) =>
      && |got| <= |p| && got == p[..|got|] && p' == p[|got|..]
      && if 0 < n <= INT_MAX then |got| <= n && (p != [] ==> got != []) else got == []
    case Unread(b) => got == [] && p' == b + p
    case Peek => got == [] && p' == p
  }

  datatype Event = Event(op: Op, got: seq<byte>)

  /** A run from p to p'. */
  ghost predicate Run(p: seq<byte>, trace: seq<Event>, p': seq<byte>)
    decreases |trace|
  {
    if trace == [] then p == p'
    else exists q :: Step(p, trace[0].op, trace[0].got, q) && Run(q, trace[1..], p')
  }

  function Delivered(trace: seq<Event>): seq<byte> {
    if trace == [] then [] else trace[0].got + Delivered(trace[1..])
  }

  /** The whole text after a run that began with v, the first c bytes of it delivered already: a
      delivery moves on, and pushed-back bytes are put in at the place reached. */
  function Tape(v: seq<byte>, c: nat, trace: seq<Event>): (r: (seq<byte>, int))
    decreases |trace|
  {
    if trace == [] then (v, c)
    else if trace[0].op.Unread? && c <= |v| then Tape(v[..c] + trace[0].op.b + v[c..], c, trace[1..])
    else Tape(v, c + |trace[0].got|, trace[1..])
  }

  /** Conservation, from the middle of a run: out has been delivered and p is pending. */
  lemma {:induction false} ConservedFrom(out: seq<byte>, p: seq<byte>, trace: seq<Event>, p': seq<byte>)
    requires Run(p, trace, p')
    ensures Tape(out + p, |out|, trace) == (out + Delivered(trace) + p', |out| + |Delivered(trace)|)
    decreases |trace|
  {
    if trace == [] {
      assert out + [] == out;
    } else {
      var op, got := trace[0].op, trace[0].got;
      var q :| Step(p, op, got, q) && Run(q, trace[1..], p');
      ConservedFrom(out + got, q, trace[1..], p');
      OneStep(out, p, op, got, q);
      ConcatAssoc(out, got, Delivered(trace[1..]));
    }
  }

  lemma OneStep(out: seq<byte>, p: seq<byte>, op: Op, got: seq<byte>, q: seq<byte>)
    requires Step(p, op, got, q)
    ensures op.Unread? ==> out + got == out && (out + p)[..|out|] + op.b + (out + p)[|out|..] == out + got + q
    ensures !op.Unread? ==> out + p == out + got + q
  {
    hide Line;
    Parts(out, p);
    if op.Unread? {
      ConcatAssoc(out, op.b, p);
    } else {
      assert p == got + q;
      ConcatAssoc(out, got, q);
    }
  }

  lemma Parts(out: seq<byte>, p: seq<byte>)
    ensures out + [] == out && (out + p)[..|out|] == out && (out + p)[|out|..] == p
  {
  }

  /** Delivered and pending bytes together are always the original text with the pushed-back bytes put
      in where they were pushed back, and the cursor stands between the two. */
  lemma Conserved(p: seq<byte>, trace: seq<Event>, p': seq<byte>)
    requires Run(p, trace, p')
    ensures Tape(p, 0, trace) == (Delivered(trace) + p', |Delivered(trace)|)
  {
    ConservedFrom([], p, trace, p');
    assert [] + p == p && [] + Delivered(trace) == Delivered(trace);
  }

  /** Without push-back that text is the original one. */
  lemma {:induction false} TapeUnchanged(v: seq<byte>, c: nat, trace: seq<Event>)
    requires forall k :: 0 <= k < |trace| ==> !trace[k].op.Unread?
    ensures Tape(v, c, trace).0 == v
    decreases |trace|
  {
    if trace == [] {
    } else {
      TapeUnchanged(v, c + |trace[0].got|, trace[1..]);
    }
  }

  lemma ReadsPartition(p: seq<byte>, trace: seq<Event>, p': seq<byte>)
    requires Run(p, trace, p') && forall k :: 0 <= k < |trace| ==> !trace[k].op.Unread?
    ensures Delivered(trace) + p' == p
  {
    Conserved(p, trace, p');
    TapeUnchanged(p, 0, trace);
  }

  // ---- lines ----

  /** The lines of a text. */
  function Lines(p: seq<byte>, term: set<byte>): seq<seq<byte>>
    decreases |p|
  {
    if p == [] then [] else [Line(p, term)] + Lines(p[|Line(p, term)|..], term)
  }

  function Flatten(ls: seq<seq<byte>>): seq<byte> {
    if ls == [] then [] else ls[0] + Flatten(ls[1..])
  }

  /** A line is not empty and has no terminator except possibly as its last byte; only the last line of
      a text may lack it. */
  lemma {:induction false} LineShape(p: seq<byte>, term: set<byte>)
    requires p != []
    ensures var line := Line(p, term);
            && line != [] && NoTerm(line[..|line| - 1], term)
            && (line[|line| - 1] in term || line == p)
  {
    if p[0] in term || p[1..] == [] {
      assert Line(p, term) == [p[0]];
    } else {
      var rest := Line(p[1..], term);
      LineShape(p[1..], term);
      assert Line(p, term) == [p[0]] + rest;
      LineGrows(p[0], rest, term);
    }
  }

  lemma LineGrows(c: byte, rest: seq<byte>, term: set<byte>)
    requires c !in term && rest != [] && NoTerm(rest[..|rest| - 1], term)
    ensures var line := [c] + rest; NoTerm(line[..|line| - 1], term) && line[|line| - 1] == rest[|rest| - 1]
  {
    var line := [c] + rest;
    assert line[..|line| - 1] == [c] + rest[..|rest| - 1];
  }

  lemma {:induction false} LinesAreTheText(p: seq<byte>, term: set<byte>)
    ensures Flatten(Lines(p, term)) == p
    decreases |p|
  {
    if p == [] {
    } else {
      var line := Line(p, term);
      LinesAreTheText(p[|line|..], term);
      FlattenCons(line, Lines(p[|line|..], term));
      assert p == p[..|line|] + p[|line|..];
    }
  }

  lemma FlattenCons(x: seq<byte>, ls: seq<seq<byte>>)
    ensures Flatten([x] + ls) == x + Flatten(ls)
  {
    assert ([x] + ls)[1..] == ls;
  }

  function Gots(trace: seq<Event>): (gs: seq<seq<byte>>)
    ensures |gs| == |trace|
  {
    if trace == [] then [] else [trace[0].got] + Gots(trace[1..])
  }

  /** Reading lines until nothing comes: each read delivers the next line of the text, whatever the
      chunks, and then empty lines for ever. */
  lemma {:induction false} LineRuns(p: seq<byte>, trace: seq<Event>, p': seq<byte>, term: seq<byte>)
    requires Run(p, trace, p') && term != [] && forall k :: 0 <= k < |trace| ==> trace[k].op == ReadLine(term)
    ensures var ls := Lines(p, CharsOf(term));
            forall k :: 0 <= k < |trace| ==> Gots(trace)[k] == if k < |ls| then ls[k] else []
    decreases |trace|
  {
    if trace == [] {
    } else {
      var q :| Step(p, trace[0].op, trace[0].got, q) && Run(q, trace[1..], p');
      LineRuns(q, trace[1..], p', term);
      var ls := Lines(p, CharsOf(term));
      assert p != [] ==> ls[1..] == Lines(q, CharsOf(term));
    }
  }

  // ---- the operations make such runs ----

  /** The bytes a list of operations pushes back. */
  function Pushed(ops: seq<Op>): nat {
    if ops == [] then 0 else (if ops[0].Unread? then |ops[0].b| else 0) + Pushed(ops[1..])
  }

  /** Everything a run can still bring in stays below n bytes, and a buffer of that size can be filled
      and, if the run peeks, assigned. */
  ghost predicate Fits(r: BString, s: BStream, ops: seq<Op>, n: nat)
    reads r, s, s.buff, s.buff.data, s.source
  {
    && s.Valid() && r.Valid() && r != s.buff && r.data != s.buff.data
    && |s.Pending()| + Pushed(ops) <= n && n + s.maxBuffSz < INT_MAX
    && (n < 0x4000_0000 || forall k :: 0 <= k < |ops| ==> !ops[k].Peek?)
  }

  method PerformLine(r: BString, s: BStream, term: seq<byte>) returns (got: seq<byte>)
    requires Replaces(r, s)
    modifies r, r.data, s, s.buff, s.buff.data, s.source
    ensures Same(r, s) && s.Valid() && r.Valid() && r != s.buff
    ensures Step(old(s.Pending()), ReadLine(term), got, s.Pending())
  {
    hide Line, CharsOf;
    ghost var p := s.Pending();
    var ret := Bsreadlns(r, s, term);
    got := if |term| > 0 then r.data[..r.slen] else [];
    assert [] + Line(p, CharsOf(term)) == Line(p, CharsOf(term));
  }

  method PerformBlock(r: BString, s: BStream, m: int) returns (got: seq<byte>)
    requires Replaces(r, s)
    modifies r, r.data, s, s.buff, s.buff.data, s.source
    ensures Same(r, s) && s.Valid() && r.Valid() && r != s.buff
    ensures Step(old(s.Pending()), ReadBlock(m), got, s.Pending())
  {
    hide Chunk, Direct;
    ghost var p, direct := s.Pending(), Direct(r, s, m);
    var ret := Bsread(r, s, m);
    got := if 0 < m <= INT_MAX then r.data[..r.slen] else [];
    assert 0 < m <= INT_MAX ==> got == p[..BlockLength(p, m, direct, s.source.offer)];
  }

  /** One operation, through the reads that replace what r held. */
  method Perform(r: BString, s: BStream, op: Op, ghost n: nat) returns (got: seq<byte>)
    requires Fits(r, s, [op], n)
    modifies r, r.data, s, s.buff, s.buff.data, s.source
    ensures s.buff == old(s.buff) && s.source == old(s.source) && s.maxBuffSz == old(s.maxBuffSz)
    ensures (r.data == old(r.data) || fresh(r.data)) && (s.buff.data == old(s.buff.data) || fresh(s.buff.data))
    ensures Fits(r, s, [], n)
    ensures Step(old(s.Pending()), op, got, s.Pending())
  {
    hide Line, CharsOf, LineRead, BlockRead;
    ghost var p := s.Pending();
    got := [];
    match op {
      case ReadLine(term) =>
        got := PerformLine(r, s, term);
      case ReadBlock(m) =>
        got := PerformBlock(r, s, m);
      case Unread(b) =>
        var ret := Bsunread(s, b);
        assert ret == BSTR_OK by { assert Pushed([op]) == |b| + Pushed([op][1..]); }
      case Peek =>
        assert [op][0].Peek?;
        var ret := Bspeek(r, s);
    }
    StepSize(p, op, got, s.Pending());
  }

  /** A whole run, whatever chunks the core stream delivers. */
  method RunOps(r: BString, s: BStream, ops: seq<Op>, ghost n: nat) returns (trace: seq<Event>)
    requires Fits(r, s, ops, n)
    modifies r, r.data, s, s.buff, s.buff.data, s.source
    ensures s.Valid() && |trace| == |ops| && forall k :: 0 <= k < |ops| ==> trace[k].op == ops[k]
    ensures Run(old(s.Pending()), trace, s.Pending())
    ensures Tape(old(s.Pending()), 0, trace) == (Delivered(trace) + s.Pending(), |Delivered(trace)|)
  {
    hide Step, Tape, Delivered;
    ghost var p := s.Pending();
    trace := [];
    var i := 0;
    RunStarts(p);
    while i < |ops|
      invariant 0 <= i <= |ops| == i + |ops[i..]| && |trace| == i
      invariant forall k :: 0 <= k < i ==> trace[k].op == ops[k]
      invariant s.buff == old(s.buff) && s.source == old(s.source)
      invariant (r.data == old(r.data) || fresh(r.data)) && (s.buff.data == old(s.buff.data) || fresh(s.buff.data))
      invariant Fits(r, s, ops[i..], n)
      invariant Run(p, trace, s.Pending())
    {
      PushedHead(ops, i);
      ghost var before := s.Pending();
      var got := Perform(r, s, ops[i], n);
      StepSize(before, ops[i], got, s.Pending());
      RunSnoc(p, trace, before, Event(ops[i], got), s.Pending());
      trace := trace + [Event(ops[i], got)];
      i := i + 1;
    }
    Conserved(p, trace, s.Pending());
  }

  lemma PushedHead(ops: seq<Op>, i: nat)
    requires i < |ops|
    ensures Pushed(ops[i..]) == Pushed([ops[i]]) + Pushed(ops[i + 1..])
  {
    assert ops[i..][1..] == ops[i + 1..];
    assert [ops[i]][1..] == [];
  }

  lemma StepSize(p: seq<byte>, op: Op, got: seq<byte>, q: seq<byte>)
    requires Step(p, op, got, q)
    ensures |q| <= |p| + Pushed([op])
  {
    assert [op][1..] == [];
  }

  lemma RunStarts(p: seq<byte>)
    ensures Run(p, [], p)
  {
  }

  lemma {:induction false} RunSnoc(p: seq<byte>, trace: seq<Event>, q: seq<byte>, e: Event, q': seq<byte>)
    requires Run(p, trace, q) && Step(q, e.op, e.got, q')
    ensures Run(p, trace + [e], q')
    decreases |trace|
  {
    if trace == [] {
      RunStarts(q');
      assert (trace + [e])[1..] == [];
    } else {
      var m :| Step(p, trace[0].op, trace[0].got, m) && Run(m, trace[1..], q);
      RunSnoc(m, trace[1..], q, e, q');
      assert (trace + [e])[1..] == trace[1..] + [e];
    }
  }
}
