/** The 256-bit character set of the scan functions, and the searches that use it. */
module CharFields {
  import opened Bytes
  import opened BStrings

  const CFCLEN := 32

  /** struct charField: bit c % 8 of byte c / 8 says whether c is in the set. */
  class CharField {
    const content: array<bv8>

    constructor ()
      ensures fresh(content) && content.Length == CFCLEN
    {
      content := new bv8[CFCLEN];
    }

    ghost predicate Valid() {
      content.Length == CFCLEN
    }

    /** testInCharField. */
    predicate Test(c: byte)
      requires Valid()
      reads content
    {
      content[c as int / 8] & Mask(c as int % 8) != 0
    }

    /** The bits are those of the set. */
    ghost predicate Holds(chars: set<byte>)
      requires Valid()
      reads content
    {
      forall c: byte :: Test(c) <==> c in chars
    }

    /** setInCharField. */
    method Add(c: byte, ghost chars: set<byte>)
      requires Valid() && Holds(chars)
      modifies content
      ensures Holds(chars + {c})
    {
      var at, m := c as int / 8, Mask(c as int % 8);
      ghost var was := content[at];
      content[at] := content[at] | m;
      forall x: byte ensures Test(x) <==> x in chars + {c} {
        SameByte(x, c);
        if x as int / 8 == at {
          SetBit(was, x as int % 8, c as int % 8);
        }
      }
    }

    /** buildCharField. */
    method Build(b: seq<byte>) returns (ret: int)
      requires Valid()
      modifies content
      ensures ret == if b == [] then BSTR_ERR else BSTR_OK
      ensures ret == BSTR_OK ==> Holds(CharsOf(b))
    {
      if |b| <= 0 {
        return BSTR_ERR;
      }
      forall i | 0 <= i < CFCLEN {
        content[i] := 0;
      }
      for i := 0 to |b|
        invariant Holds(CharsOf(b[..i]))
      {
        Add(b[i], CharsOf(b[..i]));
        assert CharsOf(b[..i + 1]) == CharsOf(b[..i]) + {b[i]} by {
          assert b[..i + 1] == b[..i] + [b[i]];
        }
      }
      assert b[..|b|] == b;
      return BSTR_OK;
    }

    /** invertCharField. */
    method Invert(ghost chars: set<byte>)
      requires Valid() && Holds(chars)
      modifies content
      ensures forall c: byte :: Test(c) <==> c !in chars
    {
      ghost var was := content[..];
      for i := 0 to CFCLEN
        invariant forall j :: 0 <= j < i ==> content[j] == !was[j]
        invariant forall j :: i <= j < CFCLEN ==> content[j] == was[j]
      {
        content[i] := !content[i];
      }
      forall c: byte ensures Test(c) <==> c !in chars {
        FlipBit(was[c as int / 8], c as int % 8);
        assert c in chars <==> was[c as int / 8] & Mask(c as int % 8) != 0;
      }
    }
  }

  function CharsOf(b: seq<byte>): (chars: set<byte>)
    ensures forall c :: c in chars <==> c in b
  {
    set c | c in b
  }

  /** 1 << k. */
  function Mask(k: nat): bv8
    requires k < 8
  {
    1 << k
  }

  lemma SetBit(w: bv8, i: nat, j: nat)
    requires i < 8 && j < 8
    ensures (w | Mask(j)) & Mask(i) != 0 <==> w & Mask(i) != 0 || i == j
  {
  }

  lemma FlipBit(w: bv8, i: nat)
    requires i < 8
    ensures !w & Mask(i) != 0 <==> w & Mask(i) == 0
  {
  }

  /** A byte is determined by its place in the table and its bit there. */
  lemma SameByte(a: byte, b: byte)
    ensures a == b <==> a as int / 8 == b as int / 8 && a as int % 8 == b as int % 8
  {
  }

  // ---- the searches ----

  /** r is the least index at or after pos of a byte that is in the set (or, with want false, not in
      it), or BSTR_ERR and there is none. */
  ghost predicate IsFirst(t: seq<byte>, pos: int, chars: set<byte>, want: bool, r: int) {
    && (r == BSTR_ERR || (pos <= r < |t| && 0 <= r && (t[r] in chars <==> want)))
    && (forall i :: 0 <= i < |t| && pos <= i && (r == BSTR_ERR || i < r) ==> (t[i] in chars <==> !want))
  }

  /** The same backwards: the greatest index at or before pos. */
  ghost predicate IsLast(t: seq<byte>, pos: int, chars: set<byte>, want: bool, r: int) {
    && (r == BSTR_ERR || (0 <= r < |t| && r <= pos && (t[r] in chars <==> want)))
    && (forall i :: 0 <= i < |t| && r < i <= pos ==> (t[i] in chars <==> !want))
  }

  /** bstrchrp, whose memchr is the loop. */
  method Bstrchrp(b: BString, c: byte, pos: int) returns (r: int)
    requires b.Valid()
    ensures if pos < 0 then r == BSTR_ERR else IsFirst(b.Contents(), pos, {c}, true, r)
  {
    if b.slen <= pos || pos < 0 {
      return BSTR_ERR;
    }
    for i := pos to b.slen
      invariant forall j :: pos <= j < i ==> b.data[j] != c
    {
      if b.data[i] == c {
        return i;
      }
    }
    return BSTR_ERR;
  }

  /** bstrrchrp. */
  method Bstrrchrp(b: BString, c: byte, pos: int) returns (r: int)
    requires b.Valid()
    ensures if pos >= b.slen then r == BSTR_ERR else IsLast(b.Contents(), pos, {c}, true, r)
  {
    if b.slen <= pos || pos < 0 {
      return BSTR_ERR;
    }
    var i := pos;
    while i >= 0
      invariant -1 <= i <= pos
      invariant forall j :: i < j <= pos ==> b.data[j] != c
    {
      if b.data[i] == c {
        return i;
      }
      i := i - 1;
    }
    return BSTR_ERR;
  }

  /** binchrCF. */
  method BinchrCF(data: array<byte>, len: int, pos: nat, cf: CharField, ghost chars: set<byte>, ghost want: bool)
    returns (r: int)
    requires cf.Valid() && pos <= len <= data.Length
    requires forall c: byte :: cf.Test(c) <==> (c in chars <==> want)
    ensures IsFirst(data[..len], pos, chars, want, r)
  {
    for i := pos to len
      invariant forall j :: pos <= j < i ==> !cf.Test(data[j])
    {
      var c := data[i];
      if cf.Test(c) {
        return i;
      }
    }
    return BSTR_ERR;
  }

  /** binchrrCF. */
  method BinchrrCF(data: array<byte>, ghost len: int, pos: int, cf: CharField, ghost chars: set<byte>, ghost want: bool)
    returns (r: int)
    requires cf.Valid() && -1 <= pos < len <= data.Length
    requires forall c: byte :: cf.Test(c) <==> (c in chars <==> want)
    ensures IsLast(data[..len], pos, chars, want, r)
  {
    var i := pos;
    while i >= 0
      invariant -1 <= i <= pos
      invariant forall j :: i < j <= pos ==> !cf.Test(data[j])
    {
      var c := data[i];
      if cf.Test(c) {
        return i;
      }
      i := i - 1;
    }
    return BSTR_ERR;
  }

  /** binchr. An empty set, like a position outside the string, is an error. */
  method Binchr(b0: BString, pos: int, b1: BString) returns (r: int)
    requires b0.Valid() && b1.Valid()
    ensures if pos < 0 || b1.slen == 0 then r == BSTR_ERR
            else IsFirst(b0.Contents(), pos, CharsOf(b1.Contents()), true, r)
  {
    if pos < 0 || b0.slen <= pos {
      return BSTR_ERR;
    }
    if b1.slen == 1 {
      r := Bstrchrp(b0, b1.data[0], pos);
      assert CharsOf(b1.Contents()) == {b1.data[0]};
      return;
    }
    var chrs := new CharField();
    var ret := chrs.Build(b1.data[..b1.slen]);
    if ret < 0 {
      return BSTR_ERR;
    }
    r := BinchrCF(b0.data, b0.slen, pos, chrs, CharsOf(b1.Contents()), true);
  }

  /** binchrr. */
  method Binchrr(b0: BString, pos: int, b1: BString) returns (r: int)
    requires b0.Valid() && b1.Valid()
    ensures if pos < 0 || pos > b0.slen || b1.slen == 0 then r == BSTR_ERR
            else IsLast(b0.Contents(), pos, CharsOf(b1.Contents()), true, r)
  {
    var pos := pos;
    if pos < 0 || b0.slen < pos {
      return BSTR_ERR;
    }
    if pos == b0.slen {
      pos := pos - 1;
    }
    if b1.slen == 1 {
      r := Bstrrchrp(b0, b1.data[0], pos);
      assert CharsOf(b1.Contents()) == {b1.data[0]};
      return;
    }
    var chrs := new CharField();
    var ret := chrs.Build(b1.data[..b1.slen]);
    if ret < 0 {
      return BSTR_ERR;
    }
    r := BinchrrCF(b0.data, b0.slen, pos, chrs, CharsOf(b1.Contents()), true);
  }

  /** bninchr. */
  method Bninchr(b0: BString, pos: int, b1: BString) returns (r: int)
    requires b0.Valid() && b1.Valid()
    ensures if pos < 0 || b1.slen == 0 then r == BSTR_ERR
            else IsFirst(b0.Contents(), pos, CharsOf(b1.Contents()), false, r)
  {
    if pos < 0 || b0.slen <= pos {
      return BSTR_ERR;
    }
    var chrs := new CharField();
    var ret := chrs.Build(b1.data[..b1.slen]);
    if ret < 0 {
      return BSTR_ERR;
    }
    chrs.Invert(CharsOf(b1.Contents()));
    r := BinchrCF(b0.data, b0.slen, pos, chrs, CharsOf(b1.Contents()), false);
  }

  /** bninchrr. */
  method Bninchrr(b0: BString, pos: int, b1: BString) returns (r: int)
    requires b0.Valid() && b1.Valid()
    ensures if pos < 0 || pos > b0.slen || b1.slen == 0 then r == BSTR_ERR
            else IsLast(b0.Contents(), pos, CharsOf(b1.Contents()), false, r)
  {
    var pos := pos;
    if pos < 0 || b0.slen < pos {
      return BSTR_ERR;
    }
    if pos == b0.slen {
      pos := pos - 1;
    }
    var chrs := new CharField();
    var ret := chrs.Build(b1.data[..b1.slen]);
    if ret < 0 {
      return BSTR_ERR;
    }
    chrs.Invert(CharsOf(b1.Contents()));
    r := BinchrrCF(b0.data, b0.slen, pos, chrs, CharsOf(b1.Contents()), false);
  }
}
