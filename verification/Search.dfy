/** Substring search: binstr with its unrolled subsequence scan, and binstrcaseless. */
module Search {
  import opened Bytes
  import opened BStrings

  /** Which bytes a search takes to be the same: those of binstr and binstrcaseless, or any others. */
  datatype Sameness = Exact | Caseless | Other(same: (byte, byte) -> bool)

  predicate Same(k: Sameness, a: byte, b: byte) {
    match k
    case Exact => a == b
    case Caseless => Downcase(a) == Downcase(b)
    case Other(same) => same(a, b)
  }

  /** The pattern d occurs in the text t at p. */
  predicate MatchAt(k: Sameness, t: seq<byte>, p: int, d: seq<byte>) {
    0 <= p && p + |d| <= |t| && forall x :: 0 <= x < |d| ==> Same(k, d[x], t[p + x])
  }

  /** An exact occurrence is a section of the text. */
  lemma ExactMatch(t: seq<byte>, p: int, d: seq<byte>)
    ensures MatchAt(Exact, t, p, d) <==> 0 <= p && p + |d| <= |t| && t[p..p + |d|] == d
  {
    if 0 <= p && p + |d| <= |t| {
      if MatchAt(Exact, t, p, d) {
        assert forall x :: 0 <= x < |d| ==> d[x] == t[p..p + |d|][x];
      } else {
        assert exists x :: 0 <= x < |d| && d[x] != t[p..p + |d|][x];
      }
    }
  }

  /** A caseless occurrence differs from the text at most in the case of letters. */
  lemma CaselessMatch(t: seq<byte>, p: int, d: seq<byte>)
    ensures MatchAt(Caseless, t, p, d) <==>
              && 0 <= p && p + |d| <= |t|
              && forall x :: 0 <= x < |d| ==>
                   d[x] == t[p + x] || TwoForms(d[x], t[p + x]) || TwoForms(t[p + x], d[x])
  {
    if 0 <= p && p + |d| <= |t| {
      forall x | 0 <= x < |d|
        ensures Same(Caseless, d[x], t[p + x])
           <==> d[x] == t[p + x] || TwoForms(d[x], t[p + x]) || TwoForms(t[p + x], d[x])
      {
        SameUpToCase(d[x], t[p + x]);
      }
    }
  }

  /** The first place at or after pos where d occurs in t, or BSTR_ERR. */
  function FirstMatch(k: Sameness, t: seq<byte>, pos: int, d: seq<byte>): (r: int)
    ensures r == BSTR_ERR || 0 <= pos <= r <= |t| - |d|
    decreases |t| - pos
  {
    if pos < 0 || pos + |d| > |t| then BSTR_ERR
    else if MatchAt(k, t, pos, d) then pos
    else FirstMatch(k, t, pos + 1, d)
  }

  /** r is the least place at or after pos where d occurs, or BSTR_ERR and there is none. */
  ghost predicate IsLeastMatch(k: Sameness, t: seq<byte>, pos: nat, d: seq<byte>, r: int) {
    && (r == BSTR_ERR || (pos <= r && MatchAt(k, t, r, d)))
    && (forall q :: pos <= q && MatchAt(k, t, q, d) ==> r != BSTR_ERR && r <= q)
  }

  lemma {:induction false} FirstMatchIsLeast(k: Sameness, t: seq<byte>, pos: nat, d: seq<byte>)
    ensures IsLeastMatch(k, t, pos, d, FirstMatch(k, t, pos, d))
    decreases |t| - pos
  {
    if pos + |d| > |t| || MatchAt(k, t, pos, d) {
    } else {
      FirstMatchIsLeast(k, t, pos + 1, d);
    }
  }

  /** A search result is determined by being the least match. */
  lemma FirstMatchIs(k: Sameness, t: seq<byte>, pos: nat, d: seq<byte>, r: int)
    requires IsLeastMatch(k, t, pos, d, r)
    ensures r == FirstMatch(k, t, pos, d)
  {
    FirstMatchIsLeast(k, t, pos, d);
  }

  /** A search from pos looks at nothing before pos. */
  lemma FirstMatchLocal(k: Sameness, t: seq<byte>, u: seq<byte>, pos: nat, d: seq<byte>)
    requires |t| == |u| && pos <= |t| && t[pos..] == u[pos..]
    ensures FirstMatch(k, t, pos, d) == FirstMatch(k, u, pos, d)
  {
    forall q | pos <= q
      ensures MatchAt(k, t, q, d) <==> MatchAt(k, u, q, d)
    {
      forall y | pos <= y < |t| ensures t[y] == u[y] {
        assert t[y] == t[pos..][y - pos];
        assert u[y] == u[pos..][y - pos];
      }
    }
    FirstMatchIsLeast(k, u, pos, d);
    FirstMatchIs(k, t, pos, d, FirstMatch(k, u, pos, d));
  }

  /** The state of the binstr scan. The first j characters of d were found one after the other, from
      start on and before i, the first of them at ii. Wherever d occurs, its character j is not
      before i: the scan has stepped over no match. */
  ghost predicate Scanning(t: seq<byte>, d: seq<byte>, pos: nat, start: int, i: int, j: int, ii: int) {
    && pos <= start <= i <= |t| && 0 <= j <= |d|
    && (j > 0 ==> start <= ii && ii + j <= i)
    && (j > 0 && i == ii + j ==> forall x :: 0 <= x < j ==> d[x] == t[ii + x])
    && (forall q :: pos <= q && MatchAt(Exact, t, q, d) ==> q + j >= i)
  }

  lemma ScanSkip(t: seq<byte>, d: seq<byte>, pos: nat, start: int, i: int, j: int, ii: int)
    requires Scanning(t, d, pos, start, i, j, ii) && j < |d| && i < |t| && d[j] != t[i]
    ensures Scanning(t, d, pos, start, i + 1, j, ii)
  {
    forall q | pos <= q && MatchAt(Exact, t, q, d) ensures q + j >= i + 1 {
      assert d[j] == t[q + j];
    }
  }

  lemma ScanTake(t: seq<byte>, d: seq<byte>, pos: nat, start: int, i: int, j: int, ii: int)
    requires Scanning(t, d, pos, start, i, j, ii) && j < |d| && i < |t| && d[j] == t[i]
    ensures Scanning(t, d, pos, start, i + 1, j + 1, if j == 0 then i else ii)
  {
  }

  /** All of d was found, or all but its last character, which is at i: the end check at N0. */
  lemma ScanCheck(t: seq<byte>, d: seq<byte>, pos: nat, start: int, i: int, j: int, ii: int)
    requires Scanning(t, d, pos, start, i, j, ii) && 0 < j
    requires j == |d| || (j == |d| - 1 && i < |t| && d[j] == t[i])
    ensures i == ii + j ==> ii == FirstMatch(Exact, t, pos, d)
    ensures i != ii + j ==> start < i - j && Scanning(t, d, pos, i - j, i - j, 0, ii)
  {
    if i == ii + j {
      assert MatchAt(Exact, t, ii, d);
      FirstMatchIs(Exact, t, pos, d, ii);
    }
  }

  /** The text is used up and the end check does not apply: d does not occur. */
  lemma ScanFails(t: seq<byte>, d: seq<byte>, pos: nat, start: int, i: int, j: int, ii: int)
    requires Scanning(t, d, pos, start, i, j, ii) && j < |d| && i >= |t| - 1
    requires i == |t| - 1 && |d| == j + 1 ==> d[j] != t[i]
    ensures FirstMatch(Exact, t, pos, d) == BSTR_ERR
  {
    if i == |t| - 1 && |d| == j + 1 {
      ScanSkip(t, d, pos, start, i, j, ii);
    }
    FirstMatchIs(Exact, t, pos, d, BSTR_ERR);
  }

  /** binstr. Characters of b2 are looked for one after the other, skipping text two characters at a
      time and going on past a mismatch; only when the last one is found is it checked that they
      were adjacent. */
  method Binstr(b1: BString, pos: int, b2: BString) returns (p: int)
    requires b1.Valid() && b2.Valid()
    ensures p == FirstMatch(Exact, b1.Contents(), pos, b2.Contents())
  {
    ghost var t, d := b1.Contents(), b2.Contents();
    if b1.slen == pos {
      return if b2.slen == 0 then pos else BSTR_ERR;
    }
    if b1.slen < pos || pos < 0 {
      return BSTR_ERR;
    }
    if b2.slen == 0 {
      return pos;
    }
    var lf := b1.slen - b2.slen + 1;
    if lf <= pos {
      return BSTR_ERR;
    }
    if b1.data == b2.data && pos == 0 {
      assert MatchAt(Exact, t, 0, d);
      return 0;
    }

    if b2.slen == 1 {
      p := ScanOne(b1, pos, b2);
    } else {
      p := Scan(b1, pos, b2);
    }
  }

  /** binstr, the peeled off case of one character. */
  method ScanOne(b1: BString, pos: nat, b2: BString) returns (p: int)
    requires b1.Valid() && b2.Valid() && b2.slen == 1 && pos < b1.slen
    ensures p == FirstMatch(Exact, b1.Contents(), pos, b2.Contents())
  {
    ghost var t, d := b1.Contents(), b2.Contents();
    var i, lf, c0 := pos, b1.slen, b2.data[0];
    while i < lf
      invariant i <= lf && Scanning(t, d, pos, pos, i, 0, -1)
    {
      if c0 == b1.data[i] {
        ScanTake(t, d, pos, pos, i, 0, -1);
        ScanCheck(t, d, pos, pos, i + 1, 1, i);
        return i;
      }
      ScanSkip(t, d, pos, pos, i, 0, -1);
      i := i + 1;
    }
    ScanFails(t, d, pos, pos, i, 0, -1);
    return BSTR_ERR;
  }

  /** binstr, the unrolled loop for two characters or more. */
  method Scan(b1: BString, pos: nat, b2: BString) returns (p: int)
    requires b1.Valid() && b2.Valid() && b2.slen >= 2 && pos + b2.slen <= b1.slen
    ensures p == FirstMatch(Exact, b1.Contents(), pos, b2.Contents())
  {
    ghost var t, d := b1.Contents(), b2.Contents();
    var i := pos;
    var d0, d1, ll := b2.data, b1.data, b2.slen;
    var c0 := d0[0];
    var c1 := c0;
    var j := 0;
    var lf := b1.slen - 1;
    var ii := -1;
    ghost var start := i;   // where the scan last restarted

    while true
      invariant Scanning(t, d, pos, start, i, j, ii) && j < ll && c1 == d[j]
      decreases b1.slen - start, 1, 0
    {
      while i < lf
        invariant Scanning(t, d, pos, start, i, j, ii) && j < ll && c1 == d[j]
        decreases b1.slen - start, b1.slen - i
      {
        if c1 != d1[i] {
          ScanSkip(t, d, pos, start, i, j, ii);
          if c1 != d1[1 + i] {
            ScanSkip(t, d, pos, start, i + 1, j, ii);
            i := i + 2;
            continue;
          }
          i := i + 1;
        }
        ScanTake(t, d, pos, start, i, j, ii);
        if j == 0 {
          ii := i;
        }
        j := j + 1;
        i := i + 1;
        if j < ll {
          c1 := d0[j];
          continue;
        }
        // label N0
        ScanCheck(t, d, pos, start, i, j, ii);
        if i == ii + j {
          return ii;
        }
        i := i - j;
        j := 0;
        c1 := c0;
        start := i;
      }
      // One text byte can be left over; the jump to N0 takes it as the last of the pattern.
      if i == lf && ll == j + 1 && c1 == d1[i] {
        ScanCheck(t, d, pos, start, i, j, ii);
        if i == ii + j {
          return ii;
        }
        i := i - j;
        j := 0;
        c1 := c0;
        start := i;
      } else {
        ScanFails(t, d, pos, start, i, j, ii);
        return BSTR_ERR;
      }
    }
  }

  /** binstrcaseless. */
  method BinstrCaseless(b1: BString, pos: int, b2: BString) returns (p: int)
    requires b1.Valid() && b2.Valid()
    ensures p == FirstMatch(Caseless, b1.Contents(), pos, b2.Contents())
  {
    ghost var t, d := b1.Contents(), b2.Contents();
    if b1.slen == pos {
      return if b2.slen == 0 then pos else BSTR_ERR;
    }
    if b1.slen < pos || pos < 0 {
      return BSTR_ERR;
    }
    if b2.slen == 0 {
      return pos;
    }
    var l := b1.slen - b2.slen + 1;
    if l <= pos {
      return BSTR_ERR;
    }
    if b1.data == b2.data && pos == 0 {
      assert MatchAt(Caseless, t, 0, d);
      return BSTR_OK;
    }
    p := CaselessScan(b1, pos, b2);
  }

  /** binstrcaseless, the loop. */
  method CaselessScan(b1: BString, pos: nat, b2: BString) returns (p: int)
    requires b1.Valid() && b2.Valid() && b2.slen > 0 && pos + b2.slen <= b1.slen
    ensures p == FirstMatch(Caseless, b1.Contents(), pos, b2.Contents())
  {
    hide FirstMatch;
    ghost var t, d := b1.Contents(), b2.Contents();
    var l := b1.slen - b2.slen + 1;
    var i, j := pos, 0;
    var d0, d1, ll := b2.data, b1.data, b2.slen;
    while true
      invariant pos <= i < l && 0 <= j < ll
      invariant forall x :: 0 <= x < j ==> Same(Caseless, d[x], t[i + x])
      invariant forall q :: pos <= q && MatchAt(Caseless, t, q, d) ==> q >= i
      decreases l - i, ll - j
    {
      if d0[j] == d1[i + j] || Downcase(d0[j]) == Downcase(d1[i + j]) {
        j := j + 1;
        if j >= ll {
          assert MatchAt(Caseless, t, i, d);
          FirstMatchIs(Caseless, t, pos, d, i);
          return i;
        }
      } else {
        assert !Same(Caseless, d[j], t[i + j]);
        i := i + 1;
        if i >= l {
          break;
        }
        j := 0;
      }
    }
    FirstMatchIs(Caseless, t, pos, d, BSTR_ERR);
    return BSTR_ERR;
  }

  /** A call through an `instr_fnptr`: one of the two searches, or any function that finds the first
      match for its own notion of sameness. */
  method Instr(k: Sameness, b1: BString, pos: int, b2: BString) returns (p: int)
    requires b1.Valid() && b2.Valid()
    ensures p == FirstMatch(k, b1.Contents(), pos, b2.Contents())
  {
    match k
    case Exact => p := Binstr(b1, pos, b2);
    case Caseless => p := BinstrCaseless(b1, pos, b2);
    case Other(_) => p := FirstMatch(k, b1.data[..b1.slen], pos, b2.data[..b2.slen]);
  }
}
