/** DArray: a growing and shrinking array of pointers, the storage under the hash map. */
module DArrays {

  datatype Option<+T> = None | Some(value: T)

  const DEFAULT_EXPAND_RATE: int := 300

  /** A pointer slot is an Option: None is NULL. */
  class DArray<T> {
    var end: int
    var max: int
    var contents: array<Option<T>>

    /** The array is well formed. */
    ghost predicate Valid()
      reads this
    {
      0 <= end <= max == contents.Length
    }

    /** There is room for the next push. Pushing and popping keep this; an array whose end was set to
        its capacity by hand, like the one of the buckets, does not have it. */
    ghost predicate Open()
      reads this
    {
      Valid() && end < max
    }

    ghost function Slots(): seq<Option<T>>
      requires Valid()
      reads this, contents
    {
      contents[..end]
    }

    /** The block DArray_create allocates; calloc leaves NULL in every slot. */
    constructor (initialMax: int)
      requires initialMax > 0
      ensures Open() && Slots() == [] && max == initialMax && fresh(contents)
      ensures forall i :: 0 <= i < max ==> contents[i] == None
    {
      end, max := 0, initialMax;
      contents := new Option<T>[initialMax](_ => None);
    }

    /** DArray_resize: realloc keeps what fits. Slots gained are uninitialised. A size that is not
        positive is stored before it is refused, and one below the end leaves the end where it was. */
    method Resize(newSize: int) returns (ret: int)
      requires Valid()
      modifies this`max, this`contents
      ensures max == newSize && ret == if newSize > 0 then 0 else -1
      ensures newSize <= 0 ==> contents == old(contents)
      ensures newSize > 0 ==> fresh(contents) && contents.Length == newSize
      ensures newSize > 0 ==> var n := if newSize < old(max) then newSize else old(max);
                              contents[..n] == old(contents[..n])
      ensures newSize > 0 && end <= newSize ==> Valid() && Slots() == old(Slots())
    {
      max := newSize;
      if !(max > 0) {
        return -1;
      }
      var x := new Option<T>[newSize];
      var n := if newSize < contents.Length then newSize else contents.Length;
      forall i | 0 <= i < n {
        x[i] := contents[i];
      }
      assert x[..n] == contents[..n];
      assert end <= n ==> x[..end] == contents[..end];
      contents := x;
      return 0;
    }

    /** DArray_expand. */
    method Expand() returns (ret: int)
      requires Valid()
      modifies this`max, this`contents
      ensures Open() && ret == 0 && fresh(contents) && max == old(max) + DEFAULT_EXPAND_RATE
      ensures Slots() == old(Slots())
    {
      ret := Resize(max + DEFAULT_EXPAND_RATE);
    }

    /** DArray_contract. */
    method Contract() returns (ret: int)
      requires Valid()
      modifies this`max, this`contents
      ensures Open() && ret == 0 && fresh(contents)
      ensures max == (if end < DEFAULT_EXPAND_RATE then DEFAULT_EXPAND_RATE else end) + 1
      ensures Slots() == old(Slots())
    {
      var newSize := if end < DEFAULT_EXPAND_RATE then DEFAULT_EXPAND_RATE else end;
      ret := Resize(newSize + 1);
    }

    /** DArray_push. */
    method Push(el: Option<T>) returns (ret: int)
      requires Open()
      modifies this, contents
      ensures Open() && ret == 0 && (contents == old(contents) || fresh(contents))
      ensures Slots() == old(Slots()) + [el]
      ensures max == if old(end) + 1 < old(max) then old(max) else old(max) + DEFAULT_EXPAND_RATE
    {
      contents[end] := el;
      end := end + 1;
      if end >= max {
        ret := Expand();
      } else {
        ret := 0;
      }
    }

    /** DArray_pop. */
    method Pop() returns (el: Option<T>)
      requires Open()
      modifies this, contents
      ensures Open() && (contents == old(contents) || fresh(contents))
      ensures if old(end) == 0 then el == None && Slots() == []
              else old(Slots()) == Slots() + [el]
      ensures max == if old(end) > 0 && end > DEFAULT_EXPAND_RATE && end % DEFAULT_EXPAND_RATE != 0 then end + 1
                     else old(max)
    {
      if end - 1 < 0 {
        return None;
      }
      ghost var was := Slots();
      el := Remove(end - 1);
      end := end - 1;
      assert was == Slots() + [el];
      if end > DEFAULT_EXPAND_RATE && end % DEFAULT_EXPAND_RATE != 0 {
        var ret := Contract();
      }
    }

    /** DArray_set. Setting past the end moves the end to the slot, not past it. */
    method Set(i: int, el: Option<T>)
      requires Valid() && 0 <= i
      modifies this`end, contents
      ensures Valid()
      ensures end == if old(end) < i < max then i else old(end)
      ensures contents[..] == if i < max then old(contents[..])[i := el] else old(contents[..])
    {
      if !(i < max) {
        return;
      }
      if i > end {
        end := i;
      }
      contents[i] := el;
    }

    /** DArray_get. */
    method Get(i: int) returns (el: Option<T>)
      requires Valid() && 0 <= i
      ensures el == if i < max then contents[i] else None
    {
      if !(i < max) {
        return None;
      }
      return contents[i];
    }

    /** DArray_remove. */
    method Remove(i: int) returns (el: Option<T>)
      requires Valid() && 0 <= i < max
      modifies contents
      ensures el == old(contents[i]) && contents[..] == old(contents[..])[i := None]
    {
      el := contents[i];
      contents[i] := None;
    }
  }

  /** DArray_create: NULL if the capacity is not positive. */
  method Create<T>(initialMax: int) returns (a: DArray?<T>)
    ensures a == null <==> initialMax <= 0
    ensures a != null ==> fresh(a) && fresh(a.contents) && a.Open() && a.Slots() == [] && a.max == initialMax
  {
    if initialMax <= 0 {
      return null;
    }
    a := new DArray<T>(initialMax);
  }

  // ---- histories ----

  datatype Op<T> = Push(el: Option<T>) | Pop | Set(i: nat, el: Option<T>)

  /** The live slots and the capacity. */
  datatype State<T> = State(slots: seq<Option<T>>, max: int)

  /** What one operation may do. A set between the end and the capacity makes slots live that hold
      anything; the live ones stay as they are. */
  ghost predicate Step<T>(s: State<T>, op: Op<T>, s': State<T>) {
    var n := |s.slots|;
    match op
    case Push(el) =>
      && s'.slots == s.slots + [el]
      && s'.max == if n + 1 < s.max then s.max else s.max + DEFAULT_EXPAND_RATE
    case Pop =>
      if n == 0 then s' == s
      else
        && s'.slots == s.slots[..n - 1]
        && s'.max == if n - 1 > DEFAULT_EXPAND_RATE && (n - 1) % DEFAULT_EXPAND_RATE != 0 then n else s.max
    case Set(i, el) =>
      && s'.max == s.max
      && if i < n then s'.slots == s.slots[i := el]
         else if i < s.max then s.slots <= s'.slots && |s'.slots| == i
         else s'.slots == s.slots
  }

  /** The states a history goes through. */
  ghost predicate Run<T>(ss: seq<State<T>>, ops: seq<Op<T>>) {
    |ss| == |ops| + 1 && forall k :: 0 <= k < |ops| ==> Step(ss[k], ops[k], ss[k + 1])
  }

  /** Any history of pushes, pops and sets, at any index, goes through such states. */
  method RunOps<T>(a: DArray<T>, ops: seq<Op<T>>) returns (ghost ss: seq<State<T>>)
    requires a.Open()
    modifies a, a.contents
    ensures a.Open() && (a.contents == old(a.contents) || fresh(a.contents))
    ensures Run(ss, ops) && ss[0] == old(State(a.Slots(), a.max)) && ss[|ops|] == State(a.Slots(), a.max)
  {
    ss := [State(a.Slots(), a.max)];
    var k := 0;
    while k < |ops|
      invariant 0 <= k <= |ops| && a.Open() && (a.contents == old(a.contents) || fresh(a.contents))
      invariant Run(ss, ops[..k]) && ss[0] == old(State(a.Slots(), a.max)) && ss[k] == State(a.Slots(), a.max)
    {
      Perform(a, ops[k]);
      assert ops[..k + 1] == ops[..k] + [ops[k]];
      ss := ss + [State(a.Slots(), a.max)];
      k := k + 1;
    }
    assert ops[..k] == ops;
  }

  method Perform<T>(a: DArray<T>, op: Op<T>)
    requires a.Open()
    modifies a, a.contents
    ensures a.Open() && (a.contents == old(a.contents) || fresh(a.contents))
    ensures Step(old(State(a.Slots(), a.max)), op, State(a.Slots(), a.max))
  {
    match op
    case Push(el) =>
      var ret := a.Push(el);
    case Pop =>
      var el := a.Pop();
      assert old(a.end) > 0 ==> old(a.Slots())[..old(a.end) - 1] == a.Slots();
    case Set(i, el) =>
      a.Set(i, el);
  }

  /** The room for one more is never lost. */
  lemma {:induction false} AlwaysOpen<T>(ss: seq<State<T>>, ops: seq<Op<T>>, k: nat)
    requires Run(ss, ops) && |ss[0].slots| < ss[0].max && k <= |ops|
    ensures |ss[k].slots| < ss[k].max
  {
    if k == 0 {
    } else {
      AlwaysOpen(ss, ops, k - 1);
      assert Step(ss[k - 1], ops[k - 1], ss[k]);
    }
  }

  /** A slot that stays live and is not set keeps its value through every expansion and contraction. */
  lemma {:induction false} SlotKept<T>(ss: seq<State<T>>, ops: seq<Op<T>>, j: nat, k: nat)
    requires Run(ss, ops) && k <= |ops|
    requires forall x :: 0 <= x <= k ==> j < |ss[x].slots|
    requires forall x :: 0 <= x < k ==> !(ops[x].Set? && ops[x].i == j)
    ensures ss[k].slots[j] == ss[0].slots[j]
  {
    if k == 0 {
    } else {
      SlotKept(ss, ops, j, k - 1);
      assert Step(ss[k - 1], ops[k - 1], ss[k]);
    }
  }

  /** The same operation on a plain list. */
  function Apply<T>(s: seq<Option<T>>, op: Op<T>): seq<Option<T>> {
    match op
    case Push(el) => s + [el]
    case Pop => if s == [] then [] else s[..|s| - 1]
    case Set(i, el) => if i < |s| then s[i := el] else s
  }

  function ApplyAll<T>(s: seq<Option<T>>, ops: seq<Op<T>>): seq<Option<T>> {
    if ops == [] then s else Apply(ApplyAll(s, ops[..|ops| - 1]), ops[|ops| - 1])
  }

  /** As long as nothing is set strictly between the end and the capacity, the array is a plain list. */
  lemma {:induction false} IsPlainList<T>(ss: seq<State<T>>, ops: seq<Op<T>>, k: nat)
    requires Run(ss, ops) && k <= |ops|
    requires forall x :: 0 <= x < k && ops[x].Set? ==> !(|ss[x].slots| < ops[x].i < ss[x].max)
    ensures ss[k].slots == ApplyAll(ss[0].slots, ops[..k])
  {
    if k == 0 {
    } else {
      IsPlainList(ss, ops, k - 1);
      assert ops[..k][..k - 1] == ops[..k - 1];
      assert Step(ss[k - 1], ops[k - 1], ss[k]);
    }
  }
}
