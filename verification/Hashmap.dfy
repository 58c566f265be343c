/** The multimap of the server: 100 buckets of nodes, found by hash and comparison. */
module Hashmaps {
  import opened Bytes
  import opened Compare
  import opened DArrays

  /** A key is a bstring nobody changes while it is in a map, so it is held by value. */
  type Key = seq<byte>

  const DEFAULT_NUMBER_OF_BUCKETS: int := 100

  datatype Binding<+V> = Binding(key: Key, data: V)

  // ---- the multimap as buckets of bindings ----

  /** What decides that a node is the one looked for. */
  datatype Policy = Policy(hash: Key -> nat, compare: (Key, Key) -> int) {
    predicate Hit(k: Key, key: Key) {
      hash(k) == hash(key) && compare(k, key) == 0
    }

    function BucketOf(key: Key): (b: int)
      ensures 0 <= b < DEFAULT_NUMBER_OF_BUCKETS
    {
      hash(key) % DEFAULT_NUMBER_OF_BUCKETS
    }
  }

  type View<V> = seq<seq<Binding<V>>>

  /** Every binding is in the bucket of its key. */
  ghost predicate WellPlaced<V>(view: View<V>, p: Policy) {
    && |view| == DEFAULT_NUMBER_OF_BUCKETS
    && forall b, i :: 0 <= b < |view| && 0 <= i < |view[b]| ==> p.BucketOf(view[b][i].key) == b
  }

  /** The bucket is the remainder of the hash. */
  lemma PlacedByHash<V>(view: View<V>, p: Policy, b: nat, i: nat)
    requires WellPlaced(view, p) && b < |view| && i < |view[b]|
    ensures |view| == 100 && p.hash(view[b][i].key) % 100 == b
  {
    assert p.BucketOf(view[b][i].key) == b;
  }

  /** The first hit in a bucket at or after i, or -1. */
  function FindIn<V>(bs: seq<Binding<V>>, p: Policy, key: Key, i: nat): (r: int)
    requires i <= |bs|
    ensures r == -1 || (i <= r < |bs| && p.Hit(bs[r].key, key))
    ensures forall j :: i <= j < |bs| && (r == -1 || j < r) ==> !p.Hit(bs[j].key, key)
    decreases |bs| - i
  {
    if i == |bs| then -1
    else if p.Hit(bs[i].key, key) then i
    else FindIn(bs, p, key, i + 1)
  }

  /** The binding a lookup finds. */
  function Lookup<V>(view: View<V>, p: Policy, key: Key): Option<Binding<V>>
    requires |view| == DEFAULT_NUMBER_OF_BUCKETS
  {
    var bs := view[p.BucketOf(key)];
    var i := FindIn(bs, p, key, 0);
    if i == -1 then None else Some(bs[i])
  }

  function Inserted<V>(view: View<V>, p: Policy, x: Binding<V>): View<V>
    requires |view| == DEFAULT_NUMBER_OF_BUCKETS
  {
    var b := p.BucketOf(x.key);
    view[b := view[b] + [x]]
  }

  /** A bucket without its entry i: the last entry takes its place. */
  function SwapRemove<V>(bs: seq<Binding<V>>, i: nat): (r: seq<Binding<V>>)
    requires i < |bs|
    ensures |r| == |bs| - 1
  {
    var last := |bs| - 1;
    if i == last then bs[..last] else bs[..last][i := bs[last]]
  }

  function Deleted<V>(view: View<V>, p: Policy, key: Key): View<V>
    requires |view| == DEFAULT_NUMBER_OF_BUCKETS
  {
    var b := p.BucketOf(key);
    var i := FindIn(view[b], p, key, 0);
    if i == -1 then view else view[b := SwapRemove(view[b], i)]
  }

  /** A lookup finds the first node that answers to the key in the bucket of the hash. */
  lemma LookupPlace<V>(view: View<V>, p: Policy, key: Key, i: nat)
    requires |view| == DEFAULT_NUMBER_OF_BUCKETS
    requires var bs := view[p.hash(key) % 100];
             && i <= |bs| && (i < |bs| ==> p.hash(bs[i].key) == p.hash(key) && p.compare(bs[i].key, key) == 0)
             && forall j :: 0 <= j < i ==> p.hash(bs[j].key) != p.hash(key) || p.compare(bs[j].key, key) != 0
    ensures var bs := view[p.hash(key) % 100];
            Lookup(view, p, key) == if i == |bs| then None else Some(bs[i])
  {
    var bs := view[p.hash(key) % 100];
    assert FindIn(bs, p, key, 0) == (if i == |bs| then -1 else i) by {
      assert i < |bs| ==> p.Hit(bs[i].key, key);
    }
  }

  /** An insertion appends to one bucket and leaves the others as they were. */
  lemma InsertedPlace<V>(view: View<V>, p: Policy, x: Binding<V>, b: nat)
    requires |view| == DEFAULT_NUMBER_OF_BUCKETS && b < |view|
    ensures Inserted(view, p, x)[b] == if p.hash(x.key) % 100 == b then view[b] + [x] else view[b]
  {
  }

  /** A deletion takes the first node that answers to the key out of its bucket, if there is one, puts the
      last node there unless it is that node, and leaves the rest as it was. */
  lemma DeletedPlace<V>(view: View<V>, p: Policy, key: Key, i: nat, b: nat)
    requires |view| == DEFAULT_NUMBER_OF_BUCKETS && b < |view|
    requires var bs := view[p.hash(key) % 100];
             && i <= |bs| && (i < |bs| ==> p.hash(bs[i].key) == p.hash(key) && p.compare(bs[i].key, key) == 0)
             && forall j :: 0 <= j < i ==> p.hash(bs[j].key) != p.hash(key) || p.compare(bs[j].key, key) != 0
    ensures var bs, cs := view[b], Deleted(view, p, key)[b];
            if b != p.hash(key) % 100 || i == |bs| then cs == bs
            else
              && |cs| == |bs| - 1
              && forall j :: 0 <= j < |cs| ==> cs[j] == if j == i then bs[|bs| - 1] else bs[j]
  {
    var bs := view[p.hash(key) % 100];
    var f := FindIn(bs, p, key, 0);
    assert f == if i == |bs| then -1 else i by {
      assert i < |bs| ==> p.Hit(bs[i].key, key);
    }
  }

  // ---- the multimap as a multiset of bindings ----

  ghost function Live<V>(view: View<V>): multiset<Binding<V>> {
    if view == [] then multiset{} else multiset(view[0]) + Live(view[1..])
  }

  lemma ExchangeInSum<T>(a: multiset<T>, b: multiset<T>, x: multiset<T>, y: multiset<T>)
    requires x <= b
    ensures x <= a + b && a + (b - x + y) == a + b - x + y
  {
  }

  lemma {:induction false} LiveUpdate<V>(view: View<V>, b: nat, bs: seq<Binding<V>>)
    requires b < |view|
    ensures multiset(view[b]) <= Live(view)
    ensures Live(view[b := bs]) == Live(view) - multiset(view[b]) + multiset(bs)
  {
    if b == 0 {
      assert view[b := bs][1..] == view[1..];
    } else {
      LiveUpdate(view[1..], b - 1, bs);
      assert view[b := bs][1..] == view[1..][b - 1 := bs];
      ExchangeInSum(multiset(view[0]), Live(view[1..]), multiset(view[b]), multiset(bs));
    }
  }

  lemma {:induction false} LiveMember<V>(view: View<V>, x: Binding<V>)
    ensures x in Live(view) <==> exists b :: 0 <= b < |view| && x in view[b]
  {
    if view == [] {
    } else {
      LiveMember(view[1..], x);
      if x in Live(view[1..]) {
        var b :| 0 <= b < |view[1..]| && x in view[1..][b];
        assert x in view[b + 1];
      }
      if c :| 0 <= c < |view| && x in view[c] {
        if c > 0 {
          assert x in view[1..][c - 1];
        }
      }
    }
  }

  lemma SwapRemoveTakesOne<V>(bs: seq<Binding<V>>, i: nat)
    requires i < |bs|
    ensures multiset(SwapRemove(bs, i)) == multiset(bs) - multiset{bs[i]}
  {
    var last := |bs| - 1;
    assert bs == bs[..last] + [bs[last]];
    if i < last {
      var init := bs[..last];
      assert init == init[..i] + [init[i]] + init[i + 1..];
      assert init[i := bs[last]] == init[..i] + [bs[last]] + init[i + 1..];
    }
  }

  /** A lookup finds something exactly when a live binding answers to the key, and what it finds is one. */
  lemma LookupFindsLive<V>(view: View<V>, p: Policy, key: Key)
    requires WellPlaced(view, p)
    ensures Lookup(view, p, key) == None <==> forall x :: x in Live(view) ==> !p.Hit(x.key, key)
    ensures Lookup(view, p, key).Some? ==>
              Lookup(view, p, key).value in Live(view) && p.Hit(Lookup(view, p, key).value.key, key)
  {
    var b := p.BucketOf(key);
    var i := FindIn(view[b], p, key, 0);
    if i != -1 {
      LiveMember(view, view[b][i]);
    }
    forall x | x in Live(view) && p.Hit(x.key, key) ensures i != -1 {
      LiveMember(view, x);
      var c :| 0 <= c < |view| && x in view[c];
      var j :| 0 <= j < |view[c]| && view[c][j] == x;
      assert p.BucketOf(view[c][j].key) == c;
    }
  }

  lemma InsertAddsOne<V>(view: View<V>, p: Policy, x: Binding<V>)
    requires WellPlaced(view, p)
    ensures WellPlaced(Inserted(view, p, x), p)
    ensures Live(Inserted(view, p, x)) == Live(view) + multiset{x}
  {
    var b := p.BucketOf(x.key);
    LiveUpdate(view, b, view[b] + [x]);
    AddTo(Live(view), multiset(view[b]), x);
    InsertStays(view, p, b, x);
  }

  lemma AddTo<T>(all: multiset<T>, part: multiset<T>, x: T)
    requires part <= all
    ensures all - part + (part + multiset{x}) == all + multiset{x}
  {
  }

  lemma InsertStays<V>(view: View<V>, p: Policy, b: nat, x: Binding<V>)
    requires WellPlaced(view, p) && b == p.BucketOf(x.key)
    ensures WellPlaced(view[b := view[b] + [x]], p)
  {
  }

  lemma TakeOut<T>(all: multiset<T>, part: multiset<T>, x: T)
    requires part <= all && x in part
    ensures all - part + (part - multiset{x}) == all - multiset{x} && x in all
  {
  }

  lemma SwapRemoveStays<V>(view: View<V>, p: Policy, b: nat, i: nat)
    requires WellPlaced(view, p) && b < |view| && i < |view[b]|
    ensures WellPlaced(view[b := SwapRemove(view[b], i)], p)
  {
    var bs := SwapRemove(view[b], i);
    forall j | 0 <= j < |bs| ensures p.BucketOf(bs[j].key) == b {
      assert bs[j] == view[b][j] || bs[j] == view[b][|view[b]| - 1];
    }
  }

  /** Deletion takes away the binding a lookup would find, once, and nothing else. */
  lemma DeleteTakesTheFound<V>(view: View<V>, p: Policy, key: Key)
    requires WellPlaced(view, p)
    ensures WellPlaced(Deleted(view, p, key), p)
    ensures match Lookup(view, p, key)
            case None => Deleted(view, p, key) == view
            case Some(x) => x in Live(view) && Live(Deleted(view, p, key)) == Live(view) - multiset{x}
  {
    var b := p.BucketOf(key);
    var i := FindIn(view[b], p, key, 0);
    if i != -1 {
      var bs := SwapRemove(view[b], i);
      SwapRemoveTakesOne(view[b], i);
      LiveUpdate(view, b, bs);
      assert view[b][i] in multiset(view[b]);
      TakeOut(Live(view), multiset(view[b]), view[b][i]);
      SwapRemoveStays(view, p, b, i);
    }
  }

  // ---- histories of sets alone ----

  function InsertedAll<V>(view: View<V>, p: Policy, xs: seq<Binding<V>>): (r: View<V>)
    requires |view| == DEFAULT_NUMBER_OF_BUCKETS
    ensures |r| == DEFAULT_NUMBER_OF_BUCKETS
    decreases |xs|
  {
    if xs == [] then view else InsertedAll(Inserted(view, p, xs[0]), p, xs[1..])
  }

  /** The empty map. */
  function EmptyView<V>(): (v: View<V>)
    ensures |v| == DEFAULT_NUMBER_OF_BUCKETS && forall b :: 0 <= b < |v| ==> v[b] == []
  {
    seq(DEFAULT_NUMBER_OF_BUCKETS, _ => [])
  }

  /** The first binding of a history that answers to the key. */
  function FirstSet<V>(xs: seq<Binding<V>>, p: Policy, key: Key): Option<Binding<V>> {
    if xs == [] then None
    else if p.Hit(xs[0].key, key) then Some(xs[0])
    else FirstSet(xs[1..], p, key)
  }

  lemma {:induction false} LookupAfterSets<V>(view: View<V>, p: Policy, xs: seq<Binding<V>>, key: Key)
    requires |view| == DEFAULT_NUMBER_OF_BUCKETS
    ensures Lookup(InsertedAll(view, p, xs), p, key) ==
            if Lookup(view, p, key).Some? then Lookup(view, p, key) else FirstSet(xs, p, key)
    decreases |xs|
  {
    if xs == [] {
    } else {
      LookupAfterSets(Inserted(view, p, xs[0]), p, xs[1..], key);
      LookupAfterOne(view, p, xs[0], key);
    }
  }

  /** A binding is found only if there was none before it. */
  lemma LookupAfterOne<V>(view: View<V>, p: Policy, x: Binding<V>, key: Key)
    requires |view| == DEFAULT_NUMBER_OF_BUCKETS
    ensures Lookup(Inserted(view, p, x), p, key) ==
            if Lookup(view, p, key).Some? then Lookup(view, p, key)
            else if p.Hit(x.key, key) then Some(x) else None
  {
    var b := p.BucketOf(key);
    var bs := view[b];
    var cs := Inserted(view, p, x)[b];
    var i, j := FindIn(bs, p, key, 0), FindIn(cs, p, key, 0);
    assert forall k :: 0 <= k < |bs| ==> cs[k] == bs[k];
    assert cs == if p.BucketOf(x.key) == b then bs + [x] else bs;
    if i != -1 {
      assert p.Hit(cs[i].key, key);
    } else if p.Hit(x.key, key) {
      assert p.Hit(cs[|bs|].key, key);
    }
  }

  /** In every history of sets alone, a lookup finds the first binding set for the key. */
  lemma FirstSetWins<V>(p: Policy, xs: seq<Binding<V>>, key: Key)
    ensures Lookup(InsertedAll(EmptyView<V>(), p, xs), p, key) == FirstSet(xs, p, key)
  {
    LookupAfterSets(EmptyView<V>(), p, xs, key);
  }

  /** With the default comparison a key without NUL is answered only by itself, whatever the hash. */
  lemma DefaultHit(hash: Key -> nat, k: Key, key: Key)
    requires NulFree(key)
    ensures Policy(hash, (a, b) => StrCmp(a, b, 0)).Hit(k, key) <==> k == key
  {
    StrCmpNulFree(k, key);
  }

  // ---- the map in memory ----

  /** struct HashmapNode. Its fields are set once. */
  class HashmapNode<V> {
    const key: Key
    const data: V
    const hash: nat

    /** Hashmap_node_create. */
    constructor (hash: nat, key: Key, data: V)
      ensures this.hash == hash && this.key == key && this.data == data
    {
      this.hash, this.key, this.data := hash, key, data;
    }

    ghost function AsBinding(): Binding<V> {
      Binding(key, data)
    }
  }

  type Bucket<V> = DArray<HashmapNode<V>>

  /** The nodes of the bucket d are the bindings bs, each with the hash of its key. */
  ghost predicate Holds<V>(d: Bucket<V>, bs: seq<Binding<V>>, p: Policy)
    reads d, d.contents
  {
    && d.Open() && d.end == |bs|
    && forall i :: 0 <= i < d.end ==>
         && d.contents[i].Some? && d.contents[i].value.AsBinding() == bs[i]
         && d.contents[i].value.hash == p.hash(bs[i].key)
  }

  lemma HoldsNothing<V>(d: Bucket<V>, p: Policy)
    requires d.Open() && d.Slots() == []
    ensures Holds(d, [], p)
  {
  }

  /** The push of Hashmap_set. */
  method PushNode<V>(d: Bucket<V>, node: HashmapNode<V>, ghost bs: seq<Binding<V>>, ghost p: Policy)
    requires Holds(d, bs, p) && node.hash == p.hash(node.key)
    modifies d, d.contents
    ensures d.contents == old(d.contents) || fresh(d.contents)
    ensures Holds(d, bs + [node.AsBinding()], p)
  {
    ghost var slots := d.Slots();
    var ret := d.Push(Some(node));
    assert forall i :: 0 <= i < |slots| ==> d.Slots()[i] == slots[i];
  }

  /** The pop and the set of Hashmap_delete: the last node of the bucket takes the place of node i
      unless it is that node. */
  method DropNode<V>(d: Bucket<V>, i: int, ghost bs: seq<Binding<V>>, ghost p: Policy)
    requires Holds(d, bs, p) && 0 <= i < |bs|
    modifies d, d.contents
    ensures d.contents == old(d.contents) || fresh(d.contents)
    ensures Holds(d, SwapRemove(bs, i), p)
  {
    ghost var slots := d.Slots();
    var node := d.Get(i);
    var ending := d.Pop();
    assert forall j :: 0 <= j < d.end ==> d.Slots()[j] == slots[j];
    assert ending == slots[|slots| - 1];
    if ending != node {
      d.Set(i, ending);
    }
  }

  class Hashmap<V> {
    const policy: Policy
    const buckets: DArray<Bucket<V>>
    ghost var view: View<V>
    ghost var Repr: set<object>

    /** The objects of one bucket. */
    ghost function Footprint(d: Bucket<V>): set<object>
      reads d
    {
      {d as object, d.contents as object}
    }

    ghost predicate Valid()
      reads this, Repr
    {
      && this in Repr && buckets in Repr && buckets.contents in Repr
      && buckets as object != this && buckets.contents as object != this
      && |view| == DEFAULT_NUMBER_OF_BUCKETS && WellPlaced(view, policy)
      && buckets.Valid() && buckets.end == buckets.max == DEFAULT_NUMBER_OF_BUCKETS
      && (forall b :: 0 <= b < DEFAULT_NUMBER_OF_BUCKETS ==>
            match buckets.contents[b]
            case None => view[b] == []
            case Some(d) =>
              && d in Repr && d.contents in Repr
              && {this as object, buckets as object, buckets.contents as object} !! Footprint(d)
              && Holds(d, view[b], policy))
      && (forall b, c | 0 <= b < c < DEFAULT_NUMBER_OF_BUCKETS
                        && buckets.contents[b].Some? && buckets.contents[c].Some? ::
            Footprint(buckets.contents[b].value) !! Footprint(buckets.contents[c].value))
    }

    /** Hashmap_create. The end of the bucket array is set to its capacity by hand. */
    constructor (policy: Policy)
      ensures Valid() && fresh(Repr) && view == EmptyView<V>() && this.policy == policy
    {
      this.policy := policy;
      buckets := new DArray<Bucket<V>>(DEFAULT_NUMBER_OF_BUCKETS);
      view := EmptyView();
      new;
      buckets.end := buckets.max;
      Repr := {this, buckets, buckets.contents};
    }

    /** Hashmap_find_bucket without creation. */
    method FindBucket(key: Key) returns (bucket: Option<Bucket<V>>, h: nat)
      requires Valid()
      ensures h == policy.hash(key)
      ensures bucket == buckets.contents[policy.BucketOf(key)] == buckets.contents[policy.hash(key) % 100]
    {
      h := policy.hash(key);
      var n := h % DEFAULT_NUMBER_OF_BUCKETS;
      bucket := buckets.Get(n);
    }

    /** Hashmap_get_node. */
    method GetNode(h: nat, bucket: Bucket<V>, key: Key) returns (i: int)
      requires Valid() && h == policy.hash(key) && buckets.contents[policy.BucketOf(key)] == Some(bucket)
      ensures i == FindIn(view[policy.BucketOf(key)], policy, key, 0)
      ensures var bs := view[policy.hash(key) % 100];
              && -1 <= i < |bs|
              && (i != -1 ==> policy.hash(bs[i].key) == policy.hash(key) && policy.compare(bs[i].key, key) == 0)
              && forall j :: 0 <= j < |bs| && (i == -1 || j < i) ==>
                   policy.hash(bs[j].key) != policy.hash(key) || policy.compare(bs[j].key, key) != 0
    {
      ghost var bs := view[policy.BucketOf(key)];
      i := 0;
      while i < bucket.end
        invariant 0 <= i <= bucket.end == |bs|
        invariant FindIn(bs, policy, key, 0) == FindIn(bs, policy, key, i)
      {
        var node := bucket.Get(i);
        assert node.value.AsBinding() == bs[i];
        if node.value.hash == h && policy.compare(node.value.key, key) == 0 {
          return;
        }
        i := i + 1;
      }
      return -1;
    }

    /** Hashmap_get. */
    method Get(key: Key) returns (r: Option<V>)
      requires Valid()
      ensures r == match Lookup(view, policy, key) case None => None case Some(x) => Some(x.data)
    {
      var bucket, h := FindBucket(key);
      if bucket == None {
        return None;
      }
      var i := GetNode(h, bucket.value, key);
      if i == -1 {
        return None;
      }
      var node := bucket.value.Get(i);
      assert node.value.AsBinding() == view[policy.BucketOf(key)][i];
      return Some(node.value.data);
    }

    /** Hashmap_find_bucket with creation. */
    method MakeBucket(key: Key) returns (bucket: Bucket<V>, h: nat)
      requires Valid()
      modifies Repr
      ensures Valid() && fresh(Repr - old(Repr)) && view == old(view)
      ensures h == policy.hash(key) && buckets.contents[policy.BucketOf(key)] == Some(bucket)
      ensures buckets.contents[policy.hash(key) % 100] == Some(bucket)
    {
      hide Holds, WellPlaced;
      h := policy.hash(key);
      var n := h % DEFAULT_NUMBER_OF_BUCKETS;
      var found := buckets.Get(n);
      if found == None {
        bucket := new DArray<HashmapNode<V>>(DEFAULT_NUMBER_OF_BUCKETS);
        HoldsNothing(bucket, policy);
        buckets.Set(n, Some(bucket));
        Repr := Repr + Footprint(bucket);
      } else {
        bucket := found.value;
      }
    }

    /** Hashmap_set: the binding is added even if the key is there already. */
    method Set(key: Key, data: V) returns (ret: int)
      requires Valid()
      modifies Repr
      ensures Valid() && fresh(Repr - old(Repr))
      ensures ret == 0 && view == Inserted(old(view), policy, Binding(key, data))
      ensures var b := policy.hash(key) % 100;
              view == old(view)[b := old(view)[b] + [Binding(key, data)]]
      ensures Live(view) == Live(old(view)) + multiset{Binding(key, data)}
    {
      hide WellPlaced, Live, Holds;
      InsertAddsOne(view, policy, Binding(key, data));
      var bucket, h := MakeBucket(key);
      var node := new HashmapNode(h, key, data);
      StoreNode(bucket, node);
      ret := 0;
    }

    method StoreNode(bucket: Bucket<V>, node: HashmapNode<V>)
      requires Valid() && node.hash == policy.hash(node.key)
      requires buckets.contents[policy.BucketOf(node.key)] == Some(bucket)
      requires WellPlaced(Inserted(view, policy, node.AsBinding()), policy)
      modifies Repr
      ensures Valid() && fresh(Repr - old(Repr))
      ensures view == Inserted(old(view), policy, node.AsBinding())
    {
      hide WellPlaced, Holds;
      PushNode(bucket, node, view[policy.BucketOf(node.key)], policy);
      view := Inserted(view, policy, node.AsBinding());
      Repr := Repr + Footprint(bucket);
    }

    /** Hashmap_delete: the binding that Get would find goes. */
    method Delete(key: Key) returns (r: Option<V>)
      requires Valid()
      modifies Repr
      ensures Valid() && fresh(Repr - old(Repr))
      ensures view == Deleted(old(view), policy, key)
      ensures match Lookup(old(view), policy, key)
              case None => r == None && Live(view) == Live(old(view))
              case Some(x) => r == Some(x.data) && Live(view) == Live(old(view)) - multiset{x}
    {
      hide WellPlaced, Live, SwapRemove, FindIn;
      DeleteTakesTheFound(view, policy, key);
      var found, h := FindBucket(key);
      if found == None {
        return None;
      }
      var i := GetNode(h, found.value, key);
      if i == -1 {
        return None;
      }
      var node := found.value.Get(i);
      assert node.value.AsBinding() == view[policy.BucketOf(key)][i];
      r := Some(node.value.data);
      RemoveNode(found.value, policy.BucketOf(key), i);
    }

    method RemoveNode(bucket: Bucket<V>, ghost b: int, i: int)
      requires Valid() && 0 <= b < DEFAULT_NUMBER_OF_BUCKETS && buckets.contents[b] == Some(bucket)
      requires 0 <= i < |view[b]|
      requires WellPlaced(view[b := SwapRemove(view[b], i)], policy)
      modifies Repr
      ensures Valid() && fresh(Repr - old(Repr))
      ensures view == old(view)[b := SwapRemove(old(view)[b], i)]
    {
      hide WellPlaced, Holds, SwapRemove;
      DropNode(bucket, i, view[b], policy);
      view := view[b := SwapRemove(view[b], i)];
      Repr := Repr + Footprint(bucket);
    }
  }
}
