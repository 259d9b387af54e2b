/** A chaining hash table as a sequence of buckets, and the map it stands for. */
module Buckets {
  import opened Common

  /** A key and its data; None is the null pointer. */
  datatype Binding<+V> = Binding(key: string, data: Option<V>)

  type Chain<+V> = seq<Binding<V>>

  // ------------------------------------------------------------ one chain

  /** The data of the first binding of a key. */
  function Find<V>(c: Chain<V>, key: string): Option<Option<V>> {
    if c == [] then None
    else if c[0].key == key then Some(c[0].data)
    else Find(c[1..], key)
  }

  function Without<V>(c: Chain<V>, key: string): Chain<V> {
    if c == [] then []
    else if c[0].key == key then c[1..]
    else [c[0]] + Without(c[1..], key)
  }

  predicate KeysDiffer<V>(c: Chain<V>) {
    forall i, j | 0 <= i < j < |c| :: c[i].key != c[j].key
  }

  /** The map a chain stands for: an earlier binding hides a later one. */
  ghost function ToMap<V>(c: Chain<V>): map<string, Option<V>> {
    if c == [] then map[] else ToMap(c[1..])[c[0].key := c[0].data]
  }

  lemma {:induction false} ToMapFinds<V>(c: Chain<V>, key: string)
    ensures Find(c, key) == if key in ToMap(c) then Some(ToMap(c)[key]) else None
    ensures key in ToMap(c) <==> exists i :: 0 <= i < |c| && c[i].key == key
  {
    if c != [] {
      ToMapFinds(c[1..], key);
      assert c[0].key == key || (forall i | 1 <= i < |c| :: c[i] == c[1..][i - 1]);
    }
  }

  lemma {:induction false} ToMapConcat<V>(a: Chain<V>, b: Chain<V>)
    ensures ToMap(a + b) == ToMap(b) + ToMap(a)
  {
    if a == [] {
      assert a + b == b;
    } else {
      ToMapConcat(a[1..], b);
      assert (a + b)[1..] == a[1..] + b;
    }
  }

  /** A chain has as many bindings as its map exactly when no key occurs twice. */
  lemma {:induction false} MapSize<V>(c: Chain<V>)
    ensures |ToMap(c)| <= |c|
    ensures |ToMap(c)| == |c| <==> KeysDiffer(c)
  {
    if c != [] {
      var rest := ToMap(c[1..]);
      MapSize(c[1..]);
      ToMapFinds(c[1..], c[0].key);
      if c[0].key in rest {
        assert ToMap(c).Keys == rest.Keys;
        var i :| 0 <= i < |c| - 1 && c[1..][i].key == c[0].key;
        assert c[i + 1].key == c[0].key;
      } else {
        assert ToMap(c).Keys == rest.Keys + {c[0].key};
        forall j | 1 <= j < |c| ensures c[j].key != c[0].key {
          assert c[j] == c[1..][j - 1];
        }
        assert forall i | 0 <= i < |c| - 1 :: c[1..][i] == c[i + 1];
      }
    }
  }

  lemma {:induction false} WithoutRemoves<V>(c: Chain<V>, key: string)
    requires KeysDiffer(c)
    ensures ToMap(Without(c, key)) == ToMap(c) - {key}
    ensures |Without(c, key)| == |c| - if key in ToMap(c) then 1 else 0
  {
    if c != [] {
      WithoutRemoves(c[1..], key);
      ToMapFinds(c[1..], c[0].key);
      assert forall i | 0 <= i < |c| - 1 :: c[1..][i] == c[i + 1];
    }
  }

  // ------------------------------------------------------------ all chains

  function Flat<V>(bs: seq<Chain<V>>): Chain<V> {
    if bs == [] then [] else bs[0] + Flat(bs[1..])
  }

  lemma {:induction false} FlatSplit<V>(bs: seq<Chain<V>>, h: nat)
    requires h < |bs|
    ensures Flat(bs) == Flat(bs[..h]) + bs[h] + Flat(bs[h + 1..])
  {
    if h > 0 {
      FlatSplit(bs[1..], h - 1);
      assert bs[1..][..h - 1] == bs[..h][1..];
      assert bs[1..][h..] == bs[h + 1..];
    }
  }

  /** Every binding is in the bucket its key hashes to. */
  ghost predicate Placed<V>(bs: seq<Chain<V>>, hash: string -> nat) {
    |bs| > 0 && forall h, i | 0 <= h < |bs| && 0 <= i < |bs[h]| :: hash(bs[h][i].key) % |bs| == h
  }

  ghost predicate Proper<V>(bs: seq<Chain<V>>, hash: string -> nat) {
    Placed(bs, hash) && forall h | 0 <= h < |bs| :: KeysDiffer(bs[h])
  }

  ghost function Contents<V>(bs: seq<Chain<V>>): map<string, Option<V>> {
    ToMap(Flat(bs))
  }

  // A key is only in its own bucket.
  lemma {:induction false} Elsewhere<V>(bs: seq<Chain<V>>, key: string)
    requires forall h, i | 0 <= h < |bs| && 0 <= i < |bs[h]| :: bs[h][i].key != key
    ensures key !in ToMap(Flat(bs))
  {
    if bs != [] {
      assert forall h | 0 <= h < |bs| - 1 :: bs[1..][h] == bs[h + 1];
      Elsewhere(bs[1..], key);
      ToMapConcat(bs[0], Flat(bs[1..]));
      ToMapFinds(bs[0], key);
    }
  }

  lemma ContentsSplit<V>(bs: seq<Chain<V>>, h: nat)
    requires h < |bs|
    ensures Contents(bs) == Contents(bs[h + 1..]) + ToMap(bs[h]) + Contents(bs[..h])
  {
    FlatSplit(bs, h);
    ToMapConcat(Flat(bs[..h]) + bs[h], Flat(bs[h + 1..]));
    ToMapConcat(Flat(bs[..h]), bs[h]);
  }

  lemma OnlyInItsBucket<V>(bs: seq<Chain<V>>, hash: string -> nat, key: string)
    requires Placed(bs, hash)
    ensures var h := hash(key) % |bs|;
            key !in Contents(bs[..h]) && key !in Contents(bs[h + 1..])
  {
    var h := hash(key) % |bs|;
    var late := bs[h + 1..];
    assert forall k | 0 <= k < |late| :: late[k] == bs[k + h + 1];
    Elsewhere(bs[..h], key);
    Elsewhere(late, key);
  }

  /** Looking into one bucket is looking into the map. */
  lemma GetAgrees<V>(bs: seq<Chain<V>>, hash: string -> nat, key: string)
    requires Placed(bs, hash)
    ensures Find(bs[hash(key) % |bs|], key)
            == if key in Contents(bs) then Some(Contents(bs)[key]) else None
  {
    var h := hash(key) % |bs|;
    ContentsSplit(bs, h);
    OnlyInItsBucket(bs, hash, key);
    ToMapFinds(bs[h], key);
  }

  // Replacing one chain replaces its part of the map.
  lemma ContentsUpdate<V>(bs: seq<Chain<V>>, h: nat, c: Chain<V>)
    requires h < |bs|
    ensures Contents(bs[h := c]) == Contents(bs[h + 1..]) + ToMap(c) + Contents(bs[..h])
  {
    ContentsSplit(bs[h := c], h);
    assert bs[h := c][..h] == bs[..h] && bs[h := c][h + 1..] == bs[h + 1..];
  }

  lemma MapMiddle<K, W>(a: map<K, W>, m: map<K, W>, z: map<K, W>, k: K, w: W)
    requires k !in a && k !in z
    ensures a + m[k := w] + z == (a + m + z)[k := w]
    ensures a + (m - {k}) + z == (a + m + z) - {k}
  {}

  // A chain in bucket h whose keys belong there.
  lemma ReplaceChain<V>(bs: seq<Chain<V>>, hash: string -> nat, h: nat, c: Chain<V>)
    requires Placed(bs, hash) && h < |bs| && forall i | 0 <= i < |c| :: hash(c[i].key) % |bs| == h
    ensures Placed(bs[h := c], hash)
    ensures Proper(bs, hash) ==> (Proper(bs[h := c], hash) <==> KeysDiffer(c))
  {
    assert bs[h := c][h] == c;
  }

  /** A put in front of the right chain binds the key; no key occurs twice afterwards
      exactly when the key was not bound before. */
  lemma PutAgrees<V>(bs: seq<Chain<V>>, hash: string -> nat, b: Binding<V>)
    requires Proper(bs, hash)
    ensures var h := hash(b.key) % |bs|;
            var after := bs[h := [b] + bs[h]];
            && Placed(after, hash)
            && Contents(after) == Contents(bs)[b.key := b.data]
            && (Proper(after, hash) <==> b.key !in Contents(bs))
  {
    var h := hash(b.key) % |bs|;
    ContentsSplit(bs, h);
    ContentsUpdate(bs, h, [b] + bs[h]);
    OnlyInItsBucket(bs, hash, b.key);
    assert ([b] + bs[h])[1..] == bs[h];
    MapMiddle(Contents(bs[h + 1..]), ToMap(bs[h]), Contents(bs[..h]), b.key, b.data);
    ReplaceChain(bs, hash, h, [b] + bs[h]);
    KeysDifferInFront(b, bs[h]);
  }

  lemma KeysDifferInFront<V>(b: Binding<V>, c: Chain<V>)
    requires KeysDiffer(c)
    ensures KeysDiffer([b] + c) <==> b.key !in ToMap(c)
  {
    var all := [b] + c;
    ToMapFinds(c, b.key);
    if b.key in ToMap(c) {
      var i :| 0 <= i < |c| && c[i].key == b.key;
      assert all[0].key == all[i + 1].key;
    }
  }

  /** A remove takes the key out of the map. */
  lemma RemoveAgrees<V>(bs: seq<Chain<V>>, hash: string -> nat, key: string)
    requires Proper(bs, hash)
    ensures var h := hash(key) % |bs|;
            var after := bs[h := Without(bs[h], key)];
            Proper(after, hash) && Contents(after) == Contents(bs) - {key}
  {
    var h := hash(key) % |bs|;
    var c := Without(bs[h], key);
    ContentsSplit(bs, h);
    ContentsUpdate(bs, h, c);
    OnlyInItsBucket(bs, hash, key);
    WithoutRemoves(bs[h], key);
    MapMiddle(Contents(bs[h + 1..]), ToMap(bs[h]), Contents(bs[..h]), key, None);
    WithoutSelects(bs[h], key);
    forall i | 0 <= i < |c| ensures hash(c[i].key) % |bs| == h {
      assert c[i] in bs[h];
    }
    ReplaceChain(bs, hash, h, c);
  }

  lemma {:induction false} WithoutSelects<V>(c: Chain<V>, key: string)
    ensures forall b <- Without(c, key) :: b in c
    ensures KeysDiffer(c) ==> KeysDiffer(Without(c, key))
  {
    if c != [] && c[0].key != key {
      WithoutSelects(c[1..], key);
      if KeysDiffer(c) {
        assert forall i | 0 <= i < |c| - 1 :: c[1..][i] == c[i + 1];
        var w := Without(c[1..], key);
        forall j | 0 <= j < |w| ensures w[j].key != c[0].key {
          assert w[j] in c[1..];
        }
      }
    }
  }

  /** With keys in their buckets, the number of bindings is the number of keys exactly
      when no chain has a key twice. */
  lemma CountIsKeys<V>(bs: seq<Chain<V>>, hash: string -> nat)
    requires Placed(bs, hash)
    ensures |Flat(bs)| == |Contents(bs)| <==> Proper(bs, hash)
  {
    MapSize(Flat(bs));
    FlatKeysDiffer(bs, hash, |bs|);
    assert bs[..|bs|] == bs;
  }

  lemma {:induction false} FlatKeysDiffer<V>(bs: seq<Chain<V>>, hash: string -> nat, n: nat)
    requires Placed(bs, hash) && n <= |bs|
    ensures KeysDiffer(Flat(bs[..n])) <==> forall h | 0 <= h < n :: KeysDiffer(bs[h])
    ensures forall b <- Flat(bs[..n]) :: hash(b.key) % |bs| < n
  {
    if n > 0 {
      FlatKeysDiffer(bs, hash, n - 1);
      var before, last := Flat(bs[..n - 1]), bs[n - 1];
      FlatSplit(bs[..n], n - 1);
      assert bs[..n][..n - 1] == bs[..n - 1] && bs[..n][n..] == [];
      assert Flat(bs[..n]) == before + last;
      assert forall i | 0 <= i < |before| :: before[i] in before;
      if KeysDiffer(before + last) {
        assert forall i | 0 <= i < |before| :: (before + last)[i] == before[i];
        assert forall i | 0 <= i < |last| :: (before + last)[|before| + i] == last[i];
      }
    }
  }

  lemma FlatLength<V>(bs: seq<Chain<V>>, h: nat, c: Chain<V>)
    requires h < |bs|
    ensures |Flat(bs[h := c])| == |Flat(bs)| - |bs[h]| + |c|
  {
    FlatSplit(bs, h);
    FlatSplit(bs[h := c], h);
    assert bs[h := c][..h] == bs[..h] && bs[h := c][h + 1..] == bs[h + 1..];
  }

  // ------------------------------------------------------------ the operations

  /** What ht_get reports: no binding and a null binding look alike. */
  function Reported<V>(found: Option<Option<V>>): Option<V> {
    match found
    case None => None
    case Some(data) => data
  }

  function Got<V>(bs: seq<Chain<V>>, hash: string -> nat, key: string): Option<V>
    requires |bs| > 0
  {
    Reported(Find(bs[hash(key) % |bs|], key))
  }

  /** ht_put refuses a key only when its data is not null. */
  function AfterPut<V>(bs: seq<Chain<V>>, hash: string -> nat, key: string, data: Option<V>): seq<Chain<V>>
    requires |bs| > 0
  {
    var h := hash(key) % |bs|;
    if Got(bs, hash, key).Some? then bs else bs[h := [Binding(key, data)] + bs[h]]
  }

  function AfterRemove<V>(bs: seq<Chain<V>>, hash: string -> nat, key: string): seq<Chain<V>>
    requires |bs| > 0
  {
    var h := hash(key) % |bs|;
    bs[h := Without(bs[h], key)]
  }

  /** Exactly when a put keeps the table a map: unless the key is bound to null.  A
      put of a key with data changes nothing. */
  lemma PutIsMapPut<V>(bs: seq<Chain<V>>, hash: string -> nat, key: string, data: Option<V>)
    requires Proper(bs, hash)
    ensures var after := AfterPut(bs, hash, key, data);
            && Placed(after, hash)
            && (Proper(after, hash) <==> !(key in Contents(bs) && Contents(bs)[key].None?))
            && Contents(after) == if key in Contents(bs) && Contents(bs)[key].Some? then Contents(bs)
                                  else Contents(bs)[key := data]
  {
    GetAgrees(bs, hash, key);
    PutAgrees(bs, hash, Binding(key, data));
  }

  datatype Op<+V> = Put(key: string, data: Option<V>) | Remove(key: string)

  function Applied<V>(bs: seq<Chain<V>>, hash: string -> nat, op: Op<V>): seq<Chain<V>>
    requires |bs| > 0
  {
    match op
    case Put(key, data) => AfterPut(bs, hash, key, data)
    case Remove(key) => AfterRemove(bs, hash, key)
  }

  function AllApplied<V>(bs: seq<Chain<V>>, hash: string -> nat, ops: seq<Op<V>>): (after: seq<Chain<V>>)
    requires |bs| > 0
    ensures |after| == |bs|
  {
    if ops == [] then bs
    else Applied(AllApplied(bs, hash, ops[..|ops| - 1]), hash, ops[|ops| - 1])
  }

  /** The same operations on a finite map. */
  ghost function OnMap<V>(m: map<string, Option<V>>, op: Op<V>): map<string, Option<V>> {
    match op
    case Put(key, data) => if key in m then m else m[key := data]
    case Remove(key) => m - {key}
  }

  ghost function AllOnMap<V>(m: map<string, Option<V>>, ops: seq<Op<V>>): map<string, Option<V>> {
    if ops == [] then m else OnMap(AllOnMap(m, ops[..|ops| - 1]), ops[|ops| - 1])
  }

  ghost predicate NoNulls<V>(m: map<string, Option<V>>) {
    forall k <- m :: m[k].Some?
  }

  lemma StepRefinesMap<V>(bs: seq<Chain<V>>, hash: string -> nat, op: Op<V>)
    requires Proper(bs, hash) && NoNulls(Contents(bs)) && (op.Put? ==> op.data.Some?)
    ensures var after := Applied(bs, hash, op);
            Proper(after, hash) && NoNulls(Contents(after)) && Contents(after) == OnMap(Contents(bs), op)
  {
    match op
    case Put(key, data) => PutIsMapPut(bs, hash, key, data);
    case Remove(key) => RemoveAgrees(bs, hash, key);
  }

  /** As long as no null is put, any run of puts and removes acts as on a finite map,
      and the number of bindings is the number of keys. */
  lemma {:induction false} RefinesMap<V>(bs: seq<Chain<V>>, hash: string -> nat, ops: seq<Op<V>>)
    requires Proper(bs, hash) && NoNulls(Contents(bs))
    requires forall op <- ops :: op.Put? ==> op.data.Some?
    ensures var after := AllApplied(bs, hash, ops);
            && Proper(after, hash) && NoNulls(Contents(after))
            && Contents(after) == AllOnMap(Contents(bs), ops)
            && |Flat(after)| == |Contents(after)|
  {
    if ops != [] {
      var n := |ops| - 1;
      assert ops[n] in ops;
      RefinesMap(bs, hash, ops[..n]);
      StepRefinesMap(AllApplied(bs, hash, ops[..n]), hash, ops[n]);
    }
    CountIsKeys(AllApplied(bs, hash, ops), hash);
  }

  /** Putting null twice leaves two bindings of one key. */
  lemma NullTwice<V>(bs: seq<Chain<V>>, hash: string -> nat, key: string)
    requires Proper(bs, hash) && key !in Contents(bs)
    ensures var twice := AllApplied(bs, hash, [Put(key, None), Put(key, None)]);
            !Proper(twice, hash) && |Contents(twice)| < |Flat(twice)|
  {
    var puts: seq<Op<V>> := [Put(key, None), Put(key, None)];
    var once := AfterPut(bs, hash, key, None);
    assert puts[..1] == [Put(key, None)] && puts[..1][..0] == [];
    assert AllApplied(bs, hash, puts[..1]) == once;
    PutIsMapPut(bs, hash, key, None);
    PutIsMapPut(once, hash, key, None);
    CountIsKeys(AllApplied(bs, hash, puts), hash);
    MapSize(Flat(AllApplied(bs, hash, puts)));
  }

  // ------------------------------------------------------------ positions in a chain

  // The first match is at position i, or there is none and i is the length.
  ghost predicate FirstMatch<V>(c: Chain<V>, i: nat, key: string) {
    i <= |c| && (forall k | 0 <= k < i :: c[k].key != key) && (i < |c| ==> c[i].key == key)
  }

  lemma {:induction false} FoundAt<V>(c: Chain<V>, i: nat, key: string)
    requires FirstMatch(c, i, key)
    ensures Find(c, key) == if i < |c| then Some(c[i].data) else None
  {
    if c != [] && i > 0 { FoundAt(c[1..], i - 1, key); }
  }

  lemma {:induction false} TakenFrom<V>(c: Chain<V>, i: nat, key: string)
    requires FirstMatch(c, i, key) && i < |c|
    ensures Without(c, key) == c[..i] + c[i + 1..]
  {
    if i > 0 {
      TakenFrom(c[1..], i - 1, key);
      assert c[1..][..i - 1] == c[..i][1..] && c[1..][i..] == c[i + 1..];
    }
  }

  lemma {:induction false} NothingTaken<V>(c: Chain<V>, key: string)
    requires FirstMatch(c, |c|, key)
    ensures Without(c, key) == c
  {
    if c != [] { NothingTaken(c[1..], key); }
  }

  // What a remove does, by position.
  lemma RemoveAt<V>(bs: seq<Chain<V>>, hash: string -> nat, key: string, i: nat)
    requires Placed(bs, hash) && FirstMatch(bs[hash(key) % |bs|], i, key)
    ensures var h := hash(key) % |bs|;
            var after := AfterRemove(bs, hash, key);
            && Placed(after, hash)
            && Got(bs, hash, key) == (if i < |bs[h]| then bs[h][i].data else None)
            && (if i < |bs[h]| then after == bs[h := bs[h][..i] + bs[h][i + 1..]] && |Flat(after)| == |Flat(bs)| - 1
                else after == bs)
  {
    var h := hash(key) % |bs|;
    var c := Without(bs[h], key);
    WithoutSelects(bs[h], key);
    forall k | 0 <= k < |c| ensures hash(c[k].key) % |bs| == h {
      assert c[k] in bs[h];
    }
    ReplaceChain(bs, hash, h, c);
    FoundAt(bs[h], i, key);
    if i < |bs[h]| {
      TakenFrom(bs[h], i, key);
      FlatLength(bs, h, c);
    } else {
      NothingTaken(bs[h], key);
    }
  }

  lemma FlatFrom<V>(bs: seq<Chain<V>>, i: nat)
    requires i < |bs|
    ensures Flat(bs[i..]) == bs[i] + Flat(bs[i + 1..])
  {
    assert bs[i..][1..] == bs[i + 1..];
  }

  lemma {:induction false} FlatEmpty<V>(bs: seq<Chain<V>>)
    requires forall h | 0 <= h < |bs| :: bs[h] == []
    ensures Flat(bs) == []
  {
    if bs != [] { FlatEmpty(bs[1..]); }
  }
}

/** The table and its iterator as objects. */
module HashTable {
  import opened Common
  import opened Buckets

  const DEFAULT_TBL_SIZE: nat := 127
  const SE_DUPLICATE_ENTRY := 30989
  const SE_NO_MORE_ELEMENTS := 30990

  class HNode<V> {
    const key: string
    const data: Option<V>
    ghost const home: nat // the bucket it is in
    var next: HNode?<V>

    constructor (key: string, data: Option<V>, next: HNode?<V>, ghost home: nat)
      ensures this.key == key && this.data == data && this.next == next && this.home == home
    {
      this.key, this.data, this.next, this.home := key, data, next, home;
    }
  }

  // next leads from head through the nodes to null.
  ghost predicate Linked<V>(head: HNode?<V>, nodes: seq<HNode<V>>)
    reads nodes`next
  {
    head == At(nodes, 0) && forall i {:trigger nodes[i].next} | 0 <= i < |nodes| :: nodes[i].next == At(nodes, i + 1)
  }

  ghost predicate Distinct<V>(nodes: seq<HNode<V>>) {
    forall i, j | 0 <= i < j < |nodes| :: nodes[i] != nodes[j]
  }

  lemma LinkedAround<V>(head: HNode?<V>, nodes: seq<HNode<V>>, i: nat)
    requires i < |nodes| && head == At(nodes, if i == 0 then 1 else 0)
    requires forall k {:trigger nodes[k].next} | 0 <= k < |nodes| && k != i - 1 :: nodes[k].next == At(nodes, k + 1)
    requires i > 0 ==> nodes[i - 1].next == At(nodes, i + 1)
    ensures Linked(head, nodes[..i] + nodes[i + 1..])
  {
    var left := nodes[..i] + nodes[i + 1..];
    forall k | 0 <= k < |left| ensures left[k].next == At(left, k + 1) {
      assert left[k] == nodes[if k < i then k else k + 1];
    }
  }

  ghost function At<V>(nodes: seq<HNode<V>>, i: nat): HNode?<V> {
    if i < |nodes| then nodes[i] else null
  }

  // The nodes of bucket h, each once, hold a chain's bindings and are in no other
  // bucket.
  ghost predicate Holds<V>(nodes: seq<HNode<V>>, h: nat, c: Chain<V>, repr: set<HNode<V>>) {
    && |nodes| == |c| && Distinct(nodes)
    && forall i | 0 <= i < |nodes| ::
         nodes[i] in repr && nodes[i].home == h && nodes[i].key == c[i].key && nodes[i].data == c[i].data
  }

  lemma HoldsWithout<V>(nodes: seq<HNode<V>>, h: nat, c: Chain<V>, repr: set<HNode<V>>, i: nat)
    requires Holds(nodes, h, c, repr) && i < |nodes|
    ensures Holds(nodes[..i] + nodes[i + 1..], h, c[..i] + c[i + 1..], repr)
  {}

  lemma HoldsOneMore<V>(nodes: seq<HNode<V>>, h: nat, c: Chain<V>, repr: set<HNode<V>>, node: HNode<V>)
    requires Holds(nodes, h, c, repr) && node !in repr && node.home == h
    ensures Holds([node] + nodes, h, [Binding(node.key, node.data)] + c, repr + {node})
  {}

  lemma HoldsStill<V>(nodes: seq<HNode<V>>, h: nat, c: Chain<V>, repr: set<HNode<V>>, more: set<HNode<V>>)
    requires Holds(nodes, h, c, repr) && repr <= more
    ensures Holds(nodes, h, c, more)
  {}

  class HashTable<V> {
    const hash: string -> nat
    const items: array<HNode?<V>>
    var count: nat
    ghost var chains: seq<seq<HNode<V>>>
    ghost var bs: seq<Chain<V>> // the table as a value
    ghost var repr: set<HNode<V>>

    ghost predicate Valid()
      reads this, items, repr
    {
      Shaped(chains, bs) && Placed(bs, hash) && count == |Flat(bs)|
    }

    // The linked structure and the value it stands for.
    ghost predicate Shaped(cs: seq<seq<HNode<V>>>, bs: seq<Chain<V>>)
      reads this`repr, items, repr`next
    {
      && items.Length == |cs| == |bs| > 0
      && forall h | 0 <= h < |cs| :: Holds(cs[h], h, bs[h], repr) && Linked(items[h], cs[h])
    }

    lemma Reshaped(cs: seq<seq<HNode<V>>>, bs: seq<Chain<V>>, h: nat, nodes: seq<HNode<V>>, c: Chain<V>)
      requires items.Length == |cs| == |bs| > h && Holds(nodes, h, c, repr) && Linked(items[h], nodes)
      requires forall g | 0 <= g < |cs| && g != h :: Holds(cs[g], g, bs[g], repr) && Linked(items[g], cs[g])
      ensures Shaped(cs[h := nodes], bs[h := c])
    {}

    function HashCode(key: string): nat
      requires items.Length > 0
    {
      hash(key) % items.Length
    }

    /** ht_create */
    constructor (hash: string -> nat)
      ensures Valid() && this.hash == hash && fresh(items) && repr == {}
      ensures bs == seq(DEFAULT_TBL_SIZE, _ => [])
    {
      this.hash, count, repr := hash, 0, {};
      items := new HNode?<V>[DEFAULT_TBL_SIZE](_ => null);
      chains := seq(DEFAULT_TBL_SIZE, _ => []);
      bs := seq(DEFAULT_TBL_SIZE, _ => []);
      new;
      FlatEmpty(bs);
    }

    // The first node with the key, and the node before it (itself when it is the
    // first of its chain).
    method FindNode(key: string) returns (cur: HNode?<V>, prev: HNode?<V>, ghost i: nat)
      requires Valid()
      ensures var h := HashCode(key);
              && FirstMatch(bs[h], i, key) && cur == At(chains[h], i)
              && (cur != null ==> prev == chains[h][if i == 0 then 0 else i - 1])
    {
      ghost var nodes, c := chains[HashCode(key)], bs[HashCode(key)];
      assert Holds(nodes, HashCode(key), c, repr) && Linked(items[HashCode(key)], nodes);
      cur := items[HashCode(key)];
      prev, i := cur, 0;
      while cur != null
        invariant 0 <= i <= |nodes| && cur == At(nodes, i)
        invariant cur != null ==> prev == nodes[if i == 0 then 0 else i - 1]
        invariant forall k | 0 <= k < i :: c[k].key != key
        decreases |nodes| - i
      {
        if cur.key == key {
          return;
        }
        prev := cur;
        cur := cur.next;
        i := i + 1;
      }
    }

    /** ht_get: null for a missing key. */
    method Get(key: string) returns (value: Option<V>)
      requires Valid()
      ensures value == Got(bs, hash, key)
    {
      var cur, prev, i := FindNode(key);
      FoundAt(bs[HashCode(key)], i, key);
      assert Holds(chains[HashCode(key)], HashCode(key), bs[HashCode(key)], repr);
      if cur == null {
        return None;
      }
      return cur.data;
    }

    // A new node at the head of a chain.
    method Insert(key: string, data: Option<V>, h: nat)
      requires Shaped(chains, bs) && h < items.Length
      modifies this, items
      ensures Shaped(chains, bs) && count == old(count) + 1 && forall n <- repr :: n in old(repr) || fresh(n)
      ensures bs == old(bs)[h := [Binding(key, data)] + old(bs)[h]]
    {
      assert Holds(chains[h], h, bs[h], repr) && Linked(items[h], chains[h]);
      var node := new HNode(key, data, items[h], h);
      HoldsOneMore(chains[h], h, bs[h], repr, node);
      ghost var nodes, c := [node] + chains[h], [Binding(key, data)] + bs[h];
      items[h] := node;
      count := count + 1;
      ghost var before := repr;
      repr := repr + {node};
      forall g | 0 <= g < |chains| && g != h ensures Holds(chains[g], g, bs[g], repr) && Linked(items[g], chains[g]) {
        HoldsStill(chains[g], g, bs[g], before, repr);
      }
      Reshaped(chains, bs, h, nodes, c);
      chains, bs := chains[h := nodes], bs[h := c];
    }

    /** ht_put: 0, or the error of a duplicate. */
    method Put(key: string, data: Option<V>) returns (status: int)
      requires Valid()
      modifies this, items
      ensures Valid() && bs == AfterPut(old(bs), hash, key, data)
      ensures status == if Got(old(bs), hash, key).Some? then SE_DUPLICATE_ENTRY else 0
      ensures forall n <- repr :: n in old(repr) || fresh(n)
    {
      var present := Get(key);
      if present.Some? {
        return SE_DUPLICATE_ENTRY;
      }
      var h := HashCode(key);
      FlatLength(bs, h, [Binding(key, data)] + bs[h]);
      ReplaceChain(bs, hash, h, [Binding(key, data)] + bs[h]);
      Insert(key, data, h);
      return 0;
    }

    // Link around the i-th node of a chain.
    method Bypass(h: nat, cur: HNode<V>, prev: HNode<V>, ghost nodes: seq<HNode<V>>, ghost i: nat)
      requires h < items.Length && Linked(items[h], nodes) && i < |nodes|
      requires cur == nodes[i] && prev == nodes[if i == 0 then 0 else i - 1] && Distinct(nodes)
      modifies items, prev`next
      ensures Linked(items[h], nodes[..i] + nodes[i + 1..])
      ensures forall g | 0 <= g < items.Length && g != h :: items[g] == old(items[g])
    {
      assert cur.next == At(nodes, i + 1);
      if prev == cur {
        items[h] := cur.next;
      } else {
        prev.next := cur.next;
      }
      LinkedAround(items[h], nodes, i);
    }

    // Take the i-th node out of its chain.
    method Detach(h: nat, cur: HNode<V>, prev: HNode<V>, ghost i: nat)
      requires Shaped(chains, bs) && h < items.Length && i < |chains[h]| && i < |bs[h]|
      requires cur == chains[h][i] && prev == chains[h][if i == 0 then 0 else i - 1]
      requires count > 0
      modifies this, items, prev`next
      ensures Shaped(chains, bs) && count == old(count) - 1 && repr == old(repr)
      ensures bs == old(bs)[h := old(bs)[h][..i] + old(bs)[h][i + 1..]]
    {
      ghost var nodes, c := chains[h], bs[h];
      assert Holds(nodes, h, c, repr) && Linked(items[h], nodes);
      count := count - 1;
      HoldsWithout(nodes, h, c, repr, i);
      Bypass(h, cur, prev, nodes, i);
      forall g | 0 <= g < |chains| && g != h ensures Holds(chains[g], g, bs[g], repr) && Linked(items[g], chains[g]) {
        assert old(Linked(items[g], chains[g]));
      }
      Reshaped(chains, bs, h, nodes[..i] + nodes[i + 1..], c[..i] + c[i + 1..]);
      chains, bs := chains[h := nodes[..i] + nodes[i + 1..]], bs[h := c[..i] + c[i + 1..]];
    }

    /** ht_remove */
    method Remove(key: string) returns (value: Option<V>)
      requires Valid()
      modifies this, items, repr`next
      ensures Valid() && bs == AfterRemove(old(bs), hash, key) && repr == old(repr)
      ensures value == Got(old(bs), hash, key)
    {
      var h := HashCode(key);
      var cur, prev, i := FindNode(key);
      RemoveAt(bs, hash, key, i);
      assert Holds(chains[h], h, bs[h], repr);
      if cur == null {
        return None;
      }
      Detach(h, cur, prev, i);
      return cur.data;
    }
  }

  /** ht_iterator_t: across the buckets and down their chains. */
  class HtIterator<V> {
    const t: HashTable<V>
    ghost const bs: seq<Chain<V>> // the table when iteration began
    var visited: nat
    var nextIndex: nat
    var nextItem: HNode?<V>
    ghost var bucket: nat // the chain nextItem is in
    ghost var pos: nat // and its position there

    // To come: a bucket from position i on, then the buckets from index on.
    ghost predicate Ahead(b: nat, i: nat, index: nat)
      reads this`visited
    {
      && b < |bs| && i <= |bs[b]| && index <= |bs| && visited <= |Flat(bs)|
      && Flat(bs)[visited..] == bs[b][i..] + Flat(bs[index..])
    }

    /** The table is as it was. */
    ghost predicate Unmodified()
      reads t, t.items, t.repr
    {
      t.Valid() && t.bs == bs
    }

    ghost predicate Valid()
      reads this, t, t.items, t.repr
    {
      Unmodified() && Ahead(bucket, pos, nextIndex) && nextItem == At(t.chains[bucket], pos)
    }

    /** ht_get_iterator */
    constructor (t: HashTable<V>)
      requires t.Valid()
      ensures Valid() && visited == 0 && this.t == t && bs == t.bs
    {
      this.t, bs, visited, nextIndex, nextItem := t, t.bs, 0, 0, null;
      bucket, pos := 0, |t.chains[0]|;
    }

    /** ht_has_next */
    predicate HasNext()
      requires Valid()
      reads this, t, t.items, t.repr
      ensures HasNext() <==> visited < |Flat(bs)|
    {
      visited < t.count
    }

    lemma EmptyBuckets()
      requires Unmodified()
      ensures t.items.Length == |bs| && forall h | 0 <= h < |bs| :: t.items[h] == null <==> bs[h] == []
    {
      forall h | 0 <= h < |bs| ensures t.items[h] == null <==> bs[h] == [] {
        assert Holds(t.chains[h], h, bs[h], t.repr) && Linked(t.items[h], t.chains[h]);
      }
    }

    // Skip the empty buckets.
    method SkipEmpty() returns (index: nat)
      requires t.items.Length == |bs| && nextIndex <= |bs|
      requires forall h | 0 <= h < |bs| :: t.items[h] == null <==> bs[h] == []
      ensures index <= |bs| && (index < |bs| ==> bs[index] != [])
      ensures Flat(bs[nextIndex..]) == Flat(bs[index..])
    {
      index := nextIndex;
      while index < t.items.Length && t.items[index] == null
        invariant index <= |bs| && Flat(bs[nextIndex..]) == Flat(bs[index..])
        decreases t.items.Length - index
      {
        FlatFrom(bs, index);
        index := index + 1;
      }
    }

    // The head of the next chain that is not empty.
    method NextChain() returns (item: HNode<V>, index: nat)
      requires Valid() && nextItem == null && visited < |Flat(bs)|
      ensures 0 < index && Ahead(index - 1, 0, index) && bs[index - 1] != [] && item == t.chains[index - 1][0]
    {
      EmptyBuckets();
      assert Holds(t.chains[bucket], bucket, bs[bucket], t.repr);
      index := SkipEmpty();
      if index >= t.items.Length {
        assert false;
      }
      FlatFrom(bs, index);
      assert bs[index][0..] == bs[index] && Linked(t.items[index], t.chains[index]);
      item := t.items[index];
      index := index + 1;
    }

    // The assignments of a step.
    method MoveTo(next: HNode?<V>, index: nat, ghost b: nat, ghost i: nat)
      requires Unmodified()
      modifies this
      ensures nextItem == next && nextIndex == index && bucket == b && pos == i && visited == old(visited) + 1
      ensures Unmodified() && t.chains == old(t.chains)
    {
      nextItem, nextIndex, bucket, pos, visited := next, index, b, i, visited + 1;
    }

    // The item to return, where it is, and where the next chain begins.
    method Current() returns (item: HNode<V>, index: nat, ghost b: nat, ghost i: nat)
      requires Valid() && visited < |Flat(bs)|
      ensures Ahead(b, i, index) && i < |bs[b]| && bs[b][i] == Binding(item.key, item.data)
      ensures item.next == At(t.chains[b], i + 1)
    {
      b, i, index := bucket, pos, nextIndex;
      if nextItem == null {
        item, index := NextChain();
        b, i := index - 1, 0;
      } else {
        item := nextItem;
      }
      assert Holds(t.chains[b], b, bs[b], t.repr) && Linked(t.items[b], t.chains[b]);
    }

    /** ht_get_next */
    method GetNext() returns (r: Result<Binding<V>>)
      requires Valid()
      modifies this
      ensures Valid()
      ensures if old(visited) < |Flat(bs)| then visited == old(visited) + 1 && r == Ok(Flat(bs)[old(visited)])
              else visited == old(visited) && r == Err(SE_NO_MORE_ELEMENTS)
    {
      if visited >= t.count {
        return Err(SE_NO_MORE_ELEMENTS);
      }
      var item, index, b, i := Current();
      Advance(Flat(bs), visited, bs[b], i, Flat(bs[index..]));
      MoveTo(item.next, index, b, i + 1);
      return Ok(Binding(item.key, item.data));
    }
  }

  lemma Advance<V>(all: Chain<V>, visited: nat, c: Chain<V>, i: nat, later: Chain<V>)
    requires visited <= |all| && i < |c| && all[visited..] == c[i..] + later
    ensures visited < |all| && all[visited] == c[i]
    ensures all[visited + 1..] == c[i + 1..] + later
  {
    assert all[visited..][0] == all[visited];
    assert all[visited..][1..] == all[visited + 1..];
    assert c[i..][1..] == c[i + 1..];
  }

  // The loop a caller writes around an iterator.
  method Collect<V>(it: HtIterator<V>) returns (all: Chain<V>)
    requires it.Valid() && it.visited == 0
    modifies it
    ensures all == Flat(it.bs) && it.Unmodified()
  {
    ghost var whole := Flat(it.bs);
    all := [];
    while it.HasNext()
      invariant it.Valid() && it.visited <= |whole| && all == whole[..it.visited]
      decreases |whole| - it.visited
    {
      var r := it.GetNext();
      OneMore(whole, it.visited);
      all := all + [r.value];
    }
  }

  /** Iterating over an unmodified table: every binding once, in one fixed order, in
      exactly count steps; with proper contents these are the bindings of the map. */
  method Drain<V>(t: HashTable<V>) returns (all: Chain<V>)
    requires t.Valid()
    ensures all == Flat(t.bs) && |all| == t.count && ToMap(all) == Contents(t.bs)
    ensures Proper(t.bs, t.hash) ==> KeysDiffer(all)
  {
    var it := new HtIterator(t);
    all := Collect(it);
    MapSize(all);
    CountIsKeys(t.bs, t.hash);
  }

  lemma OneMore<T>(s: seq<T>, n: nat)
    requires 0 < n <= |s|
    ensures s[..n] == s[..n - 1] + [s[n - 1]]
  {}
}
