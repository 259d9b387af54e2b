/** Rebuilding the tail pointers of lists that arrived over the wire. */
module ListTail {
  /** What a node's data points to; only the nested lists matter here. */
  datatype Payload = Item | Holder(lists: seq<SqmList?>)

  class Node {
    const data: Payload
    var next: Node?

    constructor (data: Payload, next: Node?)
      ensures this.data == data && this.next == next
    {
      this.data, this.next := data, next;
    }
  }

  class SqmList {
    var head: Node?
    var tail: Node?
    var length: int

    constructor (head: Node?, tail: Node?, length: int)
      ensures this.head == head && this.tail == tail && this.length == length
    {
      this.head, this.tail, this.length := head, tail, length;
    }
  }

  // ------------------------------------------------------------ chains

  // next leads from head through the nodes to null.
  ghost predicate Chain(head: Node?, nodes: seq<Node>)
    reads nodes`next
  {
    head == At(nodes, 0) && forall i {:trigger nodes[i].next} | 0 <= i < |nodes| :: nodes[i].next == At(nodes, i + 1)
  }

  ghost function At(nodes: seq<Node>, i: nat): Node? {
    if i < |nodes| then nodes[i] else null
  }

  ghost function Last(nodes: seq<Node>): Node? {
    if nodes == [] then null else nodes[|nodes| - 1]
  }

  /** There is at most one way from a head to null, so the last node is well
      defined. */
  lemma {:induction false} ChainIsUnique(head: Node?, a: seq<Node>, b: seq<Node>)
    requires Chain(head, a) && Chain(head, b)
    ensures a == b
    decreases |a|
  {
    if a != [] && b != [] {
      assert a[0].next == b[0].next;
      ChainRest(a);
      ChainRest(b);
      ChainIsUnique(a[0].next, a[1..], b[1..]);
      assert a == [a[0]] + a[1..] && b == [b[0]] + b[1..];
    }
  }

  lemma ChainRest(nodes: seq<Node>)
    requires nodes != [] && Chain(nodes[0], nodes)
    ensures Chain(nodes[0].next, nodes[1..])
  {
    var rest := nodes[1..];
    forall i | 0 <= i < |rest| ensures rest[i].next == At(rest, i + 1) {
      assert rest[i] == nodes[i + 1];
    }
  }

  /** Each list of interest and its nodes. */
  type Chains = map<SqmList, seq<Node>>

  ghost function NodesOf(chains: Chains): set<Node> {
    set l, n | l in chains && n in chains[l] :: n
  }

  // Every list is acyclic, with the nodes given.
  ghost predicate Known(lists: set<SqmList>, chains: Chains)
    reads lists`head, NodesOf(chains)`next
  {
    forall l <- lists ::
      && l in chains
      && (assert forall n <- chains[l] :: n in NodesOf(chains);
          Chain(l.head, chains[l]))
  }

  /** Every tail is the last node, or null for an empty list. */
  ghost predicate Repaired(lists: set<SqmList>, chains: Chains)
    reads lists`tail
  {
    forall l <- lists :: l in chains && l.tail == Last(chains[l])
  }

  ghost function Of(lst: SqmList?): set<SqmList> {
    if lst == null then {} else {lst}
  }

  // ------------------------------------------------------------ one list

  /** SET_LIST_TAIL: the tail becomes the last node reachable from the head, null for
      an empty list; nothing else changes, and nothing at all if it was right. */
  method SetListTail(lst: SqmList?, ghost chains: Chains)
    requires Known(Of(lst), chains)
    modifies Of(lst)`tail
    ensures Repaired(Of(lst), chains)
    ensures old(Repaired(Of(lst), chains)) && lst != null ==> lst.tail == old(lst.tail)
  {
    if lst != null {
      var cur, prev := lst.head, lst.head;
      ghost var nodes, i := chains[lst], 0;
      while cur != null
        invariant 0 <= i <= |nodes| && cur == At(nodes, i)
        invariant prev == if i == 0 then lst.head else nodes[i - 1]
        decreases |nodes| - i
      {
        prev := cur;
        cur := cur.next;
        i := i + 1;
      }
      lst.tail := prev;
    }
  }

  // ------------------------------------------------------------ several lists

  ghost function All(lists: seq<SqmList?>): set<SqmList> {
    if lists == [] then {} else All(lists[..|lists| - 1]) + Of(lists[|lists| - 1])
  }

  lemma {:induction false} AllHas(lists: seq<SqmList?>, i: nat)
    requires i < |lists|
    ensures Of(lists[i]) <= All(lists)
  {
    var n := |lists| - 1;
    if i < n { AllHas(lists[..n], i); }
  }

  lemma {:induction false} AllIff(lists: seq<SqmList?>, l: SqmList)
    ensures l in All(lists) <==> l in lists
  {
    if lists != [] {
      var n := |lists| - 1;
      AllIff(lists[..n], l);
      assert lists == lists[..n] + [lists[n]];
    }
  }

  /** The macro applied to one list after the other. */
  method SetTails(lists: seq<SqmList?>, ghost chains: Chains)
    requires Known(All(lists), chains)
    modifies All(lists)`tail
    ensures Repaired(All(lists), chains)
  {
    for i := 0 to |lists|
      invariant Repaired(All(lists[..i]), chains)
    {
      assert lists[..i + 1][..i] == lists[..i];
      AllHas(lists, i);
      SetListTail(lists[i], chains);
    }
    assert lists[..|lists|] == lists;
  }

  // ------------------------------------------------------------ nested lists

  // The lists inside the data of a list's nodes.
  ghost function Nested(nodes: seq<Node>): set<SqmList> {
    if nodes == [] then {}
    else
      var d := nodes[|nodes| - 1].data;
      Nested(nodes[..|nodes| - 1]) + if d.Holder? then All(d.lists) else {}
  }

  lemma {:induction false} NestedHas(nodes: seq<Node>, i: nat)
    requires i < |nodes| && nodes[i].data.Holder?
    ensures All(nodes[i].data.lists) <= Nested(nodes)
  {
    var n := |nodes| - 1;
    if i < n { NestedHas(nodes[..n], i); }
  }

  ghost function NestedIn(lst: SqmList?, chains: Chains): set<SqmList> {
    if lst != null && lst in chains then Nested(chains[lst]) else {}
  }

  // A node on the way holds the list.
  ghost predicate HeldBy(nodes: seq<Node>, l: SqmList) {
    exists n <- nodes :: n.data.Holder? && l in n.data.lists
  }

  lemma {:induction false} NestedIff(nodes: seq<Node>, l: SqmList)
    ensures l in Nested(nodes) <==> HeldBy(nodes, l)
  {
    if nodes != [] {
      var n := |nodes| - 1;
      NestedIff(nodes[..n], l);
      assert nodes == nodes[..n] + [nodes[n]];
      if nodes[n].data.Holder? { AllIff(nodes[n].data.lists, l); }
    }
  }

  // A list that the nodes of another hold.
  ghost predicate IsInside(lst: SqmList?, chains: Chains, l: SqmList) {
    lst != null && lst in chains && HeldBy(chains[lst], l)
  }

  lemma NestedInIff(lst: SqmList?, chains: Chains, l: SqmList)
    ensures l in NestedIn(lst, chains) <==> IsInside(lst, chains, l)
  {
    if lst != null && lst in chains { NestedIff(chains[lst], l); }
  }

  ghost predicate HoldersOnly(lst: SqmList?, chains: Chains) {
    lst != null && lst in chains ==> forall n <- chains[lst] :: n.data.Holder?
  }

  /** The loop over the nodes of an outer list, repairing the lists in each. */
  method SetNestedTails(lst: SqmList?, ghost chains: Chains)
    requires Known(Of(lst) + NestedIn(lst, chains), chains) && HoldersOnly(lst, chains)
    modifies NestedIn(lst, chains)`tail
    ensures Repaired(NestedIn(lst, chains), chains)
  {
    if lst != null {
      ghost var nodes, i := chains[lst], 0;
      assert Known({lst}, chains);
      var node := lst.head;
      while node != null
        invariant 0 <= i <= |nodes| && node == At(nodes, i)
        invariant Repaired(Nested(nodes[..i]), chains)
        decreases |nodes| - i
      {
        assert nodes[..i + 1][..i] == nodes[..i];
        NestedHas(nodes, i);
        SetTails(node.data.lists, chains);
        node := node.next;
        i := i + 1;
      }
      assert nodes[..i] == nodes;
    }
  }

  // ------------------------------------------------------------ file systems

  class Fs {
    const metaDataDiskList: SqmList?
    const dataDiskList: SqmList?
    const stripedGroupList: SqmList?

    constructor (meta: SqmList?, data: SqmList?, striped: SqmList?)
      ensures metaDataDiskList == meta && dataDiskList == data && stripedGroupList == striped
    {
      metaDataDiskList, dataDiskList, stripedGroupList := meta, data, striped;
    }

    /** Every list of the file system, the disk lists of its striped groups too. */
    ghost function Lists(chains: Chains): set<SqmList> {
      All([metaDataDiskList, dataDiskList, stripedGroupList]) + NestedIn(stripedGroupList, chains)
    }
  }

  /** Which lists these are: the three of the file system itself and those that its
      striped groups hold, and no other. */
  lemma FsListsIff(fs: Fs, chains: Chains, l: SqmList)
    ensures l in fs.Lists(chains)
            <==> || l == fs.metaDataDiskList || l == fs.dataDiskList || l == fs.stripedGroupList
                 || IsInside(fs.stripedGroupList, chains, l)
  {
    AllIff([fs.metaDataDiskList, fs.dataDiskList, fs.stripedGroupList], l);
    NestedInIff(fs.stripedGroupList, chains, l);
  }

  /** SET_FS_TAIL: every list of a file system is repaired, whatever the lists share,
      and nothing else changes. */
  method SetFsTail(fs: Fs, ghost chains: Chains)
    requires Known(fs.Lists(chains), chains) && HoldersOnly(fs.stripedGroupList, chains)
    modifies fs.Lists(chains)`tail
    ensures Repaired(fs.Lists(chains), chains)
    ensures old(Repaired(fs.Lists(chains), chains)) ==> forall l <- fs.Lists(chains) :: l.tail == old(l.tail)
  {
    var own := [fs.metaDataDiskList, fs.dataDiskList, fs.stripedGroupList];
    AllHas(own, 2);
    SetTails(own, chains);
    SetNestedTails(fs.stripedGroupList, chains);
  }

  class ArFsCfg {
    const copies: SqmList?
    const vsnMaps: SqmList?

    constructor (copies: SqmList?, vsnMaps: SqmList?)
      ensures this.copies == copies && this.vsnMaps == vsnMaps
    {
      this.copies, this.vsnMaps := copies, vsnMaps;
    }

    /** Every list of the configuration, the name and pool lists of its maps too. */
    ghost function Lists(chains: Chains): set<SqmList> {
      All([copies, vsnMaps]) + NestedIn(vsnMaps, chains)
    }
  }

  /** The copies, the maps, the lists that the maps hold, and no other. */
  lemma ArFsCfgListsIff(afc: ArFsCfg, chains: Chains, l: SqmList)
    ensures l in afc.Lists(chains)
            <==> l == afc.copies || l == afc.vsnMaps || IsInside(afc.vsnMaps, chains, l)
  {
    AllIff([afc.copies, afc.vsnMaps], l);
    NestedInIff(afc.vsnMaps, chains, l);
  }

  /** SET_FS_ARCH_CFG_TAIL */
  method SetFsArchCfgTail(afc: ArFsCfg?, ghost chains: Chains)
    requires afc != null ==> Known(afc.Lists(chains), chains) && HoldersOnly(afc.vsnMaps, chains)
    modifies (if afc == null then {} else afc.Lists(chains))`tail
    ensures afc != null ==> Repaired(afc.Lists(chains), chains)
    ensures afc != null && old(Repaired(afc.Lists(chains), chains)) ==>
              forall l <- afc.Lists(chains) :: l.tail == old(l.tail)
  {
    if afc != null {
      var own := [afc.copies, afc.vsnMaps];
      AllHas(own, 1);
      SetTails(own, chains);
      SetNestedTails(afc.vsnMaps, chains);
    }
  }
}
