/**
  Nodes in memory.  A node owns its inline array of branches and the subtrees its branches
  point to; `tree` is the value it stands for.
 */
module Nodes {
  import opened Params
  import opened Rects
  import opened Trees

  /** A slot of a node or of a split buffer; copied by value, as in the source. */
  datatype Branch = Branch(m_rect: Rect, m_child: Node?, m_data: Id)

  /** The children behind some branches. */
  ghost function Kids(bs: seq<Branch>): set<object> {
    set b | b in bs && b.m_child != null :: b.m_child
  }

  /** Everything owned by the children behind some branches. */
  ghost function Footprint(bs: seq<Branch>): set<object>
    reads Kids(bs)
  {
    set b, o | b in bs && b.m_child != null && o in b.m_child.Repr :: o
  }

  ghost function ItemOf(b: Branch): Item
    reads b.m_child
  {
    if b.m_child == null then Data(b.m_rect, b.m_data) else Sub(b.m_rect, b.m_child.tree)
  }

  ghost predicate Mirrors(items: seq<Item>, bs: seq<Branch>)
    reads Kids(bs)
  {
    |items| == |bs| && forall i | 0 <= i < |bs| :: items[i] == ItemOf(bs[i])
  }

  /** A branch fit for a node of the given level. */
  ghost predicate BranchOk(b: Branch, level: int)
    reads b.m_child, if b.m_child == null then {} else b.m_child.Repr
    decreases level, 0
  {
    if level <= 0 then level == 0 && b.m_child == null
    else b.m_child != null && b.m_child.m_level == level - 1 && b.m_child.Valid()
  }

  ghost function Owned(b: Branch): set<object>
    reads b.m_child
  {
    if b.m_child == null then {} else b.m_child.Repr
  }

  /** Branches fit for one node: each is, and no two share anything. */
  ghost predicate ForestOk(bs: seq<Branch>, level: int)
    reads Kids(bs), Footprint(bs)
    decreases level, 1
  {
    && (forall i | 0 <= i < |bs| :: BranchOk(bs[i], level))
    && (forall i, j | 0 <= i < j < |bs| :: Owned(bs[i]) !! Owned(bs[j]))
  }

  lemma FootprintPush(bs: seq<Branch>, b: Branch)
    ensures Footprint(bs + [b]) == Footprint(bs) + Owned(b)
  {
  }

  lemma FootprintNone(bs: seq<Branch>)
    ensures Footprint(bs[|bs|..]) == {}
  {
  }

  lemma OwnedInFootprint(bs: seq<Branch>)
    ensures forall i | 0 <= i < |bs| :: Owned(bs[i]) <= Footprint(bs)
  {
  }

  /** A valid child owns itself. */
  lemma KidsOwned(bs: seq<Branch>, level: int)
    requires ForestOk(bs, level)
    ensures Kids(bs) <= Footprint(bs)
  {
  }

  lemma ChildOwned(b: Branch, level: int)
    requires BranchOk(b, level)
    ensures b.m_child != null ==> b.m_child in Owned(b)
  {
  }

  lemma MirrorsLength(items: seq<Item>, bs: seq<Branch>)
    requires Mirrors(items, bs)
    ensures |items| == |bs|
  {
  }

  lemma MirrorsPush(items: seq<Item>, bs: seq<Branch>, b: Branch)
    requires Mirrors(items, bs)
    ensures Mirrors(items + [ItemOf(b)], bs + [b])
  {
  }

  /** A branch shares nothing with those before it. */
  lemma ForestApart(bs: seq<Branch>, level: int, i: nat)
    requires ForestOk(bs, level) && i < |bs|
    ensures BranchOk(bs[i], level)
    ensures Owned(bs[i]) !! Footprint(bs[..i])
    ensures Owned(bs[i]) <= Footprint(bs) && Footprint(bs[..i]) <= Footprint(bs)
    ensures Footprint(bs[..i + 1]) == Footprint(bs[..i]) + Owned(bs[i])
  {
    hide BranchOk;
    assert bs[..i + 1] == bs[..i] + [bs[i]];
    FootprintPush(bs[..i], bs[i]);
    assert bs[i] in bs;
  }

  /** One more branch, sharing nothing with the others. */
  lemma ForestPush(items: seq<Item>, bs: seq<Branch>, b: Branch, level: int)
    requires ForestOk(bs, level) && Mirrors(items, bs)
    requires BranchOk(b, level) && Owned(b) !! Footprint(bs)
    ensures ForestOk(bs + [b], level) && Mirrors(items + [ItemOf(b)], bs + [b])
    ensures Footprint(bs + [b]) == Footprint(bs) + Owned(b)
    ensures Kids(bs + [b]) <= Footprint(bs + [b])
    ensures b.m_child != null ==> b.m_child in Owned(b)
  {
    hide BranchOk, Owned, ItemOf, Footprint, Kids, Mirrors;
    ChildOwned(b, level);
    MirrorsPush(items, bs, b);
    OwnedInFootprint(bs);
    FootprintPush(bs, b);
    KidsOwned(bs + [b], level);
  }

  /** All slots but the `k`-th. */
  ghost function Rest<T>(s: seq<T>, k: nat): (r: seq<T>)
    requires k < |s|
    ensures |r| == |s| - 1
    ensures forall i | 0 <= i < |r| :: r[i] == if i < k then s[i] else s[i + 1]
  {
    s[..k] + s[k + 1..]
  }

  lemma RestForest(bs: seq<Branch>, k: nat, level: int)
    requires ForestOk(bs, level) && k < |bs|
    ensures ForestOk(Rest(bs, k), level) && BranchOk(bs[k], level)
    ensures Footprint(bs) == Footprint(Rest(bs, k)) + Owned(bs[k])
    ensures Owned(bs[k]) !! Footprint(Rest(bs, k))
  {
    hide BranchOk, Owned;
    var rest := Rest(bs, k);
    FootprintAround(bs, k);
    forall i | 0 <= i < |rest|
      ensures Owned(rest[i]) !! Owned(bs[k]) && BranchOk(rest[i], level)
    {
      var j := if i < k then i else i + 1;
      assert rest[i] == bs[j] && BranchOk(bs[j], level);
    }
    FootprintApart(rest, Owned(bs[k]));
  }

  lemma FootprintAround(bs: seq<Branch>, k: nat)
    requires k < |bs|
    ensures Footprint(bs) == Footprint(Rest(bs, k)) + Owned(bs[k])
  {
    assert forall b :: b in bs <==> b in Rest(bs, k) || b == bs[k] by {
      assert bs == bs[..k] + [bs[k]] + bs[k + 1..];
    }
  }

  lemma FootprintApart(bs: seq<Branch>, s: set<object>)
    requires forall i | 0 <= i < |bs| :: Owned(bs[i]) !! s
    ensures Footprint(bs) !! s
  {
    forall o | o in Footprint(bs)
      ensures o !in s
    {
      var b :| b in bs && b.m_child != null && o in b.m_child.Repr;
      var i :| 0 <= i < |bs| && bs[i] == b;
      assert o in Owned(bs[i]);
    }
  }

  lemma OwnedInFootprintAt(bs: seq<Branch>, i: nat)
    requires i < |bs|
    ensures Owned(bs[i]) <= Footprint(bs)
  {
    assert bs[i] in bs;
  }

  /** The first slot leaves a forest. */
  lemma TakeFirst(items: seq<Item>, bs: seq<Branch>, level: int)
    requires ForestOk(bs, level) && Mirrors(items, bs) && bs != []
    ensures ForestOk(bs[1..], level) && Mirrors(items[1..], bs[1..])
    ensures BranchOk(bs[0], level) && items[0] == ItemOf(bs[0])
    ensures Footprint(bs) == Footprint(bs[1..]) + Owned(bs[0])
    ensures Owned(bs[0]) !! Footprint(bs[1..])
    ensures Kids(bs[1..]) <= Footprint(bs[1..])
    ensures bs[0].m_child != null ==> bs[0].m_child in Owned(bs[0])
  {
    hide BranchOk, ItemOf, Owned, Footprint, Kids, ForestOk, Mirrors;
    TakeOut(items, bs, 0, level);
    MirrorsLength(items, bs);
    assert Rest(bs, 0) == bs[1..] && Rest(items, 0) == items[1..];
  }

  /** Slot `k` leaves a forest: the rest is one, and shares nothing with it. */
  lemma TakeOut(items: seq<Item>, bs: seq<Branch>, k: nat, level: int)
    requires ForestOk(bs, level) && Mirrors(items, bs) && k < |bs|
    ensures ForestOk(Rest(bs, k), level) && Mirrors(Rest(items, k), Rest(bs, k))
    ensures BranchOk(bs[k], level) && items[k] == ItemOf(bs[k])
    ensures Footprint(bs) == Footprint(Rest(bs, k)) + Owned(bs[k])
    ensures Owned(bs[k]) !! Footprint(Rest(bs, k))
    ensures Kids(Rest(bs, k)) <= Footprint(Rest(bs, k))
    ensures bs[k].m_child != null ==> bs[k].m_child in Owned(bs[k])
  {
    hide BranchOk, ItemOf, Owned, Footprint, Kids, ForestOk;
    RestForest(bs, k, level);
    KidsOwned(Rest(bs, k), level);
    ChildOwned(bs[k], level);
  }

  /** A branch sharing nothing with the rest goes into slot `k`. */
  lemma PutIn(items: seq<Item>, bs: seq<Branch>, k: nat, b: Branch, level: int)
    requires k < |bs| == |items|
    requires ForestOk(Rest(bs, k), level) && Mirrors(Rest(items, k), Rest(bs, k))
    requires BranchOk(b, level) && Owned(b) !! Footprint(Rest(bs, k))
    ensures ForestOk(bs[k := b], level) && Mirrors(items[k := ItemOf(b)], bs[k := b])
    ensures Footprint(bs[k := b]) == Footprint(Rest(bs, k)) + Owned(b)
    ensures Kids(bs[k := b]) <= Footprint(bs[k := b])
  {
    hide BranchOk, ItemOf, Owned, Footprint, Kids;
    var bs' := bs[k := b];
    assert Rest(bs', k) == Rest(bs, k);
    FootprintAround(bs', k);
    forall j | 0 <= j < |bs'| && j != k
      ensures BranchOk(bs'[j], level) && Owned(bs'[j]) <= Footprint(Rest(bs, k))
      ensures items[j] == ItemOf(bs[j])
    {
      var i := if j < k then j else j - 1;
      assert Rest(bs, k)[i] == bs[j] && Rest(items, k)[i] == items[j];
      OwnedInFootprintAt(Rest(bs, k), i);
    }
    forall i, j | 0 <= i < j < |bs'|
      ensures Owned(bs'[i]) !! Owned(bs'[j])
    {
      if i != k && j != k {
        var i', j' := if i < k then i else i - 1, if j < k then j else j - 1;
        assert Owned(Rest(bs, k)[i']) !! Owned(Rest(bs, k)[j']);
      }
    }
    KidsOwned(bs', level);
  }

  class Node {
    var m_count: int
    var m_level: int
    const m_branch: array<Branch>

    ghost var Repr: set<object>
    ghost var tree: Tree

    ghost predicate Valid()
      reads this, Repr
      decreases m_level, 2
      ensures Valid() ==> this in Repr && m_branch in Repr
    {
      && this in Repr && m_branch in Repr && m_branch.Length == MAX
      && 0 <= m_count <= MAX && m_level >= 0
      && var bs := m_branch[..m_count];
      && Kids(bs) <= Repr && Footprint(bs) <= Repr
      && this !in Footprint(bs) && m_branch !in Footprint(bs)
      && ForestOk(bs, m_level)
      && Repr == {this, m_branch} + Footprint(bs)
      && tree.level == m_level && Mirrors(tree.items, bs)
    }

    predicate IsInternalNode()
      reads this
    {
      m_level > 0
    }

    predicate IsLeaf()
      reads this
    {
      m_level == 0
    }

    /** `new Node` followed by InitNode. */
    constructor ()
      ensures m_count == 0 && m_level == -1
      ensures m_branch.Length == MAX && fresh(m_branch)
    {
      m_count, m_level := 0, -1;
      m_branch := new Branch[MAX];
    }
  }

  lemma NodeFacts(n: Node)
    requires n.Valid()
    ensures 0 <= n.m_count == |n.tree.items| <= MAX == n.m_branch.Length && 0 <= n.m_level == n.tree.level
  {
  }

  /** A node by itself: the object and its inline array. */
  ghost function Shell(n: Node?): set<object> {
    if n == null then {} else {n, n.m_branch}
  }

  ghost function Together(n: Node, newNode: Node?): set<object>
    reads n, newNode
  {
    n.Repr + if newNode == null then {} else newNode.Repr
  }

  /** What was allocated and not yet freed.  A node and its inline array go together. */
  class Memory {
    ghost var live: set<object>

    /** All of `s` is allocated; the bookkeeping itself is no part of any tree. */
    ghost predicate Holds(s: set<object>)
      reads this
    {
      s <= live && this !in live
    }

    constructor ()
      ensures live == {}
    {
      live := {};
    }

    method AllocNode() returns (n: Node)
      modifies this
      ensures fresh(n) && fresh(n.m_branch)
      ensures n.m_count == 0 && n.m_level == -1 && n.m_branch.Length == MAX
      ensures live == old(live) + {n, n.m_branch}
    {
      n := new Node();
      live := live + {n, n.m_branch};
    }

    method FreeNode(n: Node)
      requires n in live
      modifies this
      ensures live == old(live) - {n, n.m_branch}
    {
      live := live - {n, n.m_branch};
    }
  }

  /** NodeCover, as a loop over the boxes of a node. */
  method NodeCover(n: Node) returns (r: Rect)
    requires n.Valid() && n.tree.items != []
    ensures r == CoverOf(n.tree)
  {
    hide ForestOk, Kids, Footprint, Combine;
    r := n.m_branch[0].m_rect;
    ghost var rs := RectsOf(n.tree.items);
    assert rs[..1] == [rs[0]];
    for index := 1 to n.m_count
      invariant r == Cover(rs[..index])
    {
      assert rs[..index + 1][..index] == rs[..index];
      r := CombineRect(r, n.m_branch[index].m_rect);
    }
    assert rs[..n.m_count] == rs;
  }

  /** A node without branches stands for an empty tree, whatever its array holds. */
  ghost method Begin(n: Node)
    requires n.m_count == 0 && n.m_level >= 0 && n.m_branch.Length == MAX
    modifies n`tree, n`Repr
    ensures n.Valid() && n.Repr == Shell(n) && n.tree == Tree(n.m_level, [])
  {
    n.tree, n.Repr := Tree(n.m_level, []), Shell(n);
  }

  /** Node `n` with branches `bs`, about whose slot `k` nothing is known for now. */
  ghost predicate OpenAt(n: Node, bs: seq<Branch>, k: nat)
    reads n, n.m_branch, Kids(Rest(bs, k)), Footprint(Rest(bs, k))
    requires k < |bs|
  {
    && n.m_branch.Length == MAX && n.m_count == |bs| <= MAX && n.m_branch[..n.m_count] == bs
    && n.m_level == n.tree.level && |n.tree.items| == |bs|
    && ForestOk(Rest(bs, k), n.m_level) && Mirrors(Rest(n.tree.items, k), Rest(bs, k))
    && Kids(Rest(bs, k)) <= Footprint(Rest(bs, k)) && Shell(n) !! Footprint(Rest(bs, k))
  }

  lemma OpenUp(n: Node, k: nat)
    requires n.Valid() && k < n.m_count
    ensures OpenAt(n, n.m_branch[..n.m_count], k)
    ensures BranchOk(n.m_branch[k], n.m_level) && n.tree.items[k] == ItemOf(n.m_branch[k])
    ensures n.m_branch[k].m_child != null ==> n.m_branch[k].m_child in Owned(n.m_branch[k])
    ensures n.Repr == Shell(n) + Footprint(Rest(n.m_branch[..n.m_count], k)) + Owned(n.m_branch[k])
    ensures Owned(n.m_branch[k]) !! Shell(n) + Footprint(Rest(n.m_branch[..n.m_count], k))
  {
    hide ForestOk, BranchOk, ItemOf, Owned, Footprint, Kids;
    TakeOut(n.tree.items, n.m_branch[..n.m_count], k, n.m_level);
  }

  /** Slot `k` receives a branch, and the node is complete again. */
  method CloseWith(n: Node, ghost bs: seq<Branch>, k: nat, b: Branch)
    requires k < |bs| && OpenAt(n, bs, k)
    requires BranchOk(b, n.m_level) && Owned(b) !! Shell(n) + Footprint(Rest(bs, k))
    modifies n, n.m_branch
    ensures n.Valid() && n.m_level == old(n.m_level) && n.m_count == old(n.m_count)
    ensures n.tree == Tree(old(n.tree).level, old(n.tree.items)[k := old(ItemOf(b))])
    ensures n.Repr == Shell(n) + old(Footprint(Rest(bs, k)) + Owned(b))
    ensures n.m_branch[..n.m_count] == bs[k := b]
  {
    hide ForestOk, BranchOk, ItemOf, Owned, Footprint, Kids, Mirrors;
    ChildOwned(b, n.m_level);
    PutIn(n.tree.items, bs, k, b, n.m_level);
    n.m_branch[k] := b;
    n.tree := Tree(n.tree.level, n.tree.items[k := ItemOf(b)]);
    n.Repr := Shell(n) + Footprint(Rest(bs, k)) + Owned(b);
    assert n.m_branch[..n.m_count] == bs[k := b];
  }

  /** What a reader may rely on in slot `k`. */
  lemma SlotFacts(n: Node, k: nat)
    requires n.Valid() && k < n.m_count
    ensures |n.tree.items| == n.m_count
    ensures n.tree.items[k].rect == n.m_branch[k].m_rect
    ensures n.m_level == 0 ==> n.m_branch[k].m_child == null
    ensures n.m_level == 0 ==> n.tree.items[k] == Data(n.m_branch[k].m_rect, n.m_branch[k].m_data)
    ensures n.m_level > 0 ==>
      && n.m_branch[k].m_child != null && n.m_branch[k].m_child.Valid()
      && n.m_branch[k].m_child.m_level == n.m_level - 1
      && n.tree.items[k] == Sub(n.m_branch[k].m_rect, n.m_branch[k].m_child.tree)
      && n.m_branch[k].m_child.Repr <= n.Repr - Shell(n)
  {
    hide Footprint;
    var bs := n.m_branch[..n.m_count];
    assert BranchOk(bs[k], n.m_level) && n.tree.items[k] == ItemOf(bs[k]);
    OwnedInFootprintAt(bs, k);
  }

  // ---------------------------------------------------------------- filling a node slot by slot

  /** The first `k` slots of `n` are filled with what the first `k` items stand for. */
  ghost predicate Filled(n: Node, level: int, items: seq<Item>, k: nat)
    reads n.m_branch
    requires k <= n.m_branch.Length
    reads Kids(n.m_branch[..k]), Footprint(n.m_branch[..k])
  {
    && n.m_branch.Length == MAX && k <= |items| && level >= 0
    && ForestOk(n.m_branch[..k], level) && Mirrors(items[..k], n.m_branch[..k])
    && Kids(n.m_branch[..k]) <= Footprint(n.m_branch[..k]) && Shell(n) !! Footprint(n.m_branch[..k])
  }

  lemma FilledNone(n: Node, level: int, items: seq<Item>)
    requires n.m_branch.Length == MAX && level >= 0
    ensures Filled(n, level, items, 0) && Footprint(n.m_branch[..0]) == {}
  {
  }

  /** Slot `k` holds a branch that shares nothing with the slots before it. */
  lemma FilledStep(n: Node, level: int, items: seq<Item>, k: nat)
    requires k < |items| && k < n.m_branch.Length && Filled(n, level, items, k)
    requires BranchOk(n.m_branch[k], level) && ItemOf(n.m_branch[k]) == items[k]
    requires Owned(n.m_branch[k]) !! Footprint(n.m_branch[..k]) + Shell(n)
    ensures Filled(n, level, items, k + 1)
    ensures Footprint(n.m_branch[..k + 1]) == Footprint(n.m_branch[..k]) + Owned(n.m_branch[k])
  {
    hide BranchOk, ForestOk, ItemOf, Owned, Footprint, Kids, Mirrors;
    ForestPush(items[..k], n.m_branch[..k], n.m_branch[k], level);
    assert n.m_branch[..k + 1] == n.m_branch[..k] + [n.m_branch[k]];
    assert items[..k + 1] == items[..k] + [items[k]];
  }

  /** A node all of whose slots are filled. */
  ghost method Complete(n: Node, t: Tree)
    requires n.m_level == t.level && n.m_count == |t.items| <= MAX == n.m_branch.Length
    requires Filled(n, n.m_level, t.items, n.m_count)
    modifies n`tree, n`Repr
    ensures n.Valid() && n.tree == t && n.Repr == Shell(n) + old(Footprint(n.m_branch[..n.m_count]))
  {
    hide BranchOk, ForestOk, ItemOf, Footprint, Kids;
    assert t.items[..n.m_count] == t.items;
    n.tree, n.Repr := t, Shell(n) + Footprint(n.m_branch[..n.m_count]);
  }
}
