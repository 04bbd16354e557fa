/**
  Saving a tree to a stream and loading it back.
 */
module FileStreams {
  import opened Params
  import opened Rects
  import opened Trees
  import opened Nodes
  import opened Storage

  /** A stream of tokens; a read of the wrong kind, or at the end, leaves the variable alone. */
  class RTFileStream {
    var tokens: seq<Token>
    var pos: nat

    ghost function Rest(): seq<Token>
      reads this
    {
      if pos <= |tokens| then tokens[pos..] else []
    }

    constructor (content: seq<Token>)
      ensures tokens == content && pos == 0 && Rest() == content
    {
      tokens, pos := content, 0;
    }

    method Write(t: Token)
      modifies this`tokens
      ensures tokens == old(tokens) + [t]
    {
      tokens := tokens + [t];
    }

    method ReadNumber(value: int) returns (v: int)
      modifies this`pos
      ensures if old(Rest()) != [] && old(Rest())[0].Number?
              then v == old(Rest())[0].n && Rest() == old(Rest())[1..]
              else v == value && Rest() == old(Rest())
    {
      v := value;
      if pos < |tokens| && tokens[pos].Number? {
        v, pos := tokens[pos].n, pos + 1;
      }
    }

    method ReadCoordinates(value: Vec) returns (v: Vec)
      modifies this`pos
      ensures if old(Rest()) != [] && old(Rest())[0].Coordinates?
              then v == old(Rest())[0].v && Rest() == old(Rest())[1..]
              else v == value && Rest() == old(Rest())
    {
      v := value;
      if pos < |tokens| && tokens[pos].Coordinates? {
        v, pos := tokens[pos].v, pos + 1;
      }
    }

    method ReadData(value: Id) returns (v: Id)
      modifies this`pos
      ensures if old(Rest()) != [] && old(Rest())[0].DataId?
              then v == old(Rest())[0].id && Rest() == old(Rest())[1..]
              else v == value && Rest() == old(Rest())
    {
      v := value;
      if pos < |tokens| && tokens[pos].DataId? {
        v, pos := tokens[pos].id, pos + 1;
      }
    }
  }

  // ---------------------------------------------------------------- saving

  method SaveRec(n: Node, stream: RTFileStream)
    requires n.Valid() && stream !in n.Repr
    modifies stream`tokens
    ensures stream.tokens == old(stream.tokens) + TreeTokens(n.tree)
    decreases n.m_level
  {
    hide ForestOk, BranchOk, Kids, Footprint, Mirrors, ItemsTokens, ItemTokens;
    ghost var t := n.tree;
    MirrorsLength(t.items, n.m_branch[..n.m_count]);
    ItemsTokensNone(t.items);
    assert t.items[..n.m_count] == t.items;
    stream.Write(Number(n.m_level));
    stream.Write(Number(n.m_count));
    ghost var head := old(stream.tokens) + [Number(t.level), Number(|t.items|)];
    for index := 0 to n.m_count
      invariant stream.tokens == head + ItemsTokens(t.items[..index])
    {
      ItemsTokensStep(t.items, index);
      SaveSlot(n, index, stream);
    }
  }

  /** One slot of SaveRec. */
  method SaveSlot(n: Node, index: int, stream: RTFileStream)
    requires n.Valid() && stream !in n.Repr && 0 <= index < n.m_count == |n.tree.items|
    modifies stream`tokens
    ensures stream.tokens == old(stream.tokens) + ItemTokens(n.tree.items[index])
    decreases n.m_level, 0
  {
    hide ForestOk, BranchOk, Kids, Footprint, Mirrors, TreeTokens;
    SlotFacts(n, index);
    var curBranch := n.m_branch[index];
    stream.Write(Coordinates(curBranch.m_rect.min));
    stream.Write(Coordinates(curBranch.m_rect.max));
    if n.IsInternalNode() {
      SaveRec(curBranch.m_child, stream);
    } else {
      stream.Write(DataId(curBranch.m_data));
    }
  }

  method Save(root: Node, stream: RTFileStream) returns (result: bool)
    requires root.Valid() && stream !in root.Repr
    modifies stream`tokens
    ensures result && stream.tokens == old(stream.tokens) + FileTokens(root.tree)
    ensures stream.tokens == old(stream.tokens)
      + [Number(0x4552_5452), Number(DATA_SIZE), Number(DIM), Number(ELEMENT_SIZE), Number(REAL_SIZE),
         Number(MAX), Number(MIN)]
      + TreeTokens(root.tree)
  {
    for index := 0 to 7
      invariant stream.tokens == old(stream.tokens) + Numbers(HEADER)[..index]
    {
      stream.Write(Number(HEADER[index]));
    }
    assert Numbers(HEADER)[..7] == Numbers(HEADER);
    SaveRec(root, stream);
    result := true;
  }

  // ---------------------------------------------------------------- loading

  method LoadRec(mem: Memory, n: Node, stream: RTFileStream, ghost t: Tree, ghost tail: seq<Token>)
    requires Body(t) && stream.Rest() == TreeTokens(t) + tail
    requires n.m_branch.Length == MAX && mem.Holds(Shell(n))
    modifies mem, n, n.m_branch, stream`pos
    ensures n.Valid() && n.tree == t && stream.Rest() == tail
    ensures Shell(n) <= n.Repr && fresh(n.Repr - Shell(n))
    ensures mem.live == old(mem.live) + n.Repr
    decreases t.level, 1
  {
    hide ForestOk, BranchOk, ItemOf, Owned, Kids, Footprint, Mirrors, Body, ItemsTokens, TreeTokens, RTFileStream.Rest;
    TreeTokensHead(t, tail);
    n.m_level := stream.ReadNumber(n.m_level);
    n.m_count := stream.ReadNumber(n.m_count);
    FilledNone(n, t.level, t.items);
    for index := 0 to n.m_count
      invariant n.m_level == t.level && n.m_count == |t.items|
      invariant stream.Rest() == ItemsTokens(t.items[index..]) + tail
      invariant Filled(n, t.level, t.items, index)
      invariant fresh(Footprint(n.m_branch[..index]))
      invariant mem.live == old(mem.live) + Footprint(n.m_branch[..index])
    {
      LoadSlot(mem, n, stream, t, index, tail);
    }
    ItemsTokensNone(t.items);
    Complete(n, t);
  }

  lemma ItemsTokensNone(items: seq<Item>)
    ensures ItemsTokens(items[|items|..]) == [] && ItemsTokens(items[..0]) == []
  {
  }

  lemma ItemsTokensStep(items: seq<Item>, k: nat)
    requires k < |items|
    ensures ItemsTokens(items[..k + 1]) == ItemsTokens(items[..k]) + ItemTokens(items[k])
  {
    assert items[..k + 1][..k] == items[..k];
  }

  lemma TreeTokensHead(t: Tree, tail: seq<Token>)
    requires Body(t)
    ensures var r := TreeTokens(t) + tail;
      && |r| >= 2 && r[0] == Number(t.level) && r[1] == Number(|t.items|)
      && r[1..][1..] == ItemsTokens(t.items[0..]) + tail && |t.items| <= MAX
  {
    assert t.items[0..] == t.items;
  }

  /** One slot of LoadRec. */
  method LoadSlot(mem: Memory, n: Node, stream: RTFileStream, ghost t: Tree, index: int, ghost tail: seq<Token>)
    requires 0 <= index < |t.items| <= MAX && Body(t) && stream.Rest() == ItemsTokens(t.items[index..]) + tail
    requires n.m_branch.Length == MAX && n.m_level == t.level
    requires Filled(n, t.level, t.items, index) && mem.Holds(Shell(n) + Footprint(n.m_branch[..index]))
    requires stream !in Footprint(n.m_branch[..index])
    modifies mem, n.m_branch, stream`pos
    ensures Filled(n, t.level, t.items, index + 1)
    ensures stream.Rest() == ItemsTokens(t.items[index + 1..]) + tail
    ensures var more := Footprint(n.m_branch[..index + 1]);
      && old(Footprint(n.m_branch[..index])) <= more
      && fresh(more - old(Footprint(n.m_branch[..index])))
      && mem.live == old(mem.live) + more
    decreases t.level, 0, 1
  {
    hide ForestOk, BranchOk, ItemOf, Kids, Footprint, Mirrors, Body, ItemsTokens, RTFileStream.Rest;
    ghost var rest, before := ItemsTokens(t.items[index + 1..]) + tail, n.m_branch[..index];
    var b := LoadBranch(mem, stream, n.IsInternalNode(), n.m_branch[index], t, index, tail, rest);
    n.m_branch[index] := b;
    assert n.m_branch[..index] == before;
    FilledStep(n, t.level, t.items, index);
  }

  /** What LoadRec puts into a slot: a box, and below it a new subtree or an id. */
  method LoadBranch(mem: Memory, stream: RTFileStream, deeper: bool, slot: Branch, ghost t: Tree, ghost k: nat,
                    ghost tail: seq<Token>, ghost rest: seq<Token>) returns (b: Branch)
    requires k < |t.items| && Body(t) && deeper == (t.level > 0)
    requires stream.Rest() == ItemsTokens(t.items[k..]) + tail && rest == ItemsTokens(t.items[k + 1..]) + tail
    requires mem.Holds({})
    modifies mem, stream`pos
    ensures BranchOk(b, t.level) && ItemOf(b) == t.items[k] && fresh(Owned(b))
    ensures b.m_child != null ==> fresh(b.m_child)
    ensures stream.Rest() == rest && mem.live == old(mem.live) + Owned(b)
    decreases t.level, 0, 0
  {
    hide ForestOk, Kids, Footprint, Mirrors, Body, ItemsTokens, TreeTokens, RTFileStream.Rest;
    SlotTokens(t, k, rest, tail);
    var lo := stream.ReadCoordinates(slot.m_rect.min);
    var hi := stream.ReadCoordinates(slot.m_rect.max);
    if deeper {
      var child := mem.AllocNode();
      LoadRec(mem, child, stream, t.items[k].child, rest);
      b := Branch(Rect(lo, hi), child, slot.m_data);
    } else {
      var id := stream.ReadData(slot.m_data);
      b := Branch(Rect(lo, hi), null, id);
    }
  }

  lemma SlotTokens(t: Tree, k: nat, rest: seq<Token>, tail: seq<Token>)
    requires Body(t) && k < |t.items| && rest == ItemsTokens(t.items[k + 1..]) + tail
    ensures var r := ItemsTokens(t.items[k..]) + tail; var it := t.items[k];
      && |r| >= 2 && r[0] == Coordinates(it.rect.min) && r[1] == Coordinates(it.rect.max)
      && (t.level > 0 ==>
            it.Sub? && it.child.level == t.level - 1 && Body(it.child) && r[1..][1..] == TreeTokens(it.child) + rest)
      && (t.level == 0 ==> it.Data? && |r| >= 3 && r[2] == DataId(it.id) && r[1..][1..][1..] == rest)
  {
    hide ItemsTokens;
    ItemsTokensFront(t.items, k);
    Regroup(ItemTokens(t.items[k]), ItemsTokens(t.items[k + 1..]), tail);
    assert ItemOk(t.items[k], t.level);
  }

  /** The header test of Load: it passes exactly when the stream starts with this tree's header. */
  method ReadHeader(stream: RTFileStream) returns (compatible: bool)
    modifies stream`pos
    ensures compatible <==> Numbers(HEADER) <= old(stream.Rest())
    ensures compatible ==> stream.Rest() == old(stream.Rest())[7..]
  {
    hide RTFileStream.Rest;
    ghost var r := stream.Rest();
    var dataFileId := stream.ReadNumber(0);
    var dataSize := stream.ReadNumber(0);
    var dataNumDims := stream.ReadNumber(0);
    var dataElemSize := stream.ReadNumber(0);
    var dataElemRealSize := stream.ReadNumber(0);
    var dataMaxNodes := stream.ReadNumber(0);
    var dataMinNodes := stream.ReadNumber(0);
    compatible := dataFileId == FILE_ID && dataSize == DATA_SIZE && dataNumDims == DIM
      && dataElemSize == ELEMENT_SIZE && dataElemRealSize == REAL_SIZE
      && dataMaxNodes == MAX && dataMinNodes == MIN;
  }
}
