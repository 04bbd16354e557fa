/**
  The tree as its callers see it: one object that owns its nodes, with the operations of
  the interface proved against runs on tree values.
 */
module RTrees {
  import opened Params
  import opened Rects
  import opened Trees
  import opened Nodes
  import opened FileStreams
  import opened Storage
  import C = Copying
  import D = Removal
  import I = Inserts
  import J = Joins
  import K = JoinCounts
  import N = Insertion
  import Q = Queries
  import R = Removes
  import Readers
  import opened Runs

  class RTree {
    var m_root: Node
    const mem: Memory

    /** Every node that is allocated can be reached, and every node that can be reached is allocated. */
    ghost predicate Valid()
      reads Reach()
    {
      && m_root.Valid() && WellFormed(m_root.tree)
      && mem.live == m_root.Repr && mem !in m_root.Repr && this !in m_root.Repr
    }

    ghost function Reach(): set<object>
      reads this, mem, m_root
    {
      {this, mem, m_root} + m_root.Repr
    }

    ghost function View(): Tree
      reads this, m_root
    {
      m_root.tree
    }

    constructor ()
      ensures Valid() && fresh(Reach()) && View() == EMPTY
    {
      var ledger := new Memory();
      var root := EmptyRoot(ledger);
      mem, m_root := ledger, root;
    }

    /** The copy constructor. */
    constructor Copy(other: RTree)
      requires other.Valid()
      ensures Valid() && fresh(Reach()) && View() == other.View()
    {
      hide Node.Valid, WellFormed;
      var ledger := new Memory();
      var root := EmptyRoot(ledger);
      C.CopyRec(ledger, root, other.m_root);
      mem, m_root := ledger, root;
    }

    /** The destructor frees every node. */
    method Destroy()
      requires Valid()
      modifies mem
      ensures mem.live == {}
    {
      C.RemoveAllRec(mem, m_root);
    }

    method Insert(a_rect: Rect, a_dataId: Id)
      requires Valid() && Proper(a_rect)
      modifies Reach()
      ensures Valid() && fresh(Reach() - old(Reach()))
      ensures View() == I.Insert(old(View()), Entry(a_rect, a_dataId))
    {
      hide ForestOk, Footprint, Kids, Mirrors, Body, Bag, I.InsertRect, Node.Valid;
      var branch := Branch(a_rect, null, a_dataId);
      DataBranch(branch);
      RootIsLoose(View());
      NodeFacts(m_root);
      var _, newRoot := N.InsertRect(mem, branch, m_root, 0);
      m_root := newRoot;
    }

    method Remove(a_rect: Rect, a_dataId: Id)
      requires Valid()
      modifies Reach()
      ensures Valid() && fresh(Reach() - old(Reach()))
      ensures View() == R.RemoveRect(old(View()), a_rect, a_dataId).0
    {
      hide WellFormed, Bag, Node.Valid, R.RemoveRect;
      var _, newRoot := D.RemoveRect(mem, a_rect, a_dataId, m_root);
      NothingElse(mem.live, newRoot.Repr);
      m_root := newRoot;
    }

    method RemoveAll()
      requires Valid()
      modifies this, mem
      ensures Valid() && fresh(Reach() - old(Reach())) && View() == EMPTY && m_root.Repr == Shell(m_root)
    {
      C.RemoveAllRec(mem, m_root);
      m_root := EmptyRoot(mem);
    }

    method Count() returns (count: int)
      requires Valid()
      ensures count == |Entries(View())|
    {
      count := Readers.CountRec(m_root, 0);
    }

    /** The callback sees the entries a linear scan would find, until it objects. */
    method Search(a_rect: Rect, callback: Q.Callback) returns (foundCount: nat, told: seq<Id>)
      requires Valid()
      ensures Reply(View(), Runs.Search(a_rect, callback)) == Found(foundCount, told)
    {
      hide Node.Valid, Body, Q.Hits, Q.Deliver, Rects.Overlaps;
      RootIsLoose(View());
      var goOn;
      goOn, foundCount, told := Readers.Search(m_root, a_rect, 0, callback, []);
    }

    /** The join with another tree, or with this one. */
    method Overlaps(other: RTree, a_result: set<(Id, Id)>) returns (ovlpCnt: nat, result: set<(Id, Id)>)
      requires Valid() && other.Valid()
      ensures forall p :: p in result <==> p in a_result || J.Meet(View(), other.View(), p)
      ensures var pairs := J.Cross(Entries(View()), Entries(other.View()));
        && |pairs| <= ovlpCnt && (ovlpCnt == 0 <==> pairs == multiset{})
        && (ovlpCnt == |pairs| <==> K.Once(View(), other.View()))
    {
      hide Node.Valid, Body, J.Join, J.Cross, J.Meet, Entries, J.IdPairs, K.Once;
      RootIsLoose(View());
      RootIsLoose(other.View());
      J.JoinIsExact(View(), other.View());
      J.IdPairsMeet(View(), other.View());
      K.CountIsExactIffOnce(View(), other.View());
      ovlpCnt, result := Readers.CheckNodes(m_root, other.m_root, a_result);
    }

    method SaveTo(stream: RTFileStream) returns (result: bool)
      requires Valid() && stream !in Reach()
      modifies stream`tokens
      ensures result && stream.tokens == old(stream.tokens) + FileTokens(View())
    {
      result := FileStreams.Save(m_root, stream);
    }

    /**
      Load from a stream goes into the root as it is.  Children the root already has are not
      freed: afterwards no node is lost exactly when the tree was a single leaf.
     */
    method LoadStream(stream: RTFileStream, ghost t: Tree, ghost tail: seq<Token>) returns (result: bool)
      requires Valid() && WellFormed(t) && stream !in Reach()
      requires Numbers(HEADER) <= stream.Rest() ==> stream.Rest() == FileTokens(t) + tail
      modifies mem, m_root, m_root.m_branch, stream`pos
      ensures result <==> Numbers(HEADER) <= old(stream.Rest())
      ensures !result ==> Valid() && View() == old(View())
      ensures result ==> m_root.Valid() && View() == t && stream.Rest() == tail
      ensures result ==> mem.live - m_root.Repr == old(m_root.Repr) - Shell(m_root)
      ensures result ==> m_root.Repr <= mem.live && (mem.live == m_root.Repr <==> old(View()).level == 0)
      ensures result ==> (Valid() <==> old(View()).level == 0)
      ensures fresh(m_root.Repr - old(m_root.Repr))
    {
      hide ForestOk, Footprint, Kids, Mirrors, Body, TreeTokens, RTFileStream.Rest;
      result := ReadHeader(stream);
      if result {
        ghost var before := m_root.Repr;
        LeafOwnsItself(m_root);
        LoadRec(mem, m_root, stream, t, tail);
        assert mem.live == before + m_root.Repr && m_root.Repr * before == Shell(m_root);
        Leftover(mem.live, m_root.Repr, before, Shell(m_root));
      }
    }

    /** Load by name clears the tree first, whether or not the header is accepted. */
    method Load(stream: RTFileStream, ghost t: Tree, ghost tail: seq<Token>) returns (result: bool)
      requires Valid() && WellFormed(t) && stream !in Reach()
      requires Numbers(HEADER) <= stream.Rest() ==> stream.Rest() == FileTokens(t) + tail
      modifies Reach(), stream`pos
      ensures Valid() && fresh(Reach() - old(Reach()))
      ensures result <==> Numbers(HEADER) <= old(stream.Rest())
      ensures View() == if result then t else EMPTY
      ensures result ==> stream.Rest() == tail
    {
      hide Node.Valid, WellFormed, FileTokens, RTFileStream.Rest;
      RemoveAll();
      result := LoadStream(stream, t, tail);
    }

    // -------------------------------------------------------------- runs

    /** One operation on the object is the same step on its value, with the same answer. */
    method Apply(op: Op) returns (answer: Answer)
      requires Valid() && Legal(op)
      modifies Reach()
      ensures Valid() && fresh(Reach() - old(Reach()))
      ensures View() == Step(old(View()), op) && answer == Reply(old(View()), op)
    {
      hide WellFormed, Node.Valid, I.Insert, R.RemoveRect, Bag;
      answer := Done;
      match op
      case Insert(e) => Insert(e.rect, e.id);
      case Remove(rect, id) => Remove(rect, id);
      case RemoveAll => RemoveAll();
      case Count =>
        var n := Count();
        answer := Counted(n);
      case Search(rect, callback) =>
        var n, told := Search(rect, callback);
        answer := Found(n, told);
    }

    /** A whole run on the object is the run on its value. */
    method Replay(ops: seq<Op>) returns (answers: seq<Answer>)
      requires Valid() && AllLegal(ops)
      modifies Reach()
      ensures Valid() && fresh(Reach() - old(Reach()))
      ensures View() == Run(old(View()), ops) && answers == Replies(old(View()), ops)
    {
      hide WellFormed, Node.Valid, Step, Reply, Legal;
      answers := [];
      for i := 0 to |ops|
        invariant Valid() && fresh(Reach() - old(Reach()))
        invariant View() == Run(old(View()), ops[..i]) && answers == Replies(old(View()), ops[..i])
      {
        assert ops[..i + 1][..i] == ops[..i];
        var a := Apply(ops[i]);
        answers := answers + [a];
      }
      assert ops[..|ops|] == ops;
    }
  }

  /** Only a leaf owns no other node. */
  lemma LeafOwnsItself(n: Node)
    requires n.Valid() && WellFormed(n.tree)
    ensures n.Repr == Shell(n) <==> n.tree.level == 0
  {
    hide Body;
    NodeFacts(n);
    if n.m_level == 0 {
      C.LeafOwnsNothing(n.m_branch[..n.m_count]);
    } else {
      ForestApart(n.m_branch[..n.m_count], n.m_level, 0);
      SlotFacts(n, 0);
      assert n.m_branch[0].m_child in n.Repr - Shell(n);
    }
  }

  /** A leaf without entries. */
  method EmptyRoot(mem: Memory) returns (root: Node)
    requires mem.live == {}
    modifies mem
    ensures fresh(root.Repr) && root.Valid() && root.tree == EMPTY && root.Repr == Shell(root)
    ensures mem.live == root.Repr
  {
    root := mem.AllocNode();
    root.m_level := 0;
    Begin(root);
  }

  lemma NothingElse(live: set<object>, repr: set<object>)
    requires live - repr == {} && repr <= live
    ensures live == repr
  {
    forall x | x in live
      ensures x in repr
    {
      assert x !in live - repr;
    }
  }

  /** What a load leaves allocated and out of reach. */
  lemma Leftover(live: set<object>, repr: set<object>, before: set<object>, shell: set<object>)
    requires live == before + repr && repr * before == shell
    ensures live - repr == before - shell
    ensures live == repr <==> before == shell
  {
    forall x | x in before
      ensures x in repr <==> x in shell
    {
      assert x in repr * before <==> x in repr;
    }
    if before == shell {
      assert shell <= repr by {
        assert repr * before <= repr;
      }
    }
    if live == repr {
      assert before <= repr;
    }
  }

  lemma DataBranch(b: Branch)
    requires b.m_child == null && Proper(b.m_rect)
    ensures BranchOk(b, 0) && Owned(b) == {} && ItemOf(b) == Data(b.m_rect, b.m_data) && ItemOk(ItemOf(b), 0)
  {
  }

  lemma RootIsLoose(t: Tree)
    requires WellFormed(t)
    ensures Loose(t) && Body(t)
  {
  }

  // ---------------------------------------------------------------- across trees

  /**
    A copy and its original go separate ways: what is done to either of them afterwards
    leaves the contents, and so all later answers, of the other as they would have been.
   */
  method Diverge(original: RTree, ops: seq<Op>, copyOps: seq<Op>)
      returns (copy: RTree, answers: seq<Answer>, copyAnswers: seq<Answer>)
    requires original.Valid() && AllLegal(ops) && AllLegal(copyOps)
    modifies original.Reach()
    ensures original.Valid() && copy.Valid() && original.Reach() !! copy.Reach()
    ensures original.View() == Run(old(original.View()), ops)
    ensures copy.View() == Run(old(original.View()), copyOps)
    ensures answers == Replies(old(original.View()), ops) && copyAnswers == Replies(old(original.View()), copyOps)
  {
    hide Node.Valid, WellFormed, Run, Replies, AllLegal, RTree.Valid;
    copy := new RTree.Copy(original);
    copyAnswers := copy.Replay(copyOps);
    answers := original.Replay(ops);
  }

  /** What was saved is loaded again, into any tree and from any place in a stream. */
  method SaveAndLoad(saved: RTree, loaded: RTree, later: seq<Token>) returns (result: bool, stream: RTFileStream)
    requires saved.Valid() && loaded.Valid() && saved.Reach() !! loaded.Reach()
    modifies loaded.Reach()
    ensures saved.Valid() && loaded.Valid()
    ensures result && loaded.View() == saved.View() == old(saved.View())
    ensures stream.Rest() == later
  {
    hide Node.Valid, WellFormed, TreeTokens, Numbers;
    stream := new RTFileStream([]);
    result := saved.SaveTo(stream);
    stream := new RTFileStream(stream.tokens + later);
    assert Numbers(HEADER) <= stream.Rest();
    result := loaded.Load(stream, saved.View(), later);
  }

  lemma LeafHoldsFew(t: Tree)
    requires WellFormed(t) && t.level == 0
    ensures |Entries(t)| <= MAX
  {
    LeafEntries(t, |t.items|);
    assert t.items[..|t.items|] == t.items;
  }

  lemma {:induction false} LeafEntries(t: Tree, n: nat)
    requires Body(t) && t.level == 0 && n <= |t.items|
    ensures |EntriesOf(t.items[..n])| == n
    decreases n
  {
    if n > 0 {
      LeafEntries(t, n - 1);
      R.LeafSlot(t, n - 1);
      J.EntriesUpTo(t.items, n);
    }
  }

  /** Loading from a stream into a tree that has grown past one leaf loses nodes. */
  method LoadLosesNodes() returns (loaded: RTree)
    ensures loaded.m_root.Valid() && loaded.View() == EMPTY
    ensures !loaded.Valid() && loaded.m_root.Repr < loaded.mem.live
  {
    hide Node.Valid, WellFormed, I.Insert, TreeTokens, Numbers, Entries;
    var tree := new RTree();
    BagSize(EMPTY);
    for i := 0 to MAX + 1
      invariant tree.Valid() && fresh(tree.Reach()) && |Entries(tree.View())| == i
    {
      BagSize(tree.View());
      tree.Insert(Point(0.0), i);
      BagSize(tree.View());
    }
    if tree.View().level == 0 {
      LeafHoldsFew(tree.View());
    }
    var stream := new RTFileStream(FileTokens(EMPTY));
    EmptyIsEmpty();
    assert FileTokens(EMPTY) == FileTokens(EMPTY) + [];
    var result := tree.LoadStream(stream, EMPTY, []);
    loaded := tree;
  }

  lemma BagSize(t: Tree)
    ensures |Bag(t)| == |Entries(t)| && Entries(EMPTY) == []
  {
  }
}
