/**
  Whole runs: any sequence of operations on a tree behaves as one on a multiset of entries.
 */
module Runs {
  import opened Params
  import opened Rects
  import opened Trees
  import I = Inserts
  import L = Descents
  import R = Removes
  import Q = Queries

  const EMPTY := Tree(0, [])

  datatype Op =
    | Insert(e: Entry)
    | Remove(rect: Rect, id: Id)
    | RemoveAll
    | Count
    | Search(rect: Rect, callback: Q.Callback)

  datatype Answer =
    | Done
    | Counted(n: nat)
    | Found(n: nat, told: seq<Id>)

  /** The debug assertions of Insert; nothing else is asked of a caller. */
  ghost predicate Legal(op: Op) {
    op.Insert? ==> Proper(op.e.rect)
  }

  function Step(t: Tree, op: Op): (r: Tree)
    requires WellFormed(t) && Legal(op)
    ensures WellFormed(r)
  {
    match op
    case Insert(e) => I.Insert(t, e)
    case Remove(rect, id) => R.RemoveRect(t, rect, id).0
    case RemoveAll => EMPTY
    case Count => t
    case Search(_, _) => t
  }

  function Reply(t: Tree, op: Op): Answer
  {
    match op
    case Count => Counted(|Entries(t)|)
    case Search(rect, cb) =>
      var s := Q.Deliver(Q.Hits(rect, Entries(t)), cb, Q.START);
      Found(s.found, s.told)
    case _ => Done
  }

  ghost predicate AllLegal(ops: seq<Op>) {
    forall i | 0 <= i < |ops| :: Legal(ops[i])
  }

  /** The tree after all operations. */
  function Run(t: Tree, ops: seq<Op>): (r: Tree)
    requires WellFormed(t) && AllLegal(ops)
    ensures WellFormed(r)
    decreases |ops|
  {
    if ops == [] then t else Step(Run(t, ops[..|ops| - 1]), ops[|ops| - 1])
  }

  function Replies(t: Tree, ops: seq<Op>): (rs: seq<Answer>)
    requires WellFormed(t) && AllLegal(ops)
    ensures |rs| == |ops|
    decreases |ops|
  {
    if ops == [] then []
    else
      var n := |ops| - 1;
      Replies(t, ops[..n]) + [Reply(Run(t, ops[..n]), ops[n])]
  }

  // ---------------------------------------------------------------- the abstract multiset

  /** The entries of `m` that overlap `q`, in some order. */
  ghost predicate Lists(es: seq<Entry>, q: Rect, m: multiset<Entry>) {
    forall e :: multiset(es)[e] == if Overlaps(q, e.rect) then m[e] else 0
  }

  /** One operation on a multiset of entries, with its answer. */
  ghost predicate Allowed(m: multiset<Entry>, op: Op, m': multiset<Entry>, a: Answer) {
    match op
    case Insert(e) => m' == m + multiset{e} && a == Done
    case Remove(rect, id) =>
      && a == Done
      && ((m' == m && forall e | e in m :: e.id == id ==> !Overlaps(rect, e.rect))
          || (exists v | v in m && v.id == id :: m' == m - multiset{v}))
    case RemoveAll => m' == multiset{} && a == Done
    case Count => m' == m && a == Counted(|m|)
    case Search(q, cb) =>
      && m' == m
      && exists es | Lists(es, q, m) ::
           var s := Q.Deliver(es, cb, Q.START);
           a == Found(s.found, s.told)
  }

  lemma ListsOneMore(es: seq<Entry>, q: Rect, m: multiset<Entry>, x: Entry)
    requires Lists(es, q, m)
    ensures Lists(if Overlaps(q, x.rect) then es + [x] else es, q, m + multiset{x})
  {
    hide Overlaps;
  }

  /** A linear scan finds exactly the overlapping entries, each as often as it is stored. */
  lemma {:induction false} HitsList(q: Rect, es: seq<Entry>)
    ensures Lists(Q.Hits(q, es), q, multiset(es))
    decreases |es|
  {
    hide Overlaps;
    if es != [] {
      hide Lists;
      var n := |es| - 1;
      var front, last := es[..n], es[n];
      assert es == front + [last] && es[n..] == [last];
      HitsList(q, front);
      ListsOneMore(Q.Hits(q, front), q, multiset(front), last);
    }
  }

  lemma StepIsAllowed(t: Tree, op: Op)
    requires WellFormed(t) && Legal(op)
    ensures Allowed(Bag(t), op, Bag(Step(t, op)), Reply(t, op))
  {
    match op
    case Insert(e) =>
    case Remove(rect, id) => RemovalIsAllowed(t, rect, id);
    case RemoveAll =>
    case Count =>
    case Search(q, cb) => HitsList(q, Entries(t));
  }

  lemma RemovalIsAllowed(t: Tree, rect: Rect, id: Id)
    requires WellFormed(t)
    ensures Allowed(Bag(t), Remove(rect, id), Bag(R.RemoveRect(t, rect, id).0), Done)
  {
    hide WellFormed, Overlaps, R.RemoveRect, R.Reached, Entries;
    R.RemoveIsExact(t, rect, id);
    var (t', gone) := R.RemoveRect(t, rect, id);
    if gone != [] {
      var v := gone[0];
      assert gone == [v] && v.id == id;
      assert v in Bag(t) && Bag(t') == Bag(t) - multiset{v};
    } else {
      forall e | e in Bag(t) && e.id == id
        ensures !Overlaps(rect, e.rect)
      {
        assert e in Entries(t);
      }
    }
  }

  /** The multisets a run passes through. */
  ghost predicate Simulates(m: multiset<Entry>, ops: seq<Op>, answers: seq<Answer>, m': multiset<Entry>)
    requires |ops| == |answers|
    decreases |ops|
  {
    if ops == [] then m' == m
    else
      var n := |ops| - 1;
      exists k :: Simulates(m, ops[..n], answers[..n], k) && Allowed(k, ops[n], m', answers[n])
  }

  /**
    Refinement: whatever sequence of operations is run from a well-formed tree, the answers
    and the final contents are those of a run on the multiset of its entries.
   */
  lemma {:induction false} RunRefinesMultiset(t: Tree, ops: seq<Op>)
    requires WellFormed(t) && AllLegal(ops)
    ensures Simulates(Bag(t), ops, Replies(t, ops), Bag(Run(t, ops)))
    decreases |ops|
  {
    hide WellFormed, Bag, Step, Reply, Allowed;
    if ops != [] {
      var n := |ops| - 1;
      RunRefinesMultiset(t, ops[..n]);
      StepIsAllowed(Run(t, ops[..n]), ops[n]);
      assert Replies(t, ops)[..n] == Replies(t, ops[..n]);
    }
  }

  /** In every reachable state all boxes are tight, and the height is logarithmic in the entries. */
  lemma ReachableTreesAreTight(ops: seq<Op>)
    requires AllLegal(ops)
    ensures var t := Run(EMPTY, ops);
      TightBelow(t) && (t.level > 0 ==> |Entries(t)| >= 2 * Pow(MIN, t.level))
  {
    hide Step, TightBelow;
    var t := Run(EMPTY, ops);
    BoxesAreTight(t);
    if t.level > 0 {
      HeightIsLogarithmic(t);
    }
  }

  // ---------------------------------------------------------------- unique ids

  /** The tree holds exactly the entries of a table, each once. */
  ghost predicate Represents(m: map<Id, Rect>, b: multiset<Entry>) {
    forall e :: b[e] == if e.id in m && m[e.id] == e.rect then 1 else 0
  }

  /** A caller with unique ids: inserts new ones, and removes with a box touching the entry. */
  ghost predicate Disciplined(m: map<Id, Rect>, op: Op) {
    && Legal(op)
    && (op.Insert? ==> op.e.id !in m)
    && (op.Remove? ==> op.id in m && Overlaps(op.rect, m[op.id]))
  }

  function Table(m: map<Id, Rect>, op: Op): map<Id, Rect> {
    match op
    case Insert(e) => m[e.id := e.rect]
    case Remove(_, id) => m - {id}
    case RemoveAll => map[]
    case Count => m
    case Search(_, _) => m
  }

  lemma InBag(t: Tree)
    ensures forall e :: e in Bag(t) <==> e in Entries(t)
  {
  }

  lemma EmptyIsEmpty()
    ensures WellFormed(EMPTY) && Bag(EMPTY) == multiset{} && Represents(map[], Bag(EMPTY))
  {
  }

  /** For such a caller the tree is a table from ids to boxes. */
  lemma KeyedStep(t: Tree, m: map<Id, Rect>, op: Op)
    requires WellFormed(t) && Represents(m, Bag(t)) && Disciplined(m, op)
    ensures Represents(Table(m, op), Bag(Step(t, op)))
  {
    hide WellFormed, Overlaps, R.RemoveRect, I.Insert, Bag, Entries, EMPTY;
    EmptyIsEmpty();
    if op.Remove? {
      InBag(t);
      var e := Entry(m[op.id], op.id);
      assert Bag(t)[e] == 1;
      forall f | f in Entries(t) && f.id == e.id
        ensures f == e
      {
        assert f in Bag(t) && Bag(t)[f] > 0;
      }
      R.RemoveUnique(t, op.rect, e);
    }
  }

  ghost predicate AllDisciplined(m: map<Id, Rect>, ops: seq<Op>)
    decreases |ops|
  {
    ops == [] || (AllDisciplined(m, ops[..|ops| - 1])
                  && Disciplined(Tables(m, ops[..|ops| - 1]), ops[|ops| - 1]))
  }

  function Tables(m: map<Id, Rect>, ops: seq<Op>): map<Id, Rect>
    decreases |ops|
  {
    if ops == [] then m else Table(Tables(m, ops[..|ops| - 1]), ops[|ops| - 1])
  }

  lemma {:induction false} KeyedRun(ops: seq<Op>)
    requires AllDisciplined(map[], ops) && AllLegal(ops)
    ensures Represents(Tables(map[], ops), Bag(Run(EMPTY, ops)))
    decreases |ops|
  {
    hide WellFormed, Represents, Table, Step, Disciplined;
    EmptyIsEmpty();
    if ops != [] {
      KeyedRun(ops[..|ops| - 1]);
      KeyedStep(Run(EMPTY, ops[..|ops| - 1]), Tables(map[], ops[..|ops| - 1]), ops[|ops| - 1]);
    }
  }

  /** Then the count is the number of ids. */
  lemma {:induction false} TableSize(m: map<Id, Rect>, b: multiset<Entry>)
    requires Represents(m, b)
    ensures |b| == |m|
    decreases |m|
  {
    if id :| id in m {
      var e := Entry(m[id], id);
      assert b[e] == 1;
      var m', b' := m - {id}, b - multiset{e};
      assert m'.Keys == m.Keys - {id};
      TableSize(m', b');
    } else {
      assert forall id :: id !in m;
      assert m.Keys == {};
      assert forall e :: b[e] == 0;
      assert b == multiset{};
    }
  }

  // ---------------------------------------------------------------- what removal does not look at

  /** In a tree of a single leaf the query plays no part: the id alone decides. */
  lemma LeafRemovalIgnoresBoxes(t: Tree, r: Rect, id: Id)
    requires WellFormed(t) && t.level == 0
    ensures R.RemoveRect(t, r, id).1 == R.FirstWith(Entries(t), id)
  {
    R.RemoveIsExact(t, r, id);
    L.LeafReachesAll(t, r, 0);
    assert t.items[0..] == t.items;
  }

  /**
    What is removed overlaps the query if and only if the first entry with the id in the
    leaves reached does, if there is one.  It does whenever all stored ones with the id do.
   */
  lemma RemovedOverlapsIff(t: Tree, r: Rect, id: Id)
    requires WellFormed(t)
    ensures var gone, first := R.RemoveRect(t, r, id).1, R.FirstWith(R.Reached(r, t.items, 0), id);
      (gone != [] ==> Overlaps(r, gone[0].rect)) <==> (first == [] || Overlaps(r, first[0].rect))
    ensures (forall e | e in Entries(t) && e.id == id :: Overlaps(r, e.rect))
        ==> forall v | R.RemoveRect(t, r, id).1 == [v] :: Overlaps(r, v.rect)
  {
    hide WellFormed, Overlaps, R.RemoveRect, R.Reached, EntriesOf;
    R.RemoveIsExact(t, r, id);
    var first := R.FirstWith(R.Reached(r, t.items, 0), id);
    if first != [] {
      R.ReachedIsStored(r, t.items, 0, first[0]);
    }
  }

  function Point(x: real): Rect {
    Rect(seq(DIM, i => x), seq(DIM, i => x))
  }

  /** So removal may take an entry that the query does not even touch. */
  lemma RemovalNeedNotOverlap()
    ensures exists t: Tree, r: Rect, e: Entry | WellFormed(t) && R.RemoveRect(t, r, e.id).1 == [e] ::
              !Overlaps(r, e.rect)
  {
    var e := Entry(Point(0.0), 7);
    var t := Tree(0, [Data(e.rect, e.id)]);
    assert ItemOk(t.items[0], 0);
    assert WellFormed(t);
    LeafRemovalIgnoresBoxes(t, Point(1.0), e.id);
    assert Entries(t) == [e] by {
      EntriesOfOne(t.items[0]);
    }
    assert R.RemoveRect(t, Point(1.0), e.id).1 == [e];
    assert !Overlaps(Point(1.0), e.rect) by {
      assert Point(1.0).min[0] > e.rect.max[0];
    }
  }
}
