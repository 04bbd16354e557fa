/**
  The stored form of a tree: a sequence of typed tokens, written front to back.
 */
module Storage {
  import opened Params
  import opened Rects
  import opened Trees

  /** What one call of Write or WriteArray puts into the stream. */
  datatype Token =
    | Number(n: int)
    | Coordinates(v: Vec)
    | DataId(id: Id)

  function TreeTokens(t: Tree): seq<Token>
    decreases t, 1
  {
    [Number(t.level), Number(|t.items|)] + ItemsTokens(t.items)
  }

  function ItemsTokens(items: seq<Item>): seq<Token>
    decreases items
  {
    if items == [] then [] else ItemsTokens(items[..|items| - 1]) + ItemTokens(items[|items| - 1])
  }

  function ItemTokens(it: Item): seq<Token>
    decreases it, 0
  {
    match it
    case Data(r, id) => [Coordinates(r.min), Coordinates(r.max), DataId(id)]
    case Sub(r, c) => [Coordinates(r.min), Coordinates(r.max)] + TreeTokens(c)
  }

  /** Item tokens seen from the front. */
  lemma {:induction false} ItemsTokensFront(items: seq<Item>, k: nat)
    requires k < |items|
    ensures ItemsTokens(items[k..]) == ItemTokens(items[k]) + ItemsTokens(items[k + 1..])
    decreases |items|
  {
    var n := |items| - 1;
    if k == n {
      assert items[k..] == [items[k]] && items[k + 1..] == [] && [items[k]][..0] == [];
    } else {
      ItemsTokensFront(items[..n], k);
      assert items[k..][..n - k] == items[..n][k..];
      assert items[k + 1..][..n - k - 1] == items[..n][k + 1..];
    }
  }

  /** What is stored for a node, seen from slot `k`: level, count, and for the slot its box and what is below. */
  lemma StoredSlot(t: Tree, k: nat)
    requires Body(t) && k < |t.items|
    ensures t.items[k].Data? <==> t.level == 0
    ensures var it := t.items[k];
      TreeTokens(t) == [Number(t.level), Number(|t.items|)] + ItemsTokens(t.items[..k])
                       + ([Coordinates(it.rect.min), Coordinates(it.rect.max)]
                          + (if it.Data? then [DataId(it.id)] else TreeTokens(it.child)))
                       + ItemsTokens(t.items[k + 1..])
  {
    hide ItemsTokens;
    assert ItemOk(t.items[k], t.level);
    ItemsTokensSplit(t.items, k);
    ItemsTokensFront(t.items, k);
  }

  lemma {:induction false} ItemsTokensSplit(items: seq<Item>, k: nat)
    requires k <= |items|
    ensures ItemsTokens(items) == ItemsTokens(items[..k]) + ItemsTokens(items[k..])
    decreases |items|
  {
    hide ItemTokens;
    var n := |items| - 1;
    if k == |items| {
      assert items[..k] == items && items[k..] == [];
    } else {
      ItemsTokensSplit(items[..n], k);
      assert items[..n][..k] == items[..k] && items[k..][..n - k] == items[..n][k..];
    }
  }

  /** The stored form of a leaf, token by token. */
  lemma {:induction false} StoredLeaf(t: Tree)
    requires Body(t) && t.level == 0
    ensures var s, n := TreeTokens(t), |t.items|;
      && |s| == 2 + 3 * n && s[0] == Number(0) && s[1] == Number(n)
      && forall i | 0 <= i < n ::
           && t.items[i].Data?
           && s[2 + 3 * i] == Coordinates(t.items[i].rect.min) && s[3 + 3 * i] == Coordinates(t.items[i].rect.max)
           && s[4 + 3 * i] == DataId(t.items[i].id)
  {
    LeafTokens(t, |t.items|);
    assert t.items[..|t.items|] == t.items;
  }

  lemma {:induction false} LeafTokens(t: Tree, n: nat)
    requires Body(t) && t.level == 0 && n <= |t.items|
    ensures var s := ItemsTokens(t.items[..n]);
      && |s| == 3 * n
      && forall i | 0 <= i < n ::
           && t.items[i].Data?
           && s[3 * i] == Coordinates(t.items[i].rect.min) && s[3 * i + 1] == Coordinates(t.items[i].rect.max)
           && s[3 * i + 2] == DataId(t.items[i].id)
    decreases n
  {
    if n > 0 {
      LeafTokens(t, n - 1);
      assert ItemOk(t.items[n - 1], 0);
      assert t.items[..n][..n - 1] == t.items[..n - 1];
    }
  }

  /**
    Stored trees are self-delimiting: two streams that agree and start with a well-formed
    tree start with the same tree.
   */
  lemma {:induction false} StoredTreesAreUnambiguous(t: Tree, tail: seq<Token>, t': Tree, tail': seq<Token>)
    requires Body(t) && Body(t') && TreeTokens(t) + tail == TreeTokens(t') + tail'
    ensures t == t' && tail == tail'
    decreases t, 1
  {
    var s, s' := TreeTokens(t) + tail, TreeTokens(t') + tail';
    assert s[0] == Number(t.level) && s'[0] == Number(t'.level);
    assert s[1] == Number(|t.items|) && s'[1] == Number(|t'.items|);
    assert s[2..] == ItemsTokens(t.items) + tail && s'[2..] == ItemsTokens(t'.items) + tail';
    ItemsAreUnambiguous(t.items, t'.items, t.level, 0, tail, tail');
  }

  lemma {:induction false} ItemsAreUnambiguous(items: seq<Item>, items': seq<Item>, level: nat, k: nat,
                                               tail: seq<Token>, tail': seq<Token>)
    requires AllOk(items, level) && AllOk(items', level) && k <= |items| == |items'|
    requires ItemsTokens(items[k..]) + tail == ItemsTokens(items'[k..]) + tail'
    ensures items[k..] == items'[k..] && tail == tail'
    decreases items, |items| - k
  {
    if k == |items| {
      assert items[k..] == [] && items'[k..] == [];
      assert [] + tail == tail && [] + tail' == tail';
    } else {
      ItemsTokensFront(items, k);
      ItemsTokensFront(items', k);
      var x, x' := items[k], items'[k];
      var rest, rest' := ItemsTokens(items[k + 1..]) + tail, ItemsTokens(items'[k + 1..]) + tail';
      Regroup(ItemTokens(x), ItemsTokens(items[k + 1..]), tail);
      Regroup(ItemTokens(x'), ItemsTokens(items'[k + 1..]), tail');
      assert ItemOk(x, level) && ItemOk(x', level);
      ItemIsUnambiguous(x, x', level, rest, rest');
      ItemsAreUnambiguous(items, items', level, k + 1, tail, tail');
      assert items[k..] == [x] + items[k + 1..] && items'[k..] == [x'] + items'[k + 1..];
    }
  }

  lemma Regroup<T>(a: seq<T>, b: seq<T>, c: seq<T>)
    ensures a + b + c == a + (b + c)
  {
  }

  lemma {:induction false} ItemIsUnambiguous(x: Item, x': Item, level: nat, rest: seq<Token>, rest': seq<Token>)
    requires ItemOk(x, level) && ItemOk(x', level)
    requires ItemTokens(x) + rest == ItemTokens(x') + rest'
    ensures x == x' && rest == rest'
    decreases x, 0
  {
    var s, s' := ItemTokens(x) + rest, ItemTokens(x') + rest';
    assert s[0] == Coordinates(x.rect.min) && s'[0] == Coordinates(x'.rect.min);
    assert s[1] == Coordinates(x.rect.max) && s'[1] == Coordinates(x'.rect.max);
    if level == 0 {
      assert s[2] == DataId(x.id) && s'[2] == DataId(x'.id);
      assert s[3..] == rest && s'[3..] == rest';
    } else {
      assert s[2..] == TreeTokens(x.child) + rest && s'[2..] == TreeTokens(x'.child) + rest';
      StoredTreesAreUnambiguous(x.child, rest, x'.child, rest');
    }
  }

  // ---------------------------------------------------------------- the header

  /** `sizeof(DataType)`, `sizeof(ElementType)` and `sizeof(ElementTypeReal)`. */
  type Size = s: int | 0 < s witness 8
  const DATA_SIZE: Size
  const ELEMENT_SIZE: Size
  const REAL_SIZE: Size

  /** The bytes R, T, R, E, the first of them least significant. */
  const FILE_ID: int := 82 + 84 * 0x100 + 82 * 0x1_0000 + 69 * 0x100_0000

  const HEADER: seq<int> := [FILE_ID, DATA_SIZE, DIM, ELEMENT_SIZE, REAL_SIZE, MAX, MIN]

  function Numbers(ns: seq<int>): (ts: seq<Token>)
    ensures |ts| == |ns| && forall i | 0 <= i < |ns| :: ts[i] == Number(ns[i])
  {
    seq(|ns|, i requires 0 <= i < |ns| => Number(ns[i]))
  }

  function FileTokens(t: Tree): seq<Token> {
    Numbers(HEADER) + TreeTokens(t)
  }
}
