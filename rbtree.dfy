/** The shapes and invariants of the red-black tree of redblack.c, on values.
    A node reached by parent pointers is here a zipper: the subtree in focus
    and the path of frames from its parent up to the root. */
module RbTree {

  datatype Color = Red | Black

  /** A subtree; Nil is the shared black sentinel nil. */
  datatype Tree<V> = Nil | Node(color: Color, left: Tree<V>, key: int, val: V, right: Tree<V>)

  /** One step up from a focused subtree: its parent's colour, key and value,
      and the parent's other child. LeftOf: the focus is the left child. */
  datatype Frame<V> =
    | LeftOf(color: Color, key: int, val: V, sibling: Tree<V>)
    | RightOf(color: Color, sibling: Tree<V>, key: int, val: V)

  datatype Entry<V> = Entry(key: int, val: V)

  predicate IsRed<V>(t: Tree<V>) {
    t.Node? && t.color == Red
  }

  /** The subtree with its top node recoloured; the sentinel stays black. */
  function Paint<V>(t: Tree<V>, c: Color): (r: Tree<V>)
    ensures Items(r) == Items(t)
    ensures r.Node? <==> t.Node?
    ensures t.Node? ==> r.color == c && r.left == t.left && r.right == t.right
  {
    match t
    case Nil => Nil
    case Node(_, l, k, v, rt) => Node(c, l, k, v, rt)
  }

  /** The parent node of a frame, with t as the child in the focus's place. */
  function Attach<V>(t: Tree<V>, f: Frame<V>): Tree<V> {
    match f
    case LeftOf(c, k, v, s) => Node(c, t, k, v, s)
    case RightOf(c, s, k, v) => Node(c, s, k, v, t)
  }

  /** The whole tree around a focus. */
  function Plug<V>(t: Tree<V>, path: seq<Frame<V>>): Tree<V>
    decreases |path|
  {
    if path == [] then t else Plug(Attach(t, path[0]), path[1..])
  }

  // ---------------------------------------------------------------------------
  // Contents: the in-order sequence of entries and the map it stands for

  function Items<V>(t: Tree<V>): seq<Entry<V>> {
    match t
    case Nil => []
    case Node(_, l, k, v, r) => Items(l) + [Entry(k, v)] + Items(r)
  }

  /** The entries a path puts before the focus, in order. */
  function Before<V>(path: seq<Frame<V>>): seq<Entry<V>>
    decreases |path|
  {
    if path == [] then []
    else
      Before(path[1..]) + match path[0]
        case LeftOf(_, _, _, _) => []
        case RightOf(_, s, k, v) => Items(s) + [Entry(k, v)]
  }

  /** The entries a path puts after the focus, in order. */
  function After<V>(path: seq<Frame<V>>): seq<Entry<V>>
    decreases |path|
  {
    if path == [] then []
    else
      (match path[0]
        case LeftOf(_, k, v, s) => [Entry(k, v)] + Items(s)
        case RightOf(_, _, _, _) => []) + After(path[1..])
  }

  /** The in-order sequence around a focus is what lies before it, the focus,
      and what lies after it. */
  lemma {:induction false} PlugItems<V>(t: Tree<V>, path: seq<Frame<V>>)
    ensures Items(Plug(t, path)) == Before(path) + Items(t) + After(path)
    decreases |path|
  {
    if path != [] {
      PlugItems(Attach(t, path[0]), path[1..]);
    }
  }

  /** Only the contents of the focus matter to the contents of the whole. */
  lemma PlugSameItems<V>(a: Tree<V>, b: Tree<V>, path: seq<Frame<V>>)
    requires Items(a) == Items(b)
    ensures Items(Plug(a, path)) == Items(Plug(b, path))
  {
    PlugItems(a, path);
    PlugItems(b, path);
  }

  predicate Sorted<V>(s: seq<Entry<V>>) {
    forall i, j :: 0 <= i < j < |s| ==> s[i].key < s[j].key
  }

  predicate AllBelow<V>(s: seq<Entry<V>>, k: int) {
    forall i :: 0 <= i < |s| ==> s[i].key < k
  }

  predicate AllAbove<V>(s: seq<Entry<V>>, k: int) {
    forall i :: 0 <= i < |s| ==> k < s[i].key
  }

  lemma AboveCons<V>(e: Entry<V>, b: seq<Entry<V>>, k: int)
    requires k < e.key && AllAbove(b, e.key)
    ensures AllAbove([e] + b, k)
  {
  }

  lemma BelowSnoc<V>(a: seq<Entry<V>>, e: Entry<V>, k: int)
    requires e.key < k && AllBelow(a, e.key)
    ensures AllBelow(a + [e], k)
  {
  }

  /** BST order: the in-order keys strictly increase. */
  predicate Bst<V>(t: Tree<V>) {
    Sorted(Items(t))
  }

  lemma SortedSplit<V>(a: seq<Entry<V>>, e: Entry<V>, b: seq<Entry<V>>)
    ensures Sorted(a + [e] + b) <==> Sorted(a) && Sorted(b) && AllBelow(a, e.key) && AllAbove(b, e.key)
  {
    var s := a + [e] + b;
    if Sorted(a) && Sorted(b) && AllBelow(a, e.key) && AllAbove(b, e.key) {
      forall i, j | 0 <= i < j < |s| ensures s[i].key < s[j].key {
        if j < |a| {
          assert s[i] == a[i] && s[j] == a[j];
        } else if j == |a| {
          assert s[i] == a[i];
        } else if i < |a| {
          assert s[i] == a[i] && s[j] == b[j - |a| - 1];
        } else if i == |a| {
          assert s[j] == b[j - |a| - 1];
        } else {
          assert s[i] == b[i - |a| - 1] && s[j] == b[j - |a| - 1];
        }
      }
    }
    if Sorted(s) {
      forall i, j | 0 <= i < j < |a| ensures a[i].key < a[j].key {
        assert s[i] == a[i] && s[j] == a[j];
      }
      forall i, j | 0 <= i < j < |b| ensures b[i].key < b[j].key {
        assert s[|a| + 1 + i] == b[i] && s[|a| + 1 + j] == b[j];
      }
      forall i | 0 <= i < |a| ensures a[i].key < e.key {
        assert s[i] == a[i] && s[|a|] == e;
      }
      forall i | 0 <= i < |b| ensures e.key < b[i].key {
        assert s[|a| + 1 + i] == b[i] && s[|a|] == e;
      }
    }
  }

  /** The map an in-order sequence stands for; a later entry wins. */
  function ToMap<V>(s: seq<Entry<V>>): (m: map<int, V>)
    ensures forall i :: 0 <= i < |s| ==> s[i].key in m
    ensures forall k :: k in m ==> exists i :: 0 <= i < |s| && s[i].key == k
  {
    if s == [] then map[]
    else
      var m := ToMap(s[..|s| - 1])[s[|s| - 1].key := s[|s| - 1].val];
      assert forall k :: k in m ==> exists i :: 0 <= i < |s| && s[i].key == k by {
        forall k | k in m ensures exists i :: 0 <= i < |s| && s[i].key == k {
          if k != s[|s| - 1].key {
            var i :| 0 <= i < |s| - 1 && s[..|s| - 1][i].key == k;
            assert s[i].key == k;
          }
        }
      }
      m
  }

  lemma {:induction false} ToMapAppend<V>(a: seq<Entry<V>>, b: seq<Entry<V>>)
    ensures ToMap(a + b) == ToMap(a) + ToMap(b)
    decreases |b|
  {
    if b != [] {
      assert (a + b)[..|a + b| - 1] == a + b[..|b| - 1];
      ToMapAppend(a, b[..|b| - 1]);
    } else {
      assert a + b == a;
    }
  }

  lemma ToMapSingle<V>(e: Entry<V>)
    ensures ToMap([e]) == map[e.key := e.val]
  {
    assert [e][..0] == [];
  }

  lemma AboveNotIn<V>(s: seq<Entry<V>>, k: int)
    requires AllAbove(s, k)
    ensures k !in ToMap(s)
  {
  }

  lemma BelowNotIn<V>(s: seq<Entry<V>>, k: int)
    requires AllBelow(s, k)
    ensures k !in ToMap(s)
  {
  }

  /** The three-part split of a sorted sequence around one entry, as maps. */
  lemma ToMapSplit<V>(a: seq<Entry<V>>, e: Entry<V>, b: seq<Entry<V>>)
    ensures ToMap(a + [e] + b) == ToMap(a) + map[e.key := e.val] + ToMap(b)
  {
    ToMapAppend(a + [e], b);
    ToMapAppend(a, [e]);
    ToMapSingle(e);
  }

  /** In a sorted sequence, the entry in the middle holds its key's value. */
  lemma LookupMiddle<V>(a: seq<Entry<V>>, e: Entry<V>, b: seq<Entry<V>>)
    requires Sorted(a + [e] + b)
    ensures e.key in ToMap(a + [e] + b) && ToMap(a + [e] + b)[e.key] == e.val
  {
    SortedSplit(a, e, b);
    ToMapSplit(a, e, b);
    AboveNotIn(b, e.key);
  }

  /** Putting an entry for a new key in its place adds exactly that key. */
  lemma InsertEntry<V>(a: seq<Entry<V>>, e: Entry<V>, b: seq<Entry<V>>)
    requires AllBelow(a, e.key) && AllAbove(b, e.key)
    ensures ToMap(a + [e] + b) == ToMap(a + b)[e.key := e.val]
    ensures e.key !in ToMap(a + b)
  {
    ToMapSplit(a, e, b);
    ToMapAppend(a, b);
    AboveNotIn(b, e.key);
    BelowNotIn(a, e.key);
    MapUnionUpdate(ToMap(a), e.key, e.val, ToMap(b));
  }

  lemma MapUnionUpdate<V>(m1: map<int, V>, k: int, v: V, m2: map<int, V>)
    requires k !in m2
    ensures m1 + map[k := v] + m2 == (m1 + m2)[k := v]
  {
    var l := m1 + map[k := v] + m2;
    var r := (m1 + m2)[k := v];
    assert l.Keys == r.Keys;
    forall x | x in l ensures l[x] == r[x] {
    }
  }

  /** Replacing the value of the middle entry updates only that key. */
  lemma ReplaceEntry<V>(a: seq<Entry<V>>, e: Entry<V>, v: V, b: seq<Entry<V>>)
    requires AllAbove(b, e.key)
    ensures ToMap(a + [Entry(e.key, v)] + b) == ToMap(a + [e] + b)[e.key := v]
  {
    ToMapSplit(a, e, b);
    ToMapSplit(a, Entry(e.key, v), b);
    AboveNotIn(b, e.key);
    MapUnionUpdate(ToMap(a), e.key, v, ToMap(b));
    MapUnionUpdate(ToMap(a), e.key, e.val, ToMap(b));
  }

  /** Dropping the entry of a key that occurs once removes only that key. */
  lemma RemoveEntry<V>(a: seq<Entry<V>>, e: Entry<V>, b: seq<Entry<V>>)
    requires AllBelow(a, e.key) && AllAbove(b, e.key)
    ensures ToMap(a + b) == ToMap(a + [e] + b) - {e.key}
  {
    InsertEntry(a, e, b);
  }

  /** With distinct keys the map has one key per entry. */
  lemma {:induction false} ToMapSize<V>(s: seq<Entry<V>>)
    requires Sorted(s)
    ensures |ToMap(s)| == |s|
    decreases |s|
  {
    if s != [] {
      var init := s[..|s| - 1];
      assert Sorted(init);
      ToMapSize(init);
      assert AllBelow(init, s[|s| - 1].key);
      BelowNotIn(init, s[|s| - 1].key);
    }
  }

  // ---------------------------------------------------------------------------
  // Rotations (rb_left_rotate, rb_right_rotate), on the subtree at x

  /** rb_left_rotate: x's right child y takes x's place, x becomes y's left
      child and y's left subtree becomes x's right. Colours stay. */
  function RotateLeft<V>(t: Tree<V>): (r: Tree<V>)
    requires t.Node? && t.right.Node?
    ensures Items(r) == Items(t)
    ensures r.Node? && r.left.Node? && r.color == t.right.color && r.left.color == t.color
  {
    var y := t.right;
    Node(y.color, Node(t.color, t.left, t.key, t.val, y.left), y.key, y.val, y.right)
  }

  /** rb_right_rotate: the mirror image. */
  function RotateRight<V>(t: Tree<V>): (r: Tree<V>)
    requires t.Node? && t.left.Node?
    ensures Items(r) == Items(t)
    ensures r.Node? && r.right.Node? && r.color == t.left.color && r.right.color == t.color
  {
    var y := t.left;
    Node(y.color, y.left, y.key, y.val, Node(t.color, y.right, t.key, t.val, t.right))
  }

  /** Rotations undo each other. */
  lemma RotationsInverse<V>(t: Tree<V>)
    requires t.Node? && t.right.Node?
    ensures RotateRight(RotateLeft(t)) == t
  {
  }

  // ---------------------------------------------------------------------------
  // Colour invariants

  /** t is a red-black subtree of black height n: no red node has a red
      child, and every path down to nil meets n black nodes (nil excluded). */
  predicate RB<V>(t: Tree<V>, n: nat) {
    match t
    case Nil => n == 0
    case Node(c, l, _, _, r) =>
      if c == Black then n >= 1 && RB(l, n - 1) && RB(r, n - 1)
      else !IsRed(l) && !IsRed(r) && RB(l, n) && RB(r, n)
  }

  /** The number of black nodes on the leftmost path. */
  function BlackHeight<V>(t: Tree<V>): nat {
    match t
    case Nil => 0
    case Node(c, l, _, _, _) => BlackHeight(l) + if c == Black then 1 else 0
  }

  lemma {:induction false} RBHeight<V>(t: Tree<V>, n: nat)
    requires RB(t, n)
    ensures n == BlackHeight(t)
  {
    if t.Node? {
      RBHeight(t.left, if t.color == Black then n - 1 else n);
    }
  }

  /** The colour invariants of a whole tree, and a black root. */
  predicate Balanced<V>(t: Tree<V>) {
    RB(t, BlackHeight(t)) && !IsRed(t)
  }

  /** A red-black tree as the whole of redblack_t keeps it: BST order, the
      colour invariants, and a black root. */
  predicate ValidTree<V>(t: Tree<V>) {
    Bst(t) && Balanced(t)
  }

  /** The frames above a subtree of black height n and redness childRed fit
      it: every sibling has the black height of the child next to it, and a
      red parent has neither a red child nor a red sibling. */
  predicate PathOK<V>(path: seq<Frame<V>>, n: nat, childRed: bool)
    decreases |path|
  {
    path == [] ||
    (RB(path[0].sibling, n) &&
     (path[0].color == Red ==> !childRed && !IsRed(path[0].sibling)) &&
     PathOK(path[1..], if path[0].color == Black then n + 1 else n, path[0].color == Red))
  }

  /** The black height of the tree a path closes around a subtree of black
      height n. */
  function PathHeight<V>(path: seq<Frame<V>>, n: nat): nat
    decreases |path|
  {
    if path == [] then n else PathHeight(path[1..], if path[0].color == Black then n + 1 else n)
  }

  /** The root of the tree, when it lies on the path, is black. */
  predicate RootBlack<V>(path: seq<Frame<V>>) {
    path != [] ==> path[|path| - 1].color == Black
  }

  lemma {:induction false} PlugRB<V>(t: Tree<V>, path: seq<Frame<V>>, n: nat)
    requires RB(t, n) && PathOK(path, n, IsRed(t))
    ensures RB(Plug(t, path), PathHeight(path, n))
    decreases |path|
  {
    if path != [] {
      PlugRB(Attach(t, path[0]), path[1..], if path[0].color == Black then n + 1 else n);
    }
  }

  lemma {:induction false} PlugRoot<V>(t: Tree<V>, path: seq<Frame<V>>)
    requires path != []
    ensures Plug(t, path).Node? && Plug(t, path).color == path[|path| - 1].color
    decreases |path|
  {
    if |path| > 1 {
      PlugRoot(Attach(t, path[0]), path[1..]);
    }
  }

  /** A whole tree assembled from a fitting path is a red-black tree; it has
      a black root when the path says so or the focus is the black root. */
  lemma PlugValid<V>(t: Tree<V>, path: seq<Frame<V>>, n: nat)
    requires RB(t, n) && PathOK(path, n, IsRed(t)) && RootBlack(path)
    requires path == [] ==> !IsRed(t)
    ensures Balanced(Plug(t, path))
  {
    PlugRB(t, path, n);
    RBHeight(Plug(t, path), PathHeight(path, n));
    if path != [] {
      PlugRoot(t, path);
    }
  }

  /** Without a red child a red parent has nothing to complain about. */
  lemma PathOKNotRed<V>(path: seq<Frame<V>>, n: nat)
    requires PathOK(path, n, true)
    ensures PathOK(path, n, false)
  {
  }
}
