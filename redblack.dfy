/** redblack.c: the map from socket descriptor to suspended connection, a
    red-black tree. Each procedure works on the tree as a value: a node it
    holds by pointer is a zipper, the subtree there and the path back up. */
module RedBlack {
  import opened Wrappers
  import opened RbTree
  import opened RbCases

  /** A node reached from the root: the subtree hanging there and the frames
      from its parent up to the root. */
  datatype Zipper<V> = Zipper(focus: Tree<V>, path: seq<Frame<V>>)

  /** rb_tree_search: stop at nil or at the key, go left when the key is
      below the node's, right when above. */
  function Search<V>(t: Tree<V>, path: seq<Frame<V>>, k: int): (z: Zipper<V>)
    ensures Plug(z.focus, z.path) == Plug(t, path)
    ensures z.focus.Node? ==> z.focus.key == k
    ensures Bst(t) ==> (z.focus.Node? <==> k in ToMap(Items(t)))
    decreases t
  {
    match t
    case Nil => Zipper(t, path)
    case Node(c, l, key, v, r) =>
      SearchStep(t, k);
      if k == key then Zipper(t, path)
      else if k < key then Search(l, [LeftOf(c, key, v, r)] + path, k)
      else Search(r, [RightOf(c, l, key, v)] + path, k)
  }

  /** At a node of a BST, a smaller key can only be on the left and a larger
      one only on the right. */
  lemma SearchStep<V>(t: Tree<V>, k: int)
    requires t.Node?
    ensures Bst(t) ==> Bst(t.left) && Bst(t.right) && t.key in ToMap(Items(t))
    ensures Bst(t) && k < t.key ==> (k in ToMap(Items(t)) <==> k in ToMap(Items(t.left)))
    ensures Bst(t) && k > t.key ==> (k in ToMap(Items(t)) <==> k in ToMap(Items(t.right)))
  {
    if Bst(t) {
      var e := Entry(t.key, t.val);
      SortedSplit(Items(t.left), e, Items(t.right));
      ToMapSplit(Items(t.left), e, Items(t.right));
      if k < t.key {
        AboveNotIn(Items(t.right), k);
      } else if k > t.key {
        BelowNotIn(Items(t.left), k);
      }
    }
  }

  /** rb_tree_min: nil for an empty tree, else follow left children as far
      as they go. The result is the leftmost node under x, reached by left
      steps only, and holds the first entry of x in order, so in a BST its
      smallest key. */
  method TreeMin<V>(x: Tree<V>, path: seq<Frame<V>>) returns (m: Tree<V>, mpath: seq<Frame<V>>)
    ensures Plug(m, mpath) == Plug(x, path)
    ensures m.Node? <==> x.Node?
    ensures m.Node? ==> m.left.Nil?
    ensures |mpath| >= |path| && mpath[|mpath| - |path|..] == path
    ensures AllLeft(mpath[..|mpath| - |path|]) && Plug(m, mpath[..|mpath| - |path|]) == x
    ensures x.Node? ==> Items(x)[0] == Entry(m.key, m.val)
    ensures x.Node? && Bst(x) ==> forall i :: 0 <= i < |Items(x)| ==> m.key <= Items(x)[i].key
  {
    if |path| == 0 && x.Nil? {
      // the root is nil
      assert path[0..] == path;
      return x, path;
    }
    m := x;
    var inner: seq<Frame<V>> := [];
    while m.Node? && m.left.Node?
      invariant AllLeft(inner) && Plug(m, inner) == x
      invariant m.Node? <==> x.Node?
      decreases m
    {
      inner := [LeftOf(m.color, m.key, m.val, m.right)] + inner;
      m := m.left;
    }
    mpath := inner + path;
    assert mpath[|mpath| - |path|..] == path && mpath[..|mpath| - |path|] == inner;
    PlugAppend(m, inner, path);
    if x.Node? {
      LeftmostItems(m, inner);
      if Bst(x) {
        forall i | 0 <= i < |Items(x)| ensures m.key <= Items(x)[i].key {
          assert Items(x)[0].key == m.key;
        }
      }
    }
  }

  /** rb_transplant: the subtree at u's place is replaced by v; everything
      outside that place stays as it was. */
  function Transplant<V>(upath: seq<Frame<V>>, v: Tree<V>): (r: Tree<V>)
    ensures Items(r) == Before(upath) + Items(v) + After(upath)
  {
    PlugItems(v, upath);
    Plug(v, upath)
  }

  // ---------------------------------------------------------------------------
  // Insertion

  /** rb_insert_fixup: while z's parent is red, recolour (red uncle) or
      rotate (black uncle), then paint the root black. */
  method InsertFixup<V>(z0: Tree<V>, path0: seq<Frame<V>>, ghost n0: nat) returns (r: Tree<V>)
    requires InsertInv(z0, path0, n0)
    ensures Balanced(r) && Items(r) == Items(Plug(z0, path0))
  {
    var z, path := z0, path0;
    ghost var n := n0;
    // the parent of the root is nil, which is black
    while |path| > 0 && path[0].color == Red
      invariant InsertInv(z, path, n)
      invariant Items(Plug(z, path)) == Items(Plug(z0, path0))
      decreases |path|
    {
      InsertOpen(z, path, n);
      if path[1].LeftOf? {
        // z's parent is a left child
        var y := path[1].sibling;
        if IsRed(y) {
          InsertRecolor(z, path, n);
          z := Attach(Attach(z, path[0].(color := Black)), path[1].(color := Red, sibling := Paint(y, Black)));
          path := path[2..];
          n := n + 1;
        } else {
          if path[0].RightOf? {
            InsertInnerLeft(z, path, n);
            var sub := RotateLeft(Attach(z, path[0]));
            z, path := sub.left, [LeftOf(sub.color, sub.key, sub.val, sub.right)] + path[1..];
          }
          InsertOuterLeft(z, path, n);
          var top := RotateRight(Attach(Attach(z, path[0].(color := Black)), path[1].(color := Red)));
          path := [LeftOf(top.color, top.key, top.val, top.right)] + path[2..];
        }
      } else {
        // z's parent is a right child: the mirror image
        var y := path[1].sibling;
        if IsRed(y) {
          InsertRecolor(z, path, n);
          z := Attach(Attach(z, path[0].(color := Black)), path[1].(color := Red, sibling := Paint(y, Black)));
          path := path[2..];
          n := n + 1;
        } else {
          if path[0].LeftOf? {
            InsertInnerRight(z, path, n);
            var sub := RotateRight(Attach(z, path[0]));
            z, path := sub.right, [RightOf(sub.color, sub.left, sub.key, sub.val)] + path[1..];
          }
          InsertOuterRight(z, path, n);
          var top := RotateLeft(Attach(Attach(z, path[0].(color := Black)), path[1].(color := Red)));
          path := [RightOf(top.color, top.left, top.key, top.val)] + path[2..];
        }
      }
    }
    InsertFinish(z, path, n);
    r := Paint(Plug(z, path), Black);
  }

  /** rb_insert: descend by key order; on an equal key overwrite the value
      and stop, otherwise link a red node with nil children where the
      descent fell off and restore the colours. added tells whether the tree
      grew (rb_insert then adds 1 to size). */
  method RbInsert<V>(root: Tree<V>, key: int, val: V) returns (r: Tree<V>, added: bool)
    requires ValidTree(root)
    ensures ValidTree(r)
    ensures ToMap(Items(r)) == ToMap(Items(root))[key := val]
    ensures added <==> key !in ToMap(Items(root))
    ensures |Items(r)| == |Items(root)| + (if added then 1 else 0)
  {
    var x := root;
    var path: seq<Frame<V>> := [];
    while x.Node?
      invariant Plug(x, path) == root
      invariant AllBelow(Before(path), key) && AllAbove(After(path), key)
      decreases x
    {
      if key < x.key {
        DescendLeft(x, path, key);
        path := [LeftOf(x.color, x.key, x.val, x.right)] + path;
        x := x.left;
      } else if key > x.key {
        DescendRight(x, path, key);
        path := [RightOf(x.color, x.left, x.key, x.val)] + path;
        x := x.right;
      } else {
        // the key is present: its value is replaced in place
        ReplaceValue(x, path, val);
        return Plug(Node(x.color, x.left, x.key, val, x.right), path), false;
      }
    }
    // the new node hangs where the descent ended (left of its parent when
    // its key is smaller, else right), red with nil children
    var n := Node(Red, Nil, key, val, Nil);
    InsertNew(path, key, val);
    InsertStart(key, val, path);
    r := InsertFixup(n, path, 0);
    added := true;
  }

  // ---------------------------------------------------------------------------
  // Deletion

  /** rb_delete_fixup: while x is black and not the root, move the missing
      black up (case 2) or settle it by rotations (cases 1, 3 and 4), then
      paint x black. */
  method DeleteFixup<V>(x0: Tree<V>, path0: seq<Frame<V>>, ghost n0: nat) returns (r: Tree<V>)
    requires DeleteInv(x0, path0, n0)
    ensures Balanced(r) && Items(r) == Items(Plug(x0, path0))
  {
    var x, path := x0, path0;
    ghost var n := n0;
    while |path| > 0 && !IsRed(x)
      invariant DeleteInv(x, path, n)
      invariant Items(Plug(x, path)) == Items(Plug(x0, path0))
      decreases 2 * |path| + if IsRed(x) then 0 else 1
    {
      if path[0].LeftOf? {
        x, path, n := DeleteStepLeft(x, path, n);
      } else {
        x, path, n := DeleteStepRight(x, path, n);
      }
    }
    DeleteFinish(x, path, n);
    PlugSameItems(Paint(x, Black), x, path);
    r := Plug(Paint(x, Black), path);
  }

  /** One pass of the rb_delete_fixup loop when x is a left child. */
  method DeleteStepLeft<V>(x0: Tree<V>, path0: seq<Frame<V>>, ghost n0: nat) returns (x: Tree<V>, path: seq<Frame<V>>, ghost n: nat)
    requires DeleteInv(x0, path0, n0) && !IsRed(x0) && path0 != [] && path0[0].LeftOf?
    ensures DeleteInv(x, path, n) && Items(Plug(x, path)) == Items(Plug(x0, path0))
    ensures 2 * |path| + (if IsRed(x) then 0 else 1) < 2 * |path0| + 1
  {
    x, path, n := x0, path0, n0;
    DeleteOpen(x, path, n);
    var w := path[0].sibling;
    if IsRed(w) {
      // case 1: the red sibling is rotated above the parent
      DeleteRedSiblingLeft(x, path, n);
      var sub := RotateLeft(Attach(x, path[0].(color := Red, sibling := Paint(w, Black))));
      path := [LeftOf(sub.left.color, sub.left.key, sub.left.val, sub.left.right), LeftOf(sub.color, sub.key, sub.val, sub.right)] + path[1..];
      DeleteOpen(x, path, n);
      w := path[0].sibling;
    }
    if !IsRed(w.left) && !IsRed(w.right) {
      // case 2: the sibling turns red and the missing black moves up
      DeleteRecolor(x, path, n);
      n := if path[0].color == Black then n + 1 else n;
      x := Attach(x, path[0].(sibling := Paint(w, Red)));
      path := path[1..];
    } else {
      if !IsRed(w.right) {
        // case 3: the red inner nephew is rotated to the outside
        DeleteInnerNephewLeft(x, path, n);
        w := RotateRight(Node(Red, Paint(w.left, Black), w.key, w.val, w.right));
        path := [path[0].(sibling := w)] + path[1..];
      }
      // case 4: the parent is rotated down and the missing black is made up
      DeleteFarNephewLeft(x, path, n);
      var p := path[0];
      var sub := RotateLeft(Attach(x, p.(color := Black, sibling := Node(p.color, w.left, w.key, w.val, Paint(w.right, Black)))));
      // x becomes the root
      x := Plug(sub, path[1..]);
      path := [];
      n := BlackHeight(x);
    }
  }

  /** One pass of the rb_delete_fixup loop when x is a right child: the
      mirror image. */
  method DeleteStepRight<V>(x0: Tree<V>, path0: seq<Frame<V>>, ghost n0: nat) returns (x: Tree<V>, path: seq<Frame<V>>, ghost n: nat)
    requires DeleteInv(x0, path0, n0) && !IsRed(x0) && path0 != [] && path0[0].RightOf?
    ensures DeleteInv(x, path, n) && Items(Plug(x, path)) == Items(Plug(x0, path0))
    ensures 2 * |path| + (if IsRed(x) then 0 else 1) < 2 * |path0| + 1
  {
    x, path, n := x0, path0, n0;
    DeleteOpen(x, path, n);
    var w := path[0].sibling;
    if IsRed(w) {
      DeleteRedSiblingRight(x, path, n);
      var sub := RotateRight(Attach(x, path[0].(color := Red, sibling := Paint(w, Black))));
      path := [RightOf(sub.right.color, sub.right.left, sub.right.key, sub.right.val), RightOf(sub.color, sub.left, sub.key, sub.val)] + path[1..];
      DeleteOpen(x, path, n);
      w := path[0].sibling;
    }
    if !IsRed(w.right) && !IsRed(w.left) {
      DeleteRecolor(x, path, n);
      n := if path[0].color == Black then n + 1 else n;
      x := Attach(x, path[0].(sibling := Paint(w, Red)));
      path := path[1..];
    } else {
      if !IsRed(w.left) {
        DeleteInnerNephewRight(x, path, n);
        w := RotateLeft(Node(Red, w.left, w.key, w.val, Paint(w.right, Black)));
        path := [path[0].(sibling := w)] + path[1..];
      }
      DeleteFarNephewRight(x, path, n);
      var p := path[0];
      var sub := RotateRight(Attach(x, p.(color := Black, sibling := Node(p.color, Paint(w.left, Black), w.key, w.val, w.right))));
      x := Plug(sub, path[1..]);
      path := [];
      n := BlackHeight(x);
    }
  }

  /** rb_delete: a node with a nil child is replaced by its other child;
      otherwise its successor y (the minimum of its right subtree) takes its
      place and colour and y's right child takes y's. If the node taken out
      of its place was black, the colours are restored. Exactly z's entry
      leaves the in-order sequence. */
  method RbDelete<V>(z: Tree<V>, zpath: seq<Frame<V>>) returns (r: Tree<V>)
    requires z.Node? && ValidTree(Plug(z, zpath))
    ensures Balanced(r)
    ensures Items(r) == Before(zpath) + Items(z.left) + Items(z.right) + After(zpath)
  {
    var x: Tree<V>, xpath: seq<Frame<V>>;
    var yOriginalColor := z.color;
    ghost var h: nat := if BlackHeight(z) >= 1 then BlackHeight(z) - 1 else 0;
    if z.left.Nil? {
      x, xpath := z.right, zpath;
      DeleteStart(z, zpath, x, xpath);
      PlugItems(x, xpath);
    } else if z.right.Nil? {
      x, xpath := z.left, zpath;
      DeleteStart(z, zpath, x, xpath);
      PlugItems(x, xpath);
    } else {
      x, xpath, yOriginalColor, h := SpliceSuccessor(z, zpath);
    }
    if yOriginalColor == Black {
      r := DeleteFixup(x, xpath, h);
    } else {
      r := Transplant(xpath, x);
    }
  }

  /** The third case of rb_delete: z has two children, so its successor y
      is taken out of its place (y's right child x goes there) and put in
      z's place with z's colour. Returned: x and its path, y's original
      colour, and the black height the fixup starts from. */
  method SpliceSuccessor<V>(z: Tree<V>, zpath: seq<Frame<V>>) returns (x: Tree<V>, xpath: seq<Frame<V>>, yColor: Color, ghost h: nat)
    requires z.Node? && z.left.Node? && z.right.Node? && ValidTree(Plug(z, zpath))
    ensures yColor == Red ==> Balanced(Plug(x, xpath))
    ensures yColor == Black ==> DeleteInv(x, xpath, h)
    ensures Items(Plug(x, xpath)) == Before(zpath) + Items(z.left) + Items(z.right) + After(zpath)
  {
    var y, ypath := TreeMin(z.right, [RightOf(z.color, z.left, z.key, z.val)] + zpath);
    yColor := y.color;
    h := if BlackHeight(y) >= 1 then BlackHeight(y) - 1 else 0;
    x := y.right;
    ghost var inner := ypath[..|ypath| - |zpath| - 1];
    if |ypath| == |zpath| + 1 {
      // y is z's right child: x stays under y
      xpath := [RightOf(z.color, z.left, y.key, y.val)] + zpath;
      assert inner == [];
    } else {
      // x takes y's place, and z's right subtree becomes y's
      xpath := ypath[..|ypath| - |zpath| - 1] + [RightOf(z.color, z.left, y.key, y.val)] + zpath;
    }
    assert xpath == inner + [RightOf(z.color, z.left, y.key, y.val)] + zpath;
    SuccessorShape(z, zpath, y, ypath, xpath);
    DeleteStart(y, ypath, x, xpath);
    SuccessorItems(z, zpath, y, inner);
  }

  // ---------------------------------------------------------------------------
  // The map object

  /** redblack_t: the tree and its entry count. Contents is the map the tree
      stands for: each key to its value. */
  class RedBlackMap<V> {
    var root: Tree<V>
    var size: nat

    ghost predicate Valid()
      reads this
    {
      ValidTree(root) && size == |Items(root)|
    }

    ghost function Contents(): map<int, V>
      reads this
    {
      ToMap(Items(root))
    }

    /** redblack_create: an empty tree (the root is nil) of size 0. */
    constructor ()
      ensures Valid() && Contents() == map[] && size == 0
    {
      root := Nil;
      size := 0;
    }

    /** The size field counts the keys of the map. */
    function Size(): (n: nat)
      reads this
      requires Valid()
      ensures n == |Contents()|
    {
      ToMapSize(Items(root));
      size
    }

    /** redblack_insert: the key is bound to val, replacing any earlier
        value; the size grows exactly when the key was new. */
    method Insert(key: int, val: V)
      requires Valid()
      modifies this
      ensures Valid()
      ensures Contents() == old(Contents())[key := val]
      ensures size == old(size) + (if key in old(Contents()) then 0 else 1)
    {
      var added;
      root, added := RbInsert(root, key, val);
      if added {
        size := size + 1;
      }
    }

    /** redblack_extract: NULL when the key is absent, and nothing changes;
        otherwise the key's value, with the key taken out of the map. */
    method Extract(key: int) returns (conn: Option<V>)
      requires Valid()
      modifies this
      ensures Valid()
      ensures key !in old(Contents()) ==> conn == None && root == old(root) && size == old(size)
      ensures key in old(Contents()) ==> conn == Some(old(Contents())[key])
      ensures key in old(Contents()) ==> Contents() == old(Contents()) - {key} && size == old(size) - 1
    {
      var n := Search(root, [], key);
      if n.focus.Nil? {
        return None;
      }
      conn := Some(n.focus.val);
      RemoveNode(n.focus, n.path);
      root := RbDelete(n.focus, n.path);
      size := size - 1;
    }

    /** redblack_delete: as Extract, but the value is destroyed rather than
        returned. */
    method Delete(key: int)
      requires Valid()
      modifies this
      ensures Valid()
      ensures key !in old(Contents()) ==> root == old(root) && size == old(size)
      ensures key in old(Contents()) ==> Contents() == old(Contents()) - {key} && size == old(size) - 1
    {
      var n := Search(root, [], key);
      if n.focus.Nil? {
        return;
      }
      RemoveNode(n.focus, n.path);
      root := RbDelete(n.focus, n.path);
      size := size - 1;
    }
  }
}
