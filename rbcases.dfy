/** One lemma per step of rb_insert_fixup and rb_delete_fixup: each says that
    the step keeps the loop's invariant and the in-order contents. */
module RbCases {
  import opened RbTree

  // ---------------------------------------------------------------------------
  // Reading the invariants off a whole tree

  /** Cutting a red-black tree at any node leaves a red-black subtree and a
      path that fits it. */
  lemma {:induction false} Unplug<V>(t: Tree<V>, path: seq<Frame<V>>, h: nat)
    requires RB(Plug(t, path), h)
    ensures RB(t, BlackHeight(t)) && PathOK(path, BlackHeight(t), IsRed(t))
    decreases |path|
  {
    if path == [] {
      RBHeight(t, h);
    } else {
      var a := Attach(t, path[0]);
      Unplug(a, path[1..], h);
      RBHeight(t, if path[0].color == Black then BlackHeight(a) - 1 else BlackHeight(a));
    }
  }

  /** A black root shows on the path's last frame. */
  lemma RootBlackOf<V>(t: Tree<V>, path: seq<Frame<V>>)
    requires !IsRed(Plug(t, path))
    ensures RootBlack(path)
  {
    if path != [] {
      PlugRoot(t, path);
    }
  }

  /** Putting a subtree with the same shape and colours in a node's place
      keeps a valid tree valid. */
  lemma ReplaceKeepsRB<V>(t: Tree<V>, u: Tree<V>, path: seq<Frame<V>>)
    requires RB(Plug(t, path), BlackHeight(Plug(t, path))) && !IsRed(Plug(t, path))
    requires t.Node? && u.Node? && u == Node(t.color, t.left, u.key, u.val, t.right)
    ensures RB(Plug(u, path), BlackHeight(Plug(u, path))) && !IsRed(Plug(u, path))
  {
    Unplug(t, path, BlackHeight(Plug(t, path)));
    RootBlackOf(t, path);
    PlugValid(u, path, BlackHeight(t));
  }

  // ---------------------------------------------------------------------------
  // rb_insert_fixup

  /** The loop invariant of rb_insert_fixup: z is a red red-black subtree and
      the path fits it as if it were black, so the only possible violation is
      a red parent. The root is black unless z is the root. */
  predicate InsertInv<V>(z: Tree<V>, path: seq<Frame<V>>, n: nat) {
    IsRed(z) && RB(z, n) && PathOK(path, n, false) && RootBlack(path)
  }

  /** A freshly linked red node with nil children starts the loop. */
  lemma InsertStart<V>(key: int, val: V, path: seq<Frame<V>>)
    requires RB(Plug(Nil, path), BlackHeight(Plug(Nil, path))) && !IsRed(Plug(Nil, path))
    ensures InsertInv(Node(Red, Nil, key, val, Nil), path, 0)
  {
    Unplug(Nil, path, BlackHeight(Plug(Nil, path)));
    RootBlackOf(Nil, path);
  }

  /** When the parent is black, or z is the root, painting the root black
      leaves a valid red-black tree. */
  lemma InsertFinish<V>(z: Tree<V>, path: seq<Frame<V>>, n: nat)
    requires InsertInv(z, path, n)
    requires path == [] || path[0].color == Black
    ensures RB(Paint(Plug(z, path), Black), BlackHeight(Paint(Plug(z, path), Black)))
    ensures !IsRed(Paint(Plug(z, path), Black))
  {
    if path == [] {
      var b := Paint(z, Black);
      assert RB(b, n + 1);
      RBHeight(b, n + 1);
    } else {
      PlugValid(z, path, n);
      PlugRoot(z, path);
    }
  }

  /** A red parent is never the root, so the grandparent exists; it is black,
      and the two frames above z say what the siblings are. */
  lemma InsertOpen<V>(z: Tree<V>, path: seq<Frame<V>>, n: nat)
    requires InsertInv(z, path, n) && path != [] && path[0].color == Red
    ensures |path| >= 2 && path[1].color == Black
    ensures RB(path[0].sibling, n) && !IsRed(path[0].sibling) && RB(path[1].sibling, n)
    ensures PathOK(path[2..], n + 1, false) && RootBlack(path[2..])
  {
    assert PathOK(path[1..], n, true);
    assert |path| >= 2;
    assert path[1..][0] == path[1] && path[1..][1..] == path[2..];
  }

  /** Case 1, either side: a red uncle. Parent and uncle turn black, the
      grandparent red, and z moves up to the grandparent. */
  lemma InsertRecolor<V>(z: Tree<V>, path: seq<Frame<V>>, n: nat)
    requires InsertInv(z, path, n) && |path| >= 2 && path[0].color == Red
    requires IsRed(path[1].sibling)
    ensures var z' := Attach(Attach(z, path[0].(color := Black)), path[1].(color := Red, sibling := Paint(path[1].sibling, Black)));
            InsertInv(z', path[2..], n + 1) &&
            Items(Plug(z', path[2..])) == Items(Plug(z, path))
  {
    InsertOpen(z, path, n);
    var z' := Attach(Attach(z, path[0].(color := Black)), path[1].(color := Red, sibling := Paint(path[1].sibling, Black)));
    assert RB(Attach(z, path[0].(color := Black)), n + 1);
    assert RB(z', n + 1);
    assert Plug(z, path) == Plug(Attach(Attach(z, path[0]), path[1]), path[2..]);
    PlugSameItems(z', Attach(Attach(z, path[0]), path[1]), path[2..]);
  }

  /** Case 2, parent a left child: z is a right child; z moves up to its
      parent and the parent is rotated left, making z an outer child. */
  lemma InsertInnerLeft<V>(z: Tree<V>, path: seq<Frame<V>>, n: nat)
    requires InsertInv(z, path, n) && |path| >= 2 && path[0].color == Red
    requires path[0].RightOf? && path[1].LeftOf?
    ensures var sub := RotateLeft(Attach(z, path[0]));
            var path' := [LeftOf(sub.color, sub.key, sub.val, sub.right)] + path[1..];
            InsertInv(sub.left, path', n) && path'[1] == path[1] &&
            Items(Plug(sub.left, path')) == Items(Plug(z, path))
  {
    InsertOpen(z, path, n);
    var sub := RotateLeft(Attach(z, path[0]));
    var path' := [LeftOf(sub.color, sub.key, sub.val, sub.right)] + path[1..];
    assert path'[1..] == path[1..];
    assert Attach(sub.left, path'[0]) == sub;
    PlugSameItems(sub, Attach(z, path[0]), path[1..]);
  }

  /** Case 2, parent a right child: the mirror image. */
  lemma InsertInnerRight<V>(z: Tree<V>, path: seq<Frame<V>>, n: nat)
    requires InsertInv(z, path, n) && |path| >= 2 && path[0].color == Red
    requires path[0].LeftOf? && path[1].RightOf?
    ensures var sub := RotateRight(Attach(z, path[0]));
            var path' := [RightOf(sub.color, sub.left, sub.key, sub.val)] + path[1..];
            InsertInv(sub.right, path', n) && path'[1] == path[1] &&
            Items(Plug(sub.right, path')) == Items(Plug(z, path))
  {
    InsertOpen(z, path, n);
    var sub := RotateRight(Attach(z, path[0]));
    var path' := [RightOf(sub.color, sub.left, sub.key, sub.val)] + path[1..];
    assert path'[1..] == path[1..];
    assert Attach(sub.right, path'[0]) == sub;
    PlugSameItems(sub, Attach(z, path[0]), path[1..]);
  }

  /** Case 3, parent a left child, z its left child, black uncle: the parent
      turns black, the grandparent red and is rotated right; z's parent is
      now black, which ends the loop. */
  lemma InsertOuterLeft<V>(z: Tree<V>, path: seq<Frame<V>>, n: nat)
    requires InsertInv(z, path, n) && |path| >= 2 && path[0].color == Red
    requires path[0].LeftOf? && path[1].LeftOf? && !IsRed(path[1].sibling)
    ensures var top := RotateRight(Attach(Attach(z, path[0].(color := Black)), path[1].(color := Red)));
            var path' := [LeftOf(top.color, top.key, top.val, top.right)] + path[2..];
            top.left == z && InsertInv(z, path', n) && path'[0].color == Black &&
            Items(Plug(z, path')) == Items(Plug(z, path))
  {
    InsertOpen(z, path, n);
    var top := RotateRight(Attach(Attach(z, path[0].(color := Black)), path[1].(color := Red)));
    var path' := [LeftOf(top.color, top.key, top.val, top.right)] + path[2..];
    assert path'[1..] == path[2..];
    assert RB(top.right, n);
    assert PathOK(path', n, false);
    assert RootBlack(path') by {
      if path[2..] != [] {
        assert path'[|path'| - 1] == path[|path| - 1];
      }
    }
    assert Attach(z, path'[0]) == top;
    assert Plug(z, path) == Plug(Attach(Attach(z, path[0]), path[1]), path[2..]);
    assert Items(top) == Items(Attach(Attach(z, path[0]), path[1]));
    PlugSameItems(top, Attach(Attach(z, path[0]), path[1]), path[2..]);
  }

  /** Case 3, parent a right child: the mirror image. */
  lemma InsertOuterRight<V>(z: Tree<V>, path: seq<Frame<V>>, n: nat)
    requires InsertInv(z, path, n) && |path| >= 2 && path[0].color == Red
    requires path[0].RightOf? && path[1].RightOf? && !IsRed(path[1].sibling)
    ensures var top := RotateLeft(Attach(Attach(z, path[0].(color := Black)), path[1].(color := Red)));
            var path' := [RightOf(top.color, top.left, top.key, top.val)] + path[2..];
            top.right == z && InsertInv(z, path', n) && path'[0].color == Black &&
            Items(Plug(z, path')) == Items(Plug(z, path))
  {
    InsertOpen(z, path, n);
    var top := RotateLeft(Attach(Attach(z, path[0].(color := Black)), path[1].(color := Red)));
    var path' := [RightOf(top.color, top.left, top.key, top.val)] + path[2..];
    assert path'[1..] == path[2..];
    assert RB(top.left, n);
    assert PathOK(path', n, false);
    assert RootBlack(path') by {
      if path[2..] != [] {
        assert path'[|path'| - 1] == path[|path| - 1];
      }
    }
    assert Attach(z, path'[0]) == top;
    assert Plug(z, path) == Plug(Attach(Attach(z, path[0]), path[1]), path[2..]);
    assert Items(top) == Items(Attach(Attach(z, path[0]), path[1]));
    PlugSameItems(top, Attach(Attach(z, path[0]), path[1]), path[2..]);
  }

  // ---------------------------------------------------------------------------
  // rb_delete_fixup

  /** The loop invariant of rb_delete_fixup: x's subtree has black height n
      where its path expects n + 1. A red x may have a red child; painting it
      black pays the missing black. */
  predicate DeleteInv<V>(x: Tree<V>, path: seq<Frame<V>>, n: nat) {
    (if IsRed(x) then RB(x.left, n) && RB(x.right, n) else RB(x, n)) &&
    PathOK(path, n + 1, false) && RootBlack(path)
  }

  /** When x is red, or is the root, painting it black leaves a valid
      red-black tree. */
  lemma DeleteFinish<V>(x: Tree<V>, path: seq<Frame<V>>, n: nat)
    requires DeleteInv(x, path, n) && (path == [] || IsRed(x))
    ensures Balanced(Plug(Paint(x, Black), path))
  {
    var b := Paint(x, Black);
    if IsRed(x) {
      assert RB(b, n + 1);
      PlugValid(b, path, n + 1);
    } else {
      assert b == x;
      RBHeight(x, n);
    }
  }

  /** Above a black non-root x there is a parent, and x's sibling is a node. */
  lemma DeleteOpen<V>(x: Tree<V>, path: seq<Frame<V>>, n: nat)
    requires DeleteInv(x, path, n) && !IsRed(x) && path != []
    ensures path[0].sibling.Node? && RB(path[0].sibling, n + 1)
    ensures path[0].color == Red ==> !IsRed(path[0].sibling)
    ensures PathOK(path[1..], if path[0].color == Black then n + 2 else n + 1, path[0].color == Red)
    ensures RootBlack(path[1..])
  {
    assert RootBlack(path[1..]) by {
      if |path| > 1 {
        assert path[1..][|path| - 2] == path[|path| - 1];
      }
    }
  }

  /** Case 1, x a left child: a red sibling turns black, the parent red, and
      the parent is rotated left; x's new sibling is black. */
  lemma DeleteRedSiblingLeft<V>(x: Tree<V>, path: seq<Frame<V>>, n: nat)
    requires DeleteInv(x, path, n) && !IsRed(x) && path != [] && path[0].LeftOf?
    requires IsRed(path[0].sibling)
    ensures var sub := RotateLeft(Attach(x, path[0].(color := Red, sibling := Paint(path[0].sibling, Black))));
            var path' := [LeftOf(sub.left.color, sub.left.key, sub.left.val, sub.left.right), LeftOf(sub.color, sub.key, sub.val, sub.right)] + path[1..];
            DeleteInv(x, path', n) && path'[0].LeftOf? && path'[0].color == Red &&
            Items(Plug(x, path')) == Items(Plug(x, path))
  {
    DeleteOpen(x, path, n);
    var sub := RotateLeft(Attach(x, path[0].(color := Red, sibling := Paint(path[0].sibling, Black))));
    var path' := [LeftOf(sub.left.color, sub.left.key, sub.left.val, sub.left.right), LeftOf(sub.color, sub.key, sub.val, sub.right)] + path[1..];
    assert path'[1..][1..] == path[1..] && path'[1..][0] == path'[1];
    assert PathOK(path'[1..], n + 1, true);
    assert RootBlack(path') by {
      if path[1..] != [] {
        assert path'[|path'| - 1] == path[|path| - 1];
      }
    }
    assert Attach(Attach(x, path'[0]), path'[1]) == sub;
    assert Plug(x, path') == Plug(sub, path[1..]);
    PlugSameItems(sub, Attach(x, path[0]), path[1..]);
  }

  /** Case 1, x a right child: the mirror image. */
  lemma DeleteRedSiblingRight<V>(x: Tree<V>, path: seq<Frame<V>>, n: nat)
    requires DeleteInv(x, path, n) && !IsRed(x) && path != [] && path[0].RightOf?
    requires IsRed(path[0].sibling)
    ensures var sub := RotateRight(Attach(x, path[0].(color := Red, sibling := Paint(path[0].sibling, Black))));
            var path' := [RightOf(sub.right.color, sub.right.left, sub.right.key, sub.right.val), RightOf(sub.color, sub.left, sub.key, sub.val)] + path[1..];
            DeleteInv(x, path', n) && path'[0].RightOf? && path'[0].color == Red &&
            Items(Plug(x, path')) == Items(Plug(x, path))
  {
    DeleteOpen(x, path, n);
    var sub := RotateRight(Attach(x, path[0].(color := Red, sibling := Paint(path[0].sibling, Black))));
    var path' := [RightOf(sub.right.color, sub.right.left, sub.right.key, sub.right.val), RightOf(sub.color, sub.left, sub.key, sub.val)] + path[1..];
    assert path'[1..][1..] == path[1..] && path'[1..][0] == path'[1];
    assert PathOK(path'[1..], n + 1, true);
    assert RootBlack(path') by {
      if path[1..] != [] {
        assert path'[|path'| - 1] == path[|path| - 1];
      }
    }
    assert Attach(Attach(x, path'[0]), path'[1]) == sub;
    assert Plug(x, path') == Plug(sub, path[1..]);
    PlugSameItems(sub, Attach(x, path[0]), path[1..]);
  }

  /** Case 2, either side: a black sibling with two black children turns red
      and x moves up to its parent, which now carries the missing black. */
  lemma DeleteRecolor<V>(x: Tree<V>, path: seq<Frame<V>>, n: nat)
    requires DeleteInv(x, path, n) && !IsRed(x) && path != []
    requires path[0].sibling.Node? && !IsRed(path[0].sibling)
    requires !IsRed(path[0].sibling.left) && !IsRed(path[0].sibling.right)
    ensures var x' := Attach(x, path[0].(sibling := Paint(path[0].sibling, Red)));
            DeleteInv(x', path[1..], if path[0].color == Black then n + 1 else n) &&
            (IsRed(x') <==> path[0].color == Red) &&
            Items(Plug(x', path[1..])) == Items(Plug(x, path))
  {
    DeleteOpen(x, path, n);
    var x' := Attach(x, path[0].(sibling := Paint(path[0].sibling, Red)));
    assert RB(Paint(path[0].sibling, Red), n);
    PlugSameItems(x', Attach(x, path[0]), path[1..]);
  }

  /** Case 3, x a left child: the sibling's far child is black and its near
      child red; the near child turns black, the sibling red, and the sibling
      is rotated right, so the new sibling's far child is red. */
  lemma DeleteInnerNephewLeft<V>(x: Tree<V>, path: seq<Frame<V>>, n: nat)
    requires DeleteInv(x, path, n) && !IsRed(x) && path != [] && path[0].LeftOf?
    requires path[0].sibling.Node? && !IsRed(path[0].sibling)
    requires IsRed(path[0].sibling.left) && !IsRed(path[0].sibling.right)
    ensures var w := path[0].sibling;
            var w' := RotateRight(Node(Red, Paint(w.left, Black), w.key, w.val, w.right));
            var path' := [path[0].(sibling := w')] + path[1..];
            DeleteInv(x, path', n) && path'[0].LeftOf? && !IsRed(w') && IsRed(w'.right) &&
            Items(Plug(x, path')) == Items(Plug(x, path))
  {
    DeleteOpen(x, path, n);
    var w := path[0].sibling;
    var w' := RotateRight(Node(Red, Paint(w.left, Black), w.key, w.val, w.right));
    var path' := [path[0].(sibling := w')] + path[1..];
    assert RB(w'.right, n);
    assert RB(w', n + 1);
    assert path'[1..] == path[1..];
    assert RootBlack(path') by {
      if path[1..] != [] {
        assert path'[|path'| - 1] == path[|path| - 1];
      }
    }
    PlugSameItems(Attach(x, path'[0]), Attach(x, path[0]), path[1..]);
  }

  /** Case 3, x a right child: the mirror image. */
  lemma DeleteInnerNephewRight<V>(x: Tree<V>, path: seq<Frame<V>>, n: nat)
    requires DeleteInv(x, path, n) && !IsRed(x) && path != [] && path[0].RightOf?
    requires path[0].sibling.Node? && !IsRed(path[0].sibling)
    requires IsRed(path[0].sibling.right) && !IsRed(path[0].sibling.left)
    ensures var w := path[0].sibling;
            var w' := RotateLeft(Node(Red, w.left, w.key, w.val, Paint(w.right, Black)));
            var path' := [path[0].(sibling := w')] + path[1..];
            DeleteInv(x, path', n) && path'[0].RightOf? && !IsRed(w') && IsRed(w'.left) &&
            Items(Plug(x, path')) == Items(Plug(x, path))
  {
    DeleteOpen(x, path, n);
    var w := path[0].sibling;
    var w' := RotateLeft(Node(Red, w.left, w.key, w.val, Paint(w.right, Black)));
    var path' := [path[0].(sibling := w')] + path[1..];
    assert RB(w'.left, n);
    assert RB(w', n + 1);
    assert path'[1..] == path[1..];
    assert RootBlack(path') by {
      if path[1..] != [] {
        assert path'[|path'| - 1] == path[|path| - 1];
      }
    }
    PlugSameItems(Attach(x, path'[0]), Attach(x, path[0]), path[1..]);
  }

  /** Case 4, x a left child: the sibling's far child is red. The sibling
      takes the parent's colour, parent and far child turn black, and the
      parent is rotated left; the tree is whole again and x becomes the root. */
  lemma DeleteFarNephewLeft<V>(x: Tree<V>, path: seq<Frame<V>>, n: nat)
    requires DeleteInv(x, path, n) && !IsRed(x) && path != [] && path[0].LeftOf?
    requires path[0].sibling.Node? && !IsRed(path[0].sibling) && IsRed(path[0].sibling.right)
    ensures var p := path[0];
            var w := p.sibling;
            var sub := RotateLeft(Attach(x, p.(color := Black, sibling := Node(p.color, w.left, w.key, w.val, Paint(w.right, Black)))));
            Balanced(Plug(sub, path[1..])) &&
            Items(Plug(sub, path[1..])) == Items(Plug(x, path))
  {
    DeleteOpen(x, path, n);
    var p := path[0];
    var w := p.sibling;
    var sub := RotateLeft(Attach(x, p.(color := Black, sibling := Node(p.color, w.left, w.key, w.val, Paint(w.right, Black)))));
    var h := if p.color == Black then n + 2 else n + 1;
    assert RB(sub.left, n + 1);
    assert RB(sub, h);
    PlugValid(sub, path[1..], h);
    PlugSameItems(sub, Attach(x, path[0]), path[1..]);
  }

  /** Case 4, x a right child: the mirror image. */
  lemma DeleteFarNephewRight<V>(x: Tree<V>, path: seq<Frame<V>>, n: nat)
    requires DeleteInv(x, path, n) && !IsRed(x) && path != [] && path[0].RightOf?
    requires path[0].sibling.Node? && !IsRed(path[0].sibling) && IsRed(path[0].sibling.left)
    ensures var p := path[0];
            var w := p.sibling;
            var sub := RotateRight(Attach(x, p.(color := Black, sibling := Node(p.color, Paint(w.left, Black), w.key, w.val, w.right))));
            Balanced(Plug(sub, path[1..])) &&
            Items(Plug(sub, path[1..])) == Items(Plug(x, path))
  {
    DeleteOpen(x, path, n);
    var p := path[0];
    var w := p.sibling;
    var sub := RotateRight(Attach(x, p.(color := Black, sibling := Node(p.color, Paint(w.left, Black), w.key, w.val, w.right))));
    var h := if p.color == Black then n + 2 else n + 1;
    assert RB(sub.right, n + 1);
    assert RB(sub, h);
    PlugValid(sub, path[1..], h);
    PlugSameItems(sub, Attach(x, path[0]), path[1..]);
  }

  // ---------------------------------------------------------------------------
  // The in-order contents through rb_insert's descent and rb_delete

  lemma SortedParts<V>(a: seq<Entry<V>>, b: seq<Entry<V>>)
    requires Sorted(a + b)
    ensures Sorted(a) && Sorted(b)
  {
    forall i, j | 0 <= i < j < |b| ensures b[i].key < b[j].key {
      assert (a + b)[|a| + i] == b[i] && (a + b)[|a| + j] == b[j];
    }
    forall i, j | 0 <= i < j < |a| ensures a[i].key < a[j].key {
      assert (a + b)[i] == a[i] && (a + b)[j] == a[j];
    }
  }

  /** The whole in-order sequence around a node, split at the node's entry. */
  lemma SplitAt<V>(z: Tree<V>, path: seq<Frame<V>>)
    requires z.Node? && Bst(Plug(z, path))
    ensures var a := Before(path) + Items(z.left);
            var b := Items(z.right) + After(path);
            Items(Plug(z, path)) == a + [Entry(z.key, z.val)] + b &&
            Sorted(a) && Sorted(b) && AllBelow(a, z.key) && AllAbove(b, z.key)
  {
    SplitItems(z, path);
    SortedSplit(Before(path) + Items(z.left), Entry(z.key, z.val), Items(z.right) + After(path));
  }

  lemma SplitItems<V>(z: Tree<V>, path: seq<Frame<V>>)
    requires z.Node?
    ensures Items(Plug(z, path)) == (Before(path) + Items(z.left)) + [Entry(z.key, z.val)] + (Items(z.right) + After(path))
  {
    PlugItems(z, path);
    var a := Before(path) + Items(z.left);
    var b := Items(z.right) + After(path);
    assert Items(z) == Items(z.left) + [Entry(z.key, z.val)] + Items(z.right);
    Regroup(Before(path), Items(z.left), Entry(z.key, z.val), Items(z.right), After(path));
  }

  lemma Join<V>(p: seq<Entry<V>>, q: seq<Entry<V>>, r: seq<Entry<V>>, t: seq<Entry<V>>)
    ensures p + q + r + t == (p + q) + (r + t)
  {
  }

  lemma Regroup<V>(p: seq<Entry<V>>, q: seq<Entry<V>>, e: Entry<V>, r: seq<Entry<V>>, t: seq<Entry<V>>)
    ensures p + (q + [e] + r) + t == (p + q) + [e] + (r + t)
  {
  }

  /** A step left in rb_insert's descent keeps key between the entries
      before and after the focus. */
  lemma DescendLeft<V>(x: Tree<V>, path: seq<Frame<V>>, key: int)
    requires x.Node? && key < x.key && Bst(Plug(x, path))
    requires AllBelow(Before(path), key) && AllAbove(After(path), key)
    ensures var path' := [LeftOf(x.color, x.key, x.val, x.right)] + path;
            Plug(x.left, path') == Plug(x, path) &&
            AllBelow(Before(path'), key) && AllAbove(After(path'), key)
  {
    var path' := [LeftOf(x.color, x.key, x.val, x.right)] + path;
    assert path'[1..] == path;
    SplitAt(x, path);
    var b := Items(x.right) + After(path);
    assert After(path') == [Entry(x.key, x.val)] + b;
    assert Before(path') == Before(path);
    AboveCons(Entry(x.key, x.val), b, key);
  }

  /** A step right: the mirror image. */
  lemma DescendRight<V>(x: Tree<V>, path: seq<Frame<V>>, key: int)
    requires x.Node? && key > x.key && Bst(Plug(x, path))
    requires AllBelow(Before(path), key) && AllAbove(After(path), key)
    ensures var path' := [RightOf(x.color, x.left, x.key, x.val)] + path;
            Plug(x.right, path') == Plug(x, path) &&
            AllBelow(Before(path'), key) && AllAbove(After(path'), key)
  {
    var path' := [RightOf(x.color, x.left, x.key, x.val)] + path;
    assert path'[1..] == path;
    SplitAt(x, path);
    var a := Before(path) + Items(x.left);
    assert Before(path') == a + [Entry(x.key, x.val)];
    assert After(path') == After(path);
    BelowSnoc(a, Entry(x.key, x.val), key);
  }

  /** Overwriting the value of the node holding the key replaces exactly that
      key's value and keeps the tree valid. */
  lemma ReplaceValue<V>(x: Tree<V>, path: seq<Frame<V>>, val: V)
    requires x.Node? && ValidTree(Plug(x, path))
    ensures var r := Plug(Node(x.color, x.left, x.key, val, x.right), path);
            ValidTree(r) && x.key in ToMap(Items(Plug(x, path))) &&
            ToMap(Items(r)) == ToMap(Items(Plug(x, path)))[x.key := val] &&
            |Items(r)| == |Items(Plug(x, path))|
  {
    var u := Node(x.color, x.left, x.key, val, x.right);
    SplitAt(x, path);
    var a := Before(path) + Items(x.left);
    var b := Items(x.right) + After(path);
    assert Items(Plug(u, path)) == a + [Entry(x.key, val)] + b by {
      PlugItems(u, path);
      assert Items(u) == Items(x.left) + [Entry(x.key, val)] + Items(x.right);
      Regroup(Before(path), Items(x.left), Entry(x.key, val), Items(x.right), After(path));
    }
    assert Bst(Plug(u, path)) by {
      SortedSplit(a, Entry(x.key, val), b);
    }
    ReplaceEntry(a, Entry(x.key, x.val), val, b);
    LookupMiddle(a, Entry(x.key, x.val), b);
    ReplaceKeepsRB(x, u, path);
  }

  /** A new entry linked where the descent ended lies in key order, adds
      exactly its key, and grows the sequence by one. */
  lemma InsertNew<V>(path: seq<Frame<V>>, key: int, val: V)
    requires Bst(Plug(Nil, path)) && AllBelow(Before(path), key) && AllAbove(After(path), key)
    ensures var t := Plug(Node(Red, Nil, key, val, Nil), path);
            Bst(t) && key !in ToMap(Items(Plug(Nil, path))) &&
            ToMap(Items(t)) == ToMap(Items(Plug(Nil, path)))[key := val] &&
            |Items(t)| == |Items(Plug(Nil, path))| + 1
  {
    var n := Node(Red, Nil, key, val, Nil);
    PlugItems(Nil, path);
    PlugItems(n, path);
    assert Items(Plug(Nil, path)) == Before(path) + After(path);
    assert Items(Plug(n, path)) == Before(path) + [Entry(key, val)] + After(path);
    SortedParts(Before(path), After(path));
    SortedSplit(Before(path), Entry(key, val), After(path));
    InsertEntry(Before(path), Entry(key, val), After(path));
  }

  /** Removing a node's entry from the in-order sequence removes exactly its
      key; the node held that key's value. */
  lemma RemoveNode<V>(z: Tree<V>, zpath: seq<Frame<V>>)
    requires z.Node? && Bst(Plug(z, zpath))
    ensures var s := Before(zpath) + Items(z.left) + Items(z.right) + After(zpath);
            Sorted(s) && |s| + 1 == |Items(Plug(z, zpath))| &&
            z.key in ToMap(Items(Plug(z, zpath))) && ToMap(Items(Plug(z, zpath)))[z.key] == z.val &&
            ToMap(s) == ToMap(Items(Plug(z, zpath))) - {z.key}
  {
    SplitItems(z, zpath);
    var a := Before(zpath) + Items(z.left);
    var b := Items(z.right) + After(zpath);
    Join(Before(zpath), Items(z.left), Items(z.right), After(zpath));
    RemoveMiddle(a, Entry(z.key, z.val), b);
  }

  lemma RemoveMiddle<V>(a: seq<Entry<V>>, e: Entry<V>, b: seq<Entry<V>>)
    requires Sorted(a + [e] + b)
    ensures Sorted(a + b) && |a + b| + 1 == |a + [e] + b|
    ensures e.key in ToMap(a + [e] + b) && ToMap(a + [e] + b)[e.key] == e.val
    ensures ToMap(a + b) == ToMap(a + [e] + b) - {e.key}
  {
    SortedSplit(a, e, b);
    LookupMiddle(a, e, b);
    RemoveEntry(a, e, b);
    SortedJoin(a, b, e.key);
  }

  lemma SortedJoin<V>(a: seq<Entry<V>>, b: seq<Entry<V>>, k: int)
    requires Sorted(a) && Sorted(b) && AllBelow(a, k) && AllAbove(b, k)
    ensures Sorted(a + b)
  {
    var s := a + b;
    forall i, j | 0 <= i < j < |s| ensures s[i].key < s[j].key {
      if j < |a| {
        assert s[i] == a[i] && s[j] == a[j];
      } else if i < |a| {
        assert s[i] == a[i] && s[j] == b[j - |a|];
      } else {
        assert s[i] == b[i - |a|] && s[j] == b[j - |a|];
      }
    }
  }

  // ---------------------------------------------------------------------------
  // Taking a node with a nil child out of the tree (rb_delete)

  lemma {:induction false} PlugAppend<V>(t: Tree<V>, p: seq<Frame<V>>, q: seq<Frame<V>>)
    ensures Plug(t, p + q) == Plug(Plug(t, p), q)
    decreases |p|
  {
    if p == [] {
      assert p + q == q;
    } else {
      assert (p + q)[0] == p[0] && (p + q)[1..] == p[1..] + q;
      PlugAppend(Attach(t, p[0]), p[1..], q);
    }
  }

  /** A path of left steps only, as rb_tree_min walks. */
  predicate AllLeft<V>(p: seq<Frame<V>>) {
    forall i :: 0 <= i < |p| ==> p[i].LeftOf?
  }

  lemma {:induction false} BeforeAllLeft<V>(p: seq<Frame<V>>)
    requires AllLeft(p)
    ensures Before(p) == []
    decreases |p|
  {
    if p != [] {
      BeforeAllLeft(p[1..]);
    }
  }

  /** Two paths whose frames differ at most in key and value. */
  ghost predicate SameShape<V>(p: seq<Frame<V>>, q: seq<Frame<V>>) {
    |p| == |q| &&
    forall i :: 0 <= i < |p| ==> p[i].color == q[i].color && p[i].sibling == q[i].sibling
  }

  lemma {:induction false} PathOKShape<V>(p: seq<Frame<V>>, q: seq<Frame<V>>, n: nat, c: bool)
    requires SameShape(p, q) && PathOK(p, n, c) && RootBlack(p)
    ensures PathOK(q, n, c) && RootBlack(q)
    decreases |p|
  {
    if p != [] {
      assert SameShape(p[1..], q[1..]) by {
        forall i | 0 <= i < |p| - 1 ensures p[1..][i].color == q[1..][i].color && p[1..][i].sibling == q[1..][i].sibling {
          assert p[1..][i] == p[i + 1] && q[1..][i] == q[i + 1];
        }
      }
      assert RootBlack(p[1..]) by {
        if |p| > 1 {
          assert p[1..][|p| - 2] == p[|p| - 1];
        }
      }
      PathOKShape(p[1..], q[1..], if p[0].color == Black then n + 1 else n, p[0].color == Red);
      assert RootBlack(q) by {
        assert p[|p| - 1].color == q[|q| - 1].color;
      }
    }
  }

  /** rb_delete takes out y, a node with a nil child, and puts its other
      child x in its place, under a path of the same shape. A red y leaves a
      valid tree; a black y leaves x one black short, which is what
      rb_delete_fixup repairs. */
  lemma DeleteStart<V>(y: Tree<V>, ypath: seq<Frame<V>>, x: Tree<V>, xpath: seq<Frame<V>>)
    requires y.Node? && Balanced(Plug(y, ypath)) && SameShape(ypath, xpath)
    requires (y.left.Nil? && x == y.right) || (y.right.Nil? && x == y.left)
    ensures y.color == Red ==> Balanced(Plug(x, xpath))
    ensures y.color == Black ==> BlackHeight(y) >= 1 && DeleteInv(x, xpath, BlackHeight(y) - 1)
  {
    var m := BlackHeight(y);
    Unplug(y, ypath, BlackHeight(Plug(y, ypath)));
    RootBlackOf(y, ypath);
    PathOKShape(ypath, xpath, m, IsRed(y));
    if y.color == Red {
      assert m == 0 && RB(x, 0) && !IsRed(x);
      PathOKNotRed(xpath, 0);
      PlugValid(x, xpath, 0);
    }
  }

  /** The successor y of z, the leftmost node of z's right subtree, takes z's
      place and colour, and y's right child x takes y's: only z's entry is
      gone from the in-order sequence. */
  lemma SuccessorItems<V>(z: Tree<V>, zpath: seq<Frame<V>>, y: Tree<V>, inner: seq<Frame<V>>)
    requires z.Node? && y.Node? && y.left.Nil? && AllLeft(inner) && Plug(y, inner) == z.right
    ensures var xpath := inner + [RightOf(z.color, z.left, y.key, y.val)] + zpath;
            Items(Plug(y.right, xpath)) == Before(zpath) + Items(z.left) + Items(z.right) + After(zpath)
  {
    var x := y.right;
    var f := RightOf(z.color, z.left, y.key, y.val);
    var u := Node(z.color, z.left, y.key, y.val, Plug(x, inner));
    PlugThrough(x, inner, f, zpath);
    SuccessorSubtree(z, y, inner);
    PlugItems(u, zpath);
    JoinMiddle(Before(zpath), Items(z.left), Items(z.right), After(zpath));
  }

  /** z's subtree with its successor's entry in z's node and the successor
      taken out of the right subtree holds z's subtrees' entries. */
  lemma SuccessorSubtree<V>(z: Tree<V>, y: Tree<V>, inner: seq<Frame<V>>)
    requires z.Node? && y.Node? && y.left.Nil? && AllLeft(inner) && Plug(y, inner) == z.right
    ensures Items(Node(z.color, z.left, y.key, y.val, Plug(y.right, inner))) == Items(z.left) + Items(z.right)
  {
    LeftmostItems(y, inner);
    var u := Node(z.color, z.left, y.key, y.val, Plug(y.right, inner));
    assert Items(u) == Items(z.left) + [Entry(y.key, y.val)] + (Items(y.right) + After(inner));
  }

  lemma PlugThrough<V>(x: Tree<V>, inner: seq<Frame<V>>, f: Frame<V>, zpath: seq<Frame<V>>)
    ensures Plug(x, inner + [f] + zpath) == Plug(Attach(Plug(x, inner), f), zpath)
  {
    assert inner + [f] + zpath == inner + ([f] + zpath);
    PlugAppend(x, inner, [f] + zpath);
    assert ([f] + zpath)[1..] == zpath;
  }

  /** Below a leftmost node only the entries after it remain. */
  lemma LeftmostItems<V>(y: Tree<V>, inner: seq<Frame<V>>)
    requires y.Node? && y.left.Nil? && AllLeft(inner)
    ensures Items(Plug(y.right, inner)) == Items(y.right) + After(inner)
    ensures Items(Plug(y, inner)) == [Entry(y.key, y.val)] + Items(y.right) + After(inner)
  {
    AfterOnly(y.right, inner);
    AfterOnly(y, inner);
    assert Items(y) == [Entry(y.key, y.val)] + Items(y.right);
  }

  lemma AfterOnly<V>(t: Tree<V>, inner: seq<Frame<V>>)
    requires AllLeft(inner)
    ensures Items(Plug(t, inner)) == Items(t) + After(inner)
  {
    BeforeAllLeft(inner);
    PlugItems(t, inner);
    assert [] + Items(t) == Items(t);
  }

  lemma JoinMiddle<V>(p: seq<Entry<V>>, q: seq<Entry<V>>, r: seq<Entry<V>>, t: seq<Entry<V>>)
    ensures p + (q + r) + t == p + q + r + t
  {
  }

  /** The path to z's successor y, and the same path with y's key and value
      in z's frame, as rb_delete leaves it for x. */
  lemma SuccessorShape<V>(z: Tree<V>, zpath: seq<Frame<V>>, y: Tree<V>, ypath: seq<Frame<V>>, xpath: seq<Frame<V>>)
    requires z.Node? && y.Node?
    requires var path := [RightOf(z.color, z.left, z.key, z.val)] + zpath;
             |ypath| >= |path| && ypath[|ypath| - |path|..] == path && Plug(y, ypath) == Plug(z.right, path)
    requires xpath == ypath[..|ypath| - |zpath| - 1] + [RightOf(z.color, z.left, y.key, y.val)] + zpath
    ensures SameShape(ypath, xpath) && Plug(y, ypath) == Plug(z, zpath)
  {
    var path := [RightOf(z.color, z.left, z.key, z.val)] + zpath;
    var k := |ypath| - |zpath| - 1;
    assert path[1..] == zpath;
    forall i | 0 <= i < |ypath| ensures ypath[i].color == xpath[i].color && ypath[i].sibling == xpath[i].sibling {
      if i < k {
        assert xpath[i] == ypath[i];
      } else if i == k {
        assert ypath[i] == path[0];
      } else {
        assert ypath[i] == path[i - k] == zpath[i - k - 1] == xpath[i];
      }
    }
  }
}
