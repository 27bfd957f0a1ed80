/** rbtree.c: the intrusive red-black tree with parent pointers, in place.

    `mem` holds the cells of all nodes, `root` is `root->rb_node`.  The ghost field
    `tree` is the shape the cells spell out; each method is proved against it. */
module RbTrees {
  import opened RbShape
  import opened RbMemory

  class RbTree {
    var mem: Mem
    var root: int
    ghost var tree: Tree

    ghost predicate Linkage()
      reads this
    {
      Spells(mem, root, tree)
    }

    ghost predicate Valid()
      reads this
    {
      Linkage() && IsRedBlackTree(tree)
    }

    constructor ()
      ensures Valid() && tree == Leaf
    {
      mem, root, tree := map[], NIL, Leaf;
      new;
      assert RedBlack(Leaf, 0);
    }

    method SetColor(n: int, c: Color, ghost k: Ctx, ghost s: Tree)
      requires Linkage() && tree == Plug(k, s) && s.Node? && s.id == n
      modifies this
      ensures Linkage() && tree == Plug(k, s.(color := c))
      ensures SameNodes(old(mem), old(tree), mem, tree)
    {
      Open(mem, root, k, s);
      PlugIds(k, s);
      mem := mem[n := mem[n].(color := c)];
      FrameTree(old(mem), mem, s.left, n);
      FrameTree(old(mem), mem, s.right, n);
      FrameCtx(old(mem), mem, k, n);
      Close(mem, root, k, s.(color := c), root, s);
      PlugSameNodes(k, s, s.(color := c));
      tree := Plug(k, s.(color := c));
    }

    method RotateLeft(node: int, ghost p: int, ghost b: int)
      requires node in mem && Pivot(mem, true, node, mem[node].right, b, p)
      modifies this`mem, this`root
      ensures IsRotation(old(mem), mem, true, node, old(mem[node].right), b, p)
      ensures root == if p == NIL then old(mem[node].right) else old(root)
    {
      var right := mem[node].right;
      var parent := mem[node].parent;
      mem := mem[node := mem[node].(right := mem[right].left)];
      if mem[right].left != NIL {
        mem := mem[mem[right].left := mem[mem[right].left].(parent := node)];
      }
      mem := mem[right := mem[right].(left := node)];
      mem := mem[right := mem[right].(parent := parent)];
      if parent != NIL {
        if node == mem[parent].left {
          mem := mem[parent := mem[parent].(left := right)];
        } else {
          mem := mem[parent := mem[parent].(right := right)];
        }
      } else {
        root := right;
      }
      mem := mem[node := mem[node].(parent := right)];
    }

    method RotateLeftAt(node: int, ghost k: Ctx, ghost s: Tree)
      requires Linkage() && tree == Plug(k, s) && s.Node? && s.id == node && s.right.Node?
      modifies this
      ensures Linkage() && tree == Plug(k, RotatedLeft(s))
      ensures SameNodes(old(mem), old(tree), mem, tree)
    {
      FindPivot(mem, root, k, s, true);
      RotateLeft(node, Parent(k), Root(s.right.left));
      RotationSpells(old(mem), old(root), k, s, true, mem, root);
      RotationKeeps(s);
      PlugSameNodes(k, s, RotatedLeft(s));
      tree := Plug(k, RotatedLeft(s));
    }

    method RotateRight(node: int, ghost p: int, ghost b: int)
      requires node in mem && Pivot(mem, false, node, mem[node].left, b, p)
      modifies this`mem, this`root
      ensures IsRotation(old(mem), mem, false, node, old(mem[node].left), b, p)
      ensures root == if p == NIL then old(mem[node].left) else old(root)
    {
      var left := mem[node].left;
      var parent := mem[node].parent;
      mem := mem[node := mem[node].(left := mem[left].right)];
      if mem[left].right != NIL {
        mem := mem[mem[left].right := mem[mem[left].right].(parent := node)];
      }
      mem := mem[left := mem[left].(right := node)];
      mem := mem[left := mem[left].(parent := parent)];
      if parent != NIL {
        if node == mem[parent].right {
          mem := mem[parent := mem[parent].(right := left)];
        } else {
          mem := mem[parent := mem[parent].(left := left)];
        }
      } else {
        root := left;
      }
      mem := mem[node := mem[node].(parent := left)];
    }

    method RotateRightAt(node: int, ghost k: Ctx, ghost s: Tree)
      requires Linkage() && tree == Plug(k, s) && s.Node? && s.id == node && s.left.Node?
      modifies this
      ensures Linkage() && tree == Plug(k, RotatedRight(s))
      ensures SameNodes(old(mem), old(tree), mem, tree)
    {
      FindPivot(mem, root, k, s, false);
      RotateRight(node, Parent(k), Root(s.left.right));
      RotationSpells(old(mem), old(root), k, s, false, mem, root);
      RotationKeeps(s);
      PlugSameNodes(k, s, RotatedRight(s));
      tree := Plug(k, RotatedRight(s));
    }

    /** The two rotation cases of rb_insert_color with the parent on the left. */
    method LiftLeft(node: int, parent: int, gparent: int, ghost up: Ctx, ghost g: Tree) returns (next: int)
      requires Linkage() && tree == Plug(up, g) && g.Node? && g.id == gparent && g.color.Black?
      requires g.left.Node? && g.left.id == parent && node != NIL
      requires Root(g.left.left) == node || Root(g.left.right) == node
      modifies this
      ensures Linkage() && tree == Plug(up, LiftedLeft(g, node))
      ensures next == if Root(g.left.right) == node then parent else node
      ensures SameNodes(old(mem), old(tree), mem, tree)
    {
      next := node;
      var lifted := parent;
      ghost var q := g.left;
      CellOf(mem, root, InLeft(up, g.id, g.color, g.right), q);
      if mem[parent].right == node {
        RotateLeftAt(parent, InLeft(up, g.id, g.color, g.right), q);
        q := RotatedLeft(q);
        lifted, next := node, parent;
      }
      SetColor(lifted, Black, InLeft(up, g.id, g.color, g.right), q);
      q := q.(color := Black);
      SetColor(gparent, Red, up, g.(left := q));
      RotateRightAt(gparent, up, g.(left := q, color := Red));
    }

    /** One round of rb_insert_color with the parent on the left of the grandparent. */
    method InsertFixLeft(node: int, parent: int, gparent: int, ghost up: Ctx, ghost g: Tree, ghost h: nat)
        returns (next: int, ghost k: Ctx, ghost t: Tree, ghost h': nat)
      requires Linkage() && tree == Plug(up, g) && g.Node? && g.id == gparent && g.color.Black? && node != NIL
      requires IsRedNode(g.left, parent) && RedChild(g.left, node, h) && RedBlack(g.right, h) && CtxRedBlack(up, h + 1)
      modifies this
      ensures Linkage() && tree == Plug(k, t) && IsRedNode(t, next)
      ensures RedBlack(t, h') && CtxRedBlack(k, h') && Depth(k) <= Depth(up) + 1
      ensures SameNodes(old(mem), old(tree), mem, tree)
    {
      CellOf(mem, root, up, g);
      var uncle := mem[gparent].right;
      if g.right.Node? { CellOf(mem, root, InRight(up, g.left, g.id, g.color), g.right); }
      if uncle != NIL && mem[uncle].color == Red {
        RecoloredRedBlack(g, node, h);
        SetColor(uncle, Black, InRight(up, g.left, g.id, g.color), g.right);
        ghost var g1 := g.(right := g.right.(color := Black));
        SetColor(parent, Black, InLeft(up, g1.id, g1.color, g1.right), g1.left);
        SetColor(gparent, Red, up, g1.(left := g1.left.(color := Black)));
        next, k, t, h' := gparent, up, Recolored(g), h + 1;
      } else {
        LiftedLeftRedBlack(g, node, h);
        next := LiftLeft(node, parent, gparent, up, g);
        ghost var r := LiftedLeft(g, node);
        k, t, h' := InLeft(up, r.id, r.color, r.right), r.left, h;
      }
    }

    /** The two rotation cases of rb_insert_color with the parent on the right. */
    method LiftRight(node: int, parent: int, gparent: int, ghost up: Ctx, ghost g: Tree) returns (next: int)
      requires Linkage() && tree == Plug(up, g) && g.Node? && g.id == gparent && g.color.Black?
      requires g.right.Node? && g.right.id == parent && node != NIL
      requires Root(g.right.left) == node || Root(g.right.right) == node
      modifies this
      ensures Linkage() && tree == Plug(up, LiftedRight(g, node))
      ensures next == if Root(g.right.left) == node then parent else node
      ensures SameNodes(old(mem), old(tree), mem, tree)
    {
      next := node;
      var lifted := parent;
      ghost var q := g.right;
      CellOf(mem, root, InRight(up, g.left, g.id, g.color), q);
      if mem[parent].left == node {
        RotateRightAt(parent, InRight(up, g.left, g.id, g.color), q);
        q := RotatedRight(q);
        lifted, next := node, parent;
      }
      SetColor(lifted, Black, InRight(up, g.left, g.id, g.color), q);
      q := q.(color := Black);
      SetColor(gparent, Red, up, g.(right := q));
      RotateLeftAt(gparent, up, g.(right := q, color := Red));
    }

    /** One round of rb_insert_color with the parent on the right of the grandparent. */
    method InsertFixRight(node: int, parent: int, gparent: int, ghost up: Ctx, ghost g: Tree, ghost h: nat)
        returns (next: int, ghost k: Ctx, ghost t: Tree, ghost h': nat)
      requires Linkage() && tree == Plug(up, g) && g.Node? && g.id == gparent && g.color.Black? && node != NIL
      requires IsRedNode(g.right, parent) && RedChild(g.right, node, h) && RedBlack(g.left, h) && CtxRedBlack(up, h + 1)
      modifies this
      ensures Linkage() && tree == Plug(k, t) && IsRedNode(t, next)
      ensures RedBlack(t, h') && CtxRedBlack(k, h') && Depth(k) <= Depth(up) + 1
      ensures SameNodes(old(mem), old(tree), mem, tree)
    {
      CellOf(mem, root, up, g);
      var uncle := mem[gparent].left;
      if g.left.Node? { CellOf(mem, root, InLeft(up, g.id, g.color, g.right), g.left); }
      if uncle != NIL && mem[uncle].color == Red {
        RecoloredRedBlack(g, node, h);
        SetColor(uncle, Black, InLeft(up, g.id, g.color, g.right), g.left);
        ghost var g1 := g.(left := g.left.(color := Black));
        SetColor(parent, Black, InRight(up, g1.left, g1.id, g1.color), g1.right);
        SetColor(gparent, Red, up, g1.(right := g1.right.(color := Black)));
        next, k, t, h' := gparent, up, Recolored(g), h + 1;
      } else {
        LiftedRightRedBlack(g, node, h);
        next := LiftRight(node, parent, gparent, up, g);
        ghost var r := LiftedRight(g, node);
        k, t, h' := InRight(up, r.left, r.id, r.color), r.right, h;
      }
    }

    /** rb_insert_color: `node` was linked as a red leaf into the hole of `hole`. */
    method InsertColor(node: int, ghost hole: Ctx)
      requires Linkage() && tree == Plug(hole, Node(Leaf, node, Red, Leaf))
      requires IsRedBlackTree(Plug(hole, Leaf))
      modifies this
      ensures Valid() && SameNodes(old(mem), old(tree), mem, tree)
    {
      var n := node;
      ghost var k, t, h := hole, Node(Leaf, node, Red, Leaf), 0;
      UnplugRedBlack(hole, Leaf);
      CellOf(mem, root, k, t);
      CtxCell(mem, root, k, t);
      var parent := mem[n].parent;
      while parent != NIL && mem[parent].color == Red
        invariant Linkage() && tree == Plug(k, t) && IsRedNode(t, n) && n != NIL
        invariant RedBlack(t, h) && CtxRedBlack(k, h)
        invariant parent == Parent(k) && (parent == NIL <==> k.Top?)
        invariant parent != NIL ==> parent in mem && mem[parent].color == k.color
        invariant SameNodes(old(mem), old(tree), mem, tree)
        decreases Depth(k)
      {
        InsertView(mem, root, k, t, h);
        ghost var g := Climb(k.up, Climb(k, t));
        var gparent := mem[parent].parent;
        if parent == mem[gparent].left {
          n, k, t, h := InsertFixLeft(n, parent, gparent, k.up.up, g, h);
        } else {
          n, k, t, h := InsertFixRight(n, parent, gparent, k.up.up, g, h);
        }
        CellOf(mem, root, k, t);
        CtxCell(mem, root, k, t);
        parent := mem[n].parent;
      }
      InsertDone(k, t, h);
      SetColor(root, Black, Top, tree);
    }

    /** A red sibling on the right is rotated above the parent. */
    method LiftSiblingLeft(parent: int, sibling: int, ghost up: Ctx, ghost g: Tree)
      requires Linkage() && tree == Plug(up, g) && g.Node? && g.id == parent && g.right.Node? && g.right.id == sibling
      modifies this
      ensures Linkage() && tree == Plug(up, SiblingLiftedLeft(g))
      ensures SameNodes(old(mem), old(tree), mem, tree)
    {
      SetColor(sibling, Black, InRight(up, g.left, g.id, g.color), g.right);
      ghost var g1 := g.(right := g.right.(color := Black));
      SetColor(parent, Red, up, g1);
      RotateLeftAt(parent, up, g1.(color := Red));
    }

    /** A red child of the sibling on the right is moved to the outside. */
    method StraightenLeft(parent: int, s0: int, ghost up: Ctx, ghost g: Tree) returns (sibling: int)
      requires Linkage() && tree == Plug(up, g) && g.Node? && g.id == parent && g.right.Node? && g.right.id == s0
      requires !(IsBlack(g.right.left) && IsBlack(g.right.right))
      modifies this
      ensures Linkage() && tree == Plug(up, g.(right := StraightenedLeft(g.right)))
      ensures sibling == StraightenedLeft(g.right).id
      ensures SameNodes(old(mem), old(tree), mem, tree)
    {
      sibling := s0;
      ghost var c, s := InRight(up, g.left, g.id, g.color), g.right;
      CellOf(mem, root, c, s);
      if s.right.Node? { CellOf(mem, root, InRight(c, s.left, s.id, s.color), s.right); }
      if mem[sibling].right == NIL || mem[mem[sibling].right].color == Black {
        SetColor(mem[sibling].left, Black, InLeft(c, s.id, s.color, s.right), s.left);
        s := s.(left := s.left.(color := Black));
        SetColor(sibling, Red, c, s);
        RotateRightAt(sibling, c, s.(color := Red));
        CellOf(mem, root, up, g.(right := StraightenedLeft(g.right)));
        sibling := mem[parent].right;
      }
    }

    /** The last case of rb_erase_color: a red child of the sibling on the right pays. */
    method BorrowLeft(parent: int, s0: int, ghost up: Ctx, ghost g: Tree)
      requires Linkage() && tree == Plug(up, g) && g.Node? && g.id == parent && g.right.Node? && g.right.id == s0
      requires !(IsBlack(g.right.left) && IsBlack(g.right.right))
      modifies this
      ensures Linkage() && tree == Plug(up, BorrowedLeft(g))
      ensures SameNodes(old(mem), old(tree), mem, tree)
    {
      var sibling := StraightenLeft(parent, s0, up, g);
      ghost var g1 := g.(right := StraightenedLeft(g.right));
      CellOf(mem, root, up, g1);
      SetColor(sibling, mem[parent].color, InRight(up, g1.left, g1.id, g1.color), g1.right);
      g1 := g1.(right := g1.right.(color := g.color));
      SetColor(parent, Black, up, g1);
      g1 := g1.(color := Black);
      CellOf(mem, root, InRight(up, g1.left, g1.id, g1.color), g1.right);
      SetColor(mem[sibling].right, Black, InRight(InRight(up, g1.left, g1.id, g1.color), g1.right.left, g1.right.id, g1.right.color), g1.right.right);
      g1 := g1.(right := g1.right.(right := g1.right.right.(color := Black)));
      RotateLeftAt(parent, up, g1);
    }

    /** A black sibling on the right: either it turns red and the loop climbs, or it pays. */
    method BlackSiblingLeft(parent: int, sibling: int, ghost up: Ctx, ghost g: Tree, ghost h: nat)
        returns (stop: bool, ghost h': nat)
      requires Linkage() && tree == Plug(up, g) && g.Node? && g.id == parent && g.right.Node? && g.right.id == sibling
      requires RedBlack(g.left, h) && IsBlack(g.left) && RedBlack(g.right, h + 1) && IsBlack(g.right)
      requires CtxRedBlack(up, h + 1 + Weight(g.color)) && (g.color.Red? ==> !up.Top? && up.color.Black?)
      requires up.Top? ==> g.color.Black?
      modifies this
      ensures Linkage() && SameNodes(old(mem), old(tree), mem, tree)
      ensures stop ==> IsRedBlackTree(tree)
      ensures !stop ==>
        var t := g.(right := g.right.(color := Red));
        tree == Plug(up, t) && Short(t, h') && CtxRedBlack(up, h' + 1)
    {
      ghost var c := InRight(up, g.left, g.id, g.color);
      CellOf(mem, root, c, g.right);
      if g.right.left.Node? { CellOf(mem, root, InLeft(c, sibling, g.right.color, g.right.right), g.right.left); }
      if g.right.right.Node? { CellOf(mem, root, InRight(c, g.right.left, sibling, g.right.color), g.right.right); }
      if && (mem[sibling].left == NIL || mem[mem[sibling].left].color == Black)
         && (mem[sibling].right == NIL || mem[mem[sibling].right].color == Black) {
        SetColor(sibling, Red, c, g.right);
        stop, h' := false, h + Weight(g.color);
      } else {
        BorrowedLeftRedBlack(g, h);
        BorrowLeft(parent, sibling, up, g);
        PlugRedBlack(up, BorrowedLeft(g), h + 1 + Weight(g.color));
        stop, h' := true, h;
      }
    }

    /** One round of rb_erase_color with the short subtree on the left of the parent. */
    method EraseFixLeft(parent: int, ghost up: Ctx, ghost g: Tree, ghost h: nat)
        returns (stop: bool, ghost k: Ctx, ghost t: Tree, ghost h': nat)
      requires Linkage() && tree == Plug(up, g) && g.Node? && g.id == parent && g.right.Node?
      requires RedBlack(g.left, h) && IsBlack(g.left) && RedBlack(g.right, h + 1)
      requires CtxRedBlack(up, h + 1 + Weight(g.color))
      requires g.color.Red? ==> IsBlack(g.right) && !up.Top? && up.color.Black?
      modifies this
      ensures Linkage() && SameNodes(old(mem), old(tree), mem, tree)
      ensures stop ==> IsRedBlackTree(tree)
      ensures !stop ==> tree == Plug(k, t) && Root(t) == parent && Short(t, h') && CtxRedBlack(k, h' + 1)
      ensures !stop ==> k == up || !IsBlack(t)
    {
      CellOf(mem, root, up, g);
      CellOf(mem, root, InRight(up, g.left, g.id, g.color), g.right);
      var sibling := mem[parent].right;
      k, t := up, g;
      if mem[sibling].color == Red {
        LiftSiblingLeft(parent, sibling, up, g);
        ghost var s := SiblingLiftedLeft(g);
        k, t := InLeft(up, s.id, s.color, s.right), s.left;
        CellOf(mem, root, k, t);
        sibling := mem[parent].right;
      }
      stop, h' := BlackSiblingLeft(parent, sibling, k, t, h);
      t := t.(right := t.right.(color := Red));
    }

    /** A red sibling on the left is rotated above the parent. */
    method LiftSiblingRight(parent: int, sibling: int, ghost up: Ctx, ghost g: Tree)
      requires Linkage() && tree == Plug(up, g) && g.Node? && g.id == parent && g.left.Node? && g.left.id == sibling
      modifies this
      ensures Linkage() && tree == Plug(up, SiblingLiftedRight(g))
      ensures SameNodes(old(mem), old(tree), mem, tree)
    {
      SetColor(sibling, Black, InLeft(up, g.id, g.color, g.right), g.left);
      ghost var g1 := g.(left := g.left.(color := Black));
      SetColor(parent, Red, up, g1);
      RotateRightAt(parent, up, g1.(color := Red));
    }

    /** A red child of the sibling on the left is moved to the outside. */
    method StraightenRight(parent: int, s0: int, ghost up: Ctx, ghost g: Tree) returns (sibling: int)
      requires Linkage() && tree == Plug(up, g) && g.Node? && g.id == parent && g.left.Node? && g.left.id == s0
      requires !(IsBlack(g.left.left) && IsBlack(g.left.right))
      modifies this
      ensures Linkage() && tree == Plug(up, g.(left := StraightenedRight(g.left)))
      ensures sibling == StraightenedRight(g.left).id
      ensures SameNodes(old(mem), old(tree), mem, tree)
    {
      sibling := s0;
      ghost var c, s := InLeft(up, g.id, g.color, g.right), g.left;
      CellOf(mem, root, c, s);
      if s.left.Node? { CellOf(mem, root, InLeft(c, s.id, s.color, s.right), s.left); }
      if mem[sibling].left == NIL || mem[mem[sibling].left].color == Black {
        SetColor(mem[sibling].right, Black, InRight(c, s.left, s.id, s.color), s.right);
        s := s.(right := s.right.(color := Black));
        SetColor(sibling, Red, c, s);
        RotateLeftAt(sibling, c, s.(color := Red));
        CellOf(mem, root, up, g.(left := StraightenedRight(g.left)));
        sibling := mem[parent].left;
      }
    }

    /** The last case of rb_erase_color: a red child of the sibling on the left pays. */
    method BorrowRight(parent: int, s0: int, ghost up: Ctx, ghost g: Tree)
      requires Linkage() && tree == Plug(up, g) && g.Node? && g.id == parent && g.left.Node? && g.left.id == s0
      requires !(IsBlack(g.left.left) && IsBlack(g.left.right))
      modifies this
      ensures Linkage() && tree == Plug(up, BorrowedRight(g))
      ensures SameNodes(old(mem), old(tree), mem, tree)
    {
      var sibling := StraightenRight(parent, s0, up, g);
      ghost var g1 := g.(left := StraightenedRight(g.left));
      CellOf(mem, root, up, g1);
      SetColor(sibling, mem[parent].color, InLeft(up, g1.id, g1.color, g1.right), g1.left);
      g1 := g1.(left := g1.left.(color := g.color));
      SetColor(parent, Black, up, g1);
      g1 := g1.(color := Black);
      CellOf(mem, root, InLeft(up, g1.id, g1.color, g1.right), g1.left);
      SetColor(mem[sibling].left, Black, InLeft(InLeft(up, g1.id, g1.color, g1.right), g1.left.id, g1.left.color, g1.left.right), g1.left.left);
      g1 := g1.(left := g1.left.(left := g1.left.left.(color := Black)));
      RotateRightAt(parent, up, g1);
    }

    /** A black sibling on the left: either it turns red and the loop climbs, or it pays. */
    method BlackSiblingRight(parent: int, sibling: int, ghost up: Ctx, ghost g: Tree, ghost h: nat)
        returns (stop: bool, ghost h': nat)
      requires Linkage() && tree == Plug(up, g) && g.Node? && g.id == parent && g.left.Node? && g.left.id == sibling
      requires RedBlack(g.right, h) && IsBlack(g.right) && RedBlack(g.left, h + 1) && IsBlack(g.left)
      requires CtxRedBlack(up, h + 1 + Weight(g.color)) && (g.color.Red? ==> !up.Top? && up.color.Black?)
      requires up.Top? ==> g.color.Black?
      modifies this
      ensures Linkage() && SameNodes(old(mem), old(tree), mem, tree)
      ensures stop ==> IsRedBlackTree(tree)
      ensures !stop ==>
        var t := g.(left := g.left.(color := Red));
        tree == Plug(up, t) && Short(t, h') && CtxRedBlack(up, h' + 1)
    {
      ghost var c := InLeft(up, g.id, g.color, g.right);
      CellOf(mem, root, c, g.left);
      if g.left.left.Node? { CellOf(mem, root, InLeft(c, sibling, g.left.color, g.left.right), g.left.left); }
      if g.left.right.Node? { CellOf(mem, root, InRight(c, g.left.left, sibling, g.left.color), g.left.right); }
      if && (mem[sibling].left == NIL || mem[mem[sibling].left].color == Black)
         && (mem[sibling].right == NIL || mem[mem[sibling].right].color == Black) {
        SetColor(sibling, Red, c, g.left);
        stop, h' := false, h + Weight(g.color);
      } else {
        BorrowedRightRedBlack(g, h);
        BorrowRight(parent, sibling, up, g);
        PlugRedBlack(up, BorrowedRight(g), h + 1 + Weight(g.color));
        stop, h' := true, h;
      }
    }

    /** One round of rb_erase_color with the short subtree on the right of the parent. */
    method EraseFixRight(parent: int, ghost up: Ctx, ghost g: Tree, ghost h: nat)
        returns (stop: bool, ghost k: Ctx, ghost t: Tree, ghost h': nat)
      requires Linkage() && tree == Plug(up, g) && g.Node? && g.id == parent && g.left.Node?
      requires RedBlack(g.right, h) && IsBlack(g.right) && RedBlack(g.left, h + 1)
      requires CtxRedBlack(up, h + 1 + Weight(g.color))
      requires g.color.Red? ==> IsBlack(g.left) && !up.Top? && up.color.Black?
      modifies this
      ensures Linkage() && SameNodes(old(mem), old(tree), mem, tree)
      ensures stop ==> IsRedBlackTree(tree)
      ensures !stop ==> tree == Plug(k, t) && Root(t) == parent && Short(t, h') && CtxRedBlack(k, h' + 1)
      ensures !stop ==> k == up || !IsBlack(t)
    {
      CellOf(mem, root, up, g);
      CellOf(mem, root, InLeft(up, g.id, g.color, g.right), g.left);
      var sibling := mem[parent].left;
      k, t := up, g;
      if mem[sibling].color == Red {
        LiftSiblingRight(parent, sibling, up, g);
        ghost var s := SiblingLiftedRight(g);
        k, t := InRight(up, s.left, s.id, s.color), s.right;
        CellOf(mem, root, k, t);
        sibling := mem[parent].left;
      }
      stop, h' := BlackSiblingRight(parent, sibling, k, t, h);
      t := t.(left := t.left.(color := Red));
    }

    /** `node` is the root of a subtree that is one black node short. */
    ghost predicate ShortAt(node: int, k: Ctx, t: Tree, h: nat)
      reads this
    {
      && Linkage() && tree == Plug(k, t) && Root(t) == node && (node != NIL <==> t.Node?)
      && (t.Node? ==> node in mem && mem[node].color == t.color)
      && Short(t, h) && CtxRedBlack(k, h + 1)
    }

    /** The body of the loop of rb_erase_color; `stop` is its `break`. */
    method EraseRound(n0: int, p0: int, ghost k0: Ctx, ghost t0: Tree, ghost h0: nat)
        returns (stop: bool, node: int, parent: int, ghost k: Ctx, ghost t: Tree, ghost h: nat)
      requires ShortAt(n0, k0, t0, h0) && IsBlack(t0) && n0 != root && p0 == Parent(k0)
      modifies this
      ensures ShortAt(node, k, t, h) && SameNodes(old(mem), old(tree), mem, tree)
      ensures stop ==> k.Top?
      ensures !stop ==> parent == Parent(k) && (Depth(k) < Depth(k0) || !IsBlack(t))
    {
      EraseView(mem, root, k0, t0, h0);
      if mem[p0].left == n0 {
        stop, k, t, h := EraseFixLeft(p0, k0.up, Climb(k0, t0), h0);
      } else {
        stop, k, t, h := EraseFixRight(p0, k0.up, Climb(k0, t0), h0);
      }
      if stop {
        node, parent := root, p0;
        k, t := Top, tree;
        h :| RedBlack(t, h);
        if t.Node? { CellOf(mem, root, k, t); }
      } else {
        node := p0;
        CellOf(mem, root, k, t);
        parent := mem[node].parent;
      }
    }

    /** rb_erase_color: the subtree at `n0` below `p0` is one black node short. */
    method EraseColor(n0: int, p0: int, ghost hole: Ctx, ghost sub: Tree, ghost h0: nat)
      requires Linkage() && tree == Plug(hole, sub) && Root(sub) == n0 && Parent(hole) == p0
      requires RedBlack(sub, h0) && CtxRedBlack(hole, h0 + 1)
      modifies this
      ensures Valid() && SameNodes(old(mem), old(tree), mem, tree)
    {
      if sub.Node? {
        CellOf(mem, root, hole, sub);
        assert sub.color.Red? ==> RedBlack(sub.(color := Black), h0 + 1);
      }
      var node;
      ghost var k, t, h;
      node, k, t, h := EraseLoop(n0, p0, hole, sub, h0);
      EraseDone(k, t, h);
      if node != NIL {
        SetColor(node, Black, k, t);
      }
    }

    /** The loop of rb_erase_color: it ends at the root or at a red node. */
    method EraseLoop(n0: int, p0: int, ghost k0: Ctx, ghost t0: Tree, ghost h0: nat)
        returns (node: int, ghost k: Ctx, ghost t: Tree, ghost h: nat)
      requires ShortAt(n0, k0, t0, h0) && p0 == Parent(k0)
      modifies this
      ensures ShortAt(node, k, t, h) && SameNodes(old(mem), old(tree), mem, tree) && (k.Top? || !IsBlack(t))
    {
      hide RedBlack, CtxRedBlack, Short;
      var parent := p0;
      node, k, t, h := n0, k0, t0, h0;
      while (node == NIL || mem[node].color == Black) && node != root
        invariant ShortAt(node, k, t, h) && parent == Parent(k)
        invariant SameNodes(old(mem), old(tree), mem, tree)
        decreases if IsBlack(t) then 1 + Depth(k) else 0
      {
        var stop;
        ghost var m, u := mem, tree;
        stop, node, parent, k, t, h := EraseRound(node, parent, k, t, h);
        SameNodesTrans(old(mem), old(tree), m, u, mem, tree);
        if stop { return; }
      }
      CtxCell(mem, root, k, t);
    }

    /** Links `n` as a red leaf into the hole that a descent ended in, and rebalances. */
    method Insert(n: int, parent: int, onLeft: bool, ghost k: Ctx)
      requires Valid() && tree == Plug(k, Leaf) && n != NIL && n !in Ids(tree)
      requires parent == Parent(k) && (!k.Top? ==> (onLeft <==> k.InLeft?))
      modifies this
      ensures Valid() && Inorder(tree) == Before(k) + [n] + After(k)
      ensures mem.Keys == old(mem.Keys) + {n}
      ensures forall m :: m in old(mem) && m != n && m !in old(Ids(tree)) ==> mem[m] == old(mem)[m]
    {
      LinkLeaf(n, parent, onLeft, k);
      PlugInorder(k, Node(Leaf, n, Red, Leaf));
      PlugIds(k, Leaf);
      PlugIds(k, Node(Leaf, n, Red, Leaf));
      InsertColor(n, k);
    }

    /** The writes of a caller that hangs a red leaf on a link. */
    method LinkLeaf(n: int, parent: int, onLeft: bool, ghost k: Ctx)
      requires Linkage() && tree == Plug(k, Leaf) && n != NIL && n !in Ids(tree)
      requires parent == Parent(k) && (!k.Top? ==> (onLeft <==> k.InLeft?))
      modifies this
      ensures Linkage() && tree == Plug(k, Node(Leaf, n, Red, Leaf)) && mem.Keys == old(mem.Keys) + {n}
      ensures forall m :: m in old(mem) && m != n && m != parent ==> mem[m] == old(mem)[m]
      ensures parent != NIL ==> parent in old(Ids(tree))
    {
      LeafView(mem, root, k, n);
      PlugIds(k, Leaf);
      mem := mem[n := Cell(parent, NIL, NIL, Red)];
      if parent != NIL {
        if onLeft {
          mem := mem[parent := mem[parent].(left := n)];
        } else {
          mem := mem[parent := mem[parent].(right := n)];
        }
      } else {
        root := n;
      }
      LeafSpells(old(mem), old(root), k, n, mem, root);
      tree := Plug(k, Node(Leaf, n, Red, Leaf));
    }

    /** RB_CLEAR_NODE: a node outside the tree is made its own parent. */
    method ClearNode(n: int)
      requires Valid() && n !in Ids(tree) && n != NIL
      modifies this`mem
      ensures Valid() && mem.Keys == old(mem.Keys) + {n}
    {
      mem := mem[n := if n in mem then mem[n].(parent := n) else Cell(n, NIL, NIL, Black)];
      FrameTree(old(mem), mem, tree, NIL);
    }

    /** Walks left links to the first node of the subtree in focus. */
    method Leftmost(n0: int, ghost k: Ctx, ghost s: Tree) returns (n: int, ghost spine: Ctx, ghost x: Tree)
      requires Linkage() && tree == Plug(k, s) && s.Node? && s.id == n0
      ensures s == Plug(spine, x) && tree == Plug(Compose(spine, k), x)
      ensures x.Node? && x.left.Leaf? && x.id == n && Before(spine) == []
    {
      n, spine, x := n0, Top, s;
      CellOf(mem, root, k, s);
      while mem[n].left != NIL
        invariant s == Plug(spine, x) && tree == Plug(Compose(spine, k), x)
        invariant x.Node? && x.id == n && Before(spine) == []
        invariant n in mem && mem[n].left == Root(x.left) && (Root(x.left) == NIL <==> x.left.Leaf?)
        decreases x
      {
        n := mem[n].left;
        spine, x := InLeft(spine, x.id, x.color, x.right), x.left;
        CellOf(mem, root, Compose(spine, k), x);
      }
    }

    /** rb_first: the first node of the in-order sequence. */
    method First() returns (n: int)
      requires Linkage()
      ensures n == if Inorder(tree) == [] then NIL else Inorder(tree)[0]
      ensures n == NIL <==> tree.Leaf?
    {
      n := root;
      if n != NIL {
        CellOf(mem, root, Top, tree);
        ghost var spine, x;
        n, spine, x := Leftmost(n, Top, tree);
        CellOf(mem, root, Compose(spine, Top), x);
        PlugInorder(spine, x);
      }
    }

    /** rb_next: the node that follows in the in-order sequence. */
    method Next(node: int) returns (n: int)
      requires Linkage() && (node == NIL || node in Ids(tree))
      ensures node == NIL ==> n == NIL
      ensures node != NIL ==> n == Follower(Inorder(tree), node)
    {
      if node == NIL { return NIL; }
      ghost var k, s := Focus(tree, node);
      CellOf(mem, root, k, s);
      FocusedOrder(k, s);
      FollowerMiddle(Before(k) + Inorder(s.left), node, Inorder(s.right) + After(k));
      if mem[node].right != NIL {
        ghost var spine, x;
        n, spine, x := Leftmost(mem[node].right, InRight(k, s.left, s.id, s.color), s.right);
        PlugInorder(spine, x);
        return;
      }
      var child := node;
      ghost var rest := After(k);
      n := mem[child].parent;
      CtxCell(mem, root, k, s);
      while n != NIL && child == mem[n].right
        invariant tree == Plug(k, s) && s.Node? && s.id == child && After(k) == rest
        invariant n == Parent(k) && (n == NIL <==> k.Top?)
        invariant n != NIL ==> n in mem && (child == mem[n].right <==> k.InRight?)
        decreases k
      {
        s, k := Climb(k, s), k.up;
        child := n;
        CellOf(mem, root, k, s);
        CtxCell(mem, root, k, s);
        n := mem[child].parent;
      }
    }

    /** Starting at rb_first and following rb_next until NULL visits every node once, in order. */
    method Enumerate() returns (visited: seq<int>)
      requires Linkage()
      ensures visited == Inorder(tree) && NoDup(visited) && forall n :: n in visited <==> n in Ids(tree)
    {
      ghost var q := Inorder(tree);
      DistinctNoDup(tree);
      InorderIds(tree);
      visited := [];
      var node := First();
      hide Ids, Inorder, Follower;
      while node != NIL
        invariant |visited| <= |q| && visited == q[..|visited|]
        invariant node == (if |visited| < |q| then q[|visited|] else NIL) && (node == NIL <==> |visited| == |q|)
        decreases |q| - |visited|
      {
        WalkStep(tree, |visited|);
        visited := visited + [node];
        node := Next(node);
      }
    }

    method SpliceCells(node: int, child: int, ghost k: Ctx)
      requires node in mem && mem[node].parent == Parent(k) && (Parent(k) == NIL <==> k.Top?)
      requires NIL !in mem && (child != NIL ==> child in mem && child != Parent(k))
      requires !k.Top? ==> k.id in mem && (mem[k.id].left == node <==> k.InLeft?)
      modifies this`mem, this`root
      ensures IsSplice(old(mem), mem, k, node, child)
      ensures root == if k.Top? then child else old(root)
    {
      var parent := mem[node].parent;
      if child != NIL {
        mem := mem[child := mem[child].(parent := parent)];
      }
      if parent != NIL {
        if mem[parent].left == node {
          mem := mem[parent := mem[parent].(left := child)];
        } else {
          mem := mem[parent := mem[parent].(right := child)];
        }
      } else {
        root := child;
      }
    }

    /** Links the child of a node with at most one child into the node's place. */
    method Splice(node: int, child: int, ghost k: Ctx, ghost s: Tree)
      requires Linkage() && tree == Plug(k, s) && s.Node? && s.id == node && (s.left.Leaf? || s.right.Leaf?)
      requires child == Root(if s.left.Leaf? then s.right else s.left)
      modifies this
      ensures Linkage() && tree == Plug(k, if s.left.Leaf? then s.right else s.left)
      ensures node in old(mem) && node in mem && mem[node] == old(mem)[node] && node !in Ids(tree)
      ensures SameOutside(old(mem), mem, Ids(old(tree)))
    {
      ghost var u := if s.left.Leaf? then s.right else s.left;
      CellOf(mem, root, k, s);
      CtxCell(mem, root, k, s);
      ChildCell(mem, root, k, s, u);
      SpliceCells(node, child, k);
      SpliceSpells(old(mem), old(root), k, s, u, mem, root);
      SpliceKeeps(old(mem), old(root), k, s, u, mem);
      tree := Plug(k, u);
    }

    method ReplaceCells(o: int, n: int, ghost k: Ctx, ghost s: Tree)
      requires s.Node? && s.id == o && o in mem && n in mem && n != o && NIL !in mem
      requires mem[o] == Cell(Parent(k), Root(s.left), Root(s.right), s.color)
      requires Parent(k) == NIL <==> k.Top?
      requires !k.Top? ==> k.id in mem && k.id != n && k.id != o && (mem[k.id].left == o <==> k.InLeft?)
      requires Root(s.left) in mem && Root(s.left) != n && Root(s.left) != o && Root(s.left) != Parent(k)
      requires Root(s.right) != NIL ==> Root(s.right) in mem && Root(s.right) != n && Root(s.right) != o
      requires Root(s.right) != NIL ==> Root(s.right) != Parent(k) && Root(s.right) != Root(s.left)
      modifies this`mem, this`root
      ensures IsReplacement(old(mem), mem, k, s, n)
      ensures root == if k.Top? then n else old(root)
    {
      mem := mem[n := mem[n].(parent := mem[o].parent)];
      mem := mem[n := mem[n].(color := mem[o].color)];
      mem := mem[n := mem[n].(right := mem[o].right)];
      mem := mem[n := mem[n].(left := mem[o].left)];
      var parent := mem[o].parent;
      if parent != NIL {
        if mem[parent].left == o {
          mem := mem[parent := mem[parent].(left := n)];
        } else {
          mem := mem[parent := mem[parent].(right := n)];
        }
      } else {
        root := n;
      }
      mem := mem[mem[o].left := mem[mem[o].left].(parent := n)];
      if mem[o].right != NIL {
        mem := mem[mem[o].right := mem[mem[o].right].(parent := n)];
      }
    }

    /** Puts node `n`, which is in no tree, into the place and colour of `o`. */
    method Replace(o: int, n: int, ghost k: Ctx, ghost s: Tree)
      requires Linkage() && tree == Plug(k, s) && s.Node? && s.id == o && s.left.Node?
      requires n in mem && n !in Ids(tree) && n != NIL
      modifies this
      ensures Linkage() && tree == Plug(k, s.(id := n))
      ensures SameOutside(old(mem), mem, Ids(old(tree)) + {n})
    {
      ReplaceView(mem, root, k, s, n);
      ReplaceCells(o, n, k, s);
      ReplacementSpells(old(mem), old(root), k, s, n, mem, root);
      tree := Plug(k, s.(id := n));
    }

    /** rb_erase: exactly `node` leaves the in-order sequence, and the tree stays red-black. */
    method Erase(node: int)
      requires Valid() && node in Ids(tree)
      modifies this
      ensures Valid() && Inorder(tree) == Remove(old(Inorder(tree)), node)
      ensures SameOutside(old(mem), mem, old(Ids(tree)))
    {
      ghost var k, s := Focus(tree, node);
      CellOf(mem, root, k, s);
      RemoveFocused(k, s);
      if mem[node].left == NIL {
        EraseOne(node, mem[node].right, k, s);
      } else if mem[node].right == NIL {
        EraseOne(node, mem[node].left, k, s);
      } else {
        EraseTwo(node, k, s);
      }
    }

    /** The end of rb_erase: a removed black node is made up for. */
    method ColorFixup(color: Color, child: int, parent: int, ghost k: Ctx, ghost u: Tree, ghost h: nat)
      requires Linkage() && tree == Plug(k, u) && child == Root(u) && parent == Parent(k)
      requires RedBlack(u, h) && CtxRedBlack(k, h + Weight(color)) && (color.Red? ==> IsBlack(u))
      modifies this
      ensures Valid() && SameNodes(old(mem), old(tree), mem, tree)
    {
      if color == Black {
        EraseColor(child, parent, k, u, h);
      } else {
        PlugRedBlack(k, u, h);
      }
    }

    /** rb_erase for a node with at most one child. */
    method EraseOne(node: int, child: int, ghost k: Ctx, ghost s: Tree)
      requires Valid() && tree == Plug(k, s) && s.Node? && s.id == node && (s.left.Leaf? || s.right.Leaf?)
      requires child == Root(if s.left.Leaf? then s.right else s.left)
      modifies this
      ensures Valid() && Inorder(tree) == Before(k) + (Inorder(s.left) + Inorder(s.right)) + After(k)
      ensures SameOutside(old(mem), mem, old(Ids(tree)))
    {
      ghost var u := if s.left.Leaf? then s.right else s.left;
      SplicedRedBlack(k, s);
      CellOf(mem, root, k, s);
      SplicedOrder(k, s);
      var parent := mem[node].parent;
      var color := mem[node].color;
      Splice(node, child, k, s);
      ColorFixup(color, child, parent, k, u, BlackHeight(s) - Weight(s.color));
    }

    /** rb_erase for a node with two children: its successor takes its place. */
    method EraseTwo(old_node: int, ghost k: Ctx, ghost s: Tree)
      requires Valid() && tree == Plug(k, s) && s.Node? && s.id == old_node && s.left.Node? && s.right.Node?
      modifies this
      ensures Valid() && Inorder(tree) == Before(k) + (Inorder(s.left) + Inorder(s.right)) + After(k)
      ensures SameOutside(old(mem), mem, old(Ids(tree)))
    {
      ghost var spine, x;
      var node;
      ghost var frame := InRight(k, s.left, s.id, s.color);
      CellOf(mem, root, k, s);
      node, spine, x := Leftmost(mem[old_node].right, frame, s.right);
      ghost var hole, hole' := Compose(spine, frame), Compose(spine, InRight(k, s.left, node, s.color));
      CellOf(mem, root, hole, x);
      SplicedRedBlack(hole, x);
      RenameRedBlack(spine, k, s.left, old_node, node, s.color, BlackHeight(x));
      SuccessorOrder(k, s, spine, x);
      SuccessorIds(k, s, spine, x);
      SuccessorHole(k, s, spine, x);
      var child := mem[node].right;
      var parent := mem[node].parent;
      var color := mem[node].color;
      Splice(node, child, hole, x);
      if mem[node].parent == old_node {
        parent := node;
      }
      Replace(old_node, node, k, Node(s.left, s.id, s.color, Plug(spine, x.right)));
      ColorFixup(color, child, parent, hole', x.right, BlackHeight(x) - Weight(x.color));
    }
  }

  /** Two states with the same nodes in the same order, and no other cell changed. */
  predicate SameNodes(m: Mem, t: Tree, m': Mem, t': Tree) {
    Inorder(t') == Inorder(t) && Ids(t') == Ids(t) && SameOutside(m, m', Ids(t))
  }

  lemma {:induction false} SameNodesTrans(m: Mem, t: Tree, m': Mem, t': Tree, m'': Mem, t'': Tree)
    requires SameNodes(m, t, m', t') && SameNodes(m', t', m'', t'')
    ensures SameNodes(m, t, m'', t'')
  {
  }
}
