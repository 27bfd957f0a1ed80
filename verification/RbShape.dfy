/** Red-black trees as values.

    `Tree` is the shape that the cells of an intrusive tree spell out, `Ctx` is the
    same tree seen from one node upwards (what is left when a subtree is taken out).
    All colour and black-height reasoning is done here; nothing in this module knows
    about memory. */
module RbShape {

  /** The null pointer.  Every node identity is some other number. */
  const NIL := -1

  datatype Color = Red | Black

  datatype Tree = Leaf | Node(left: Tree, id: int, color: Color, right: Tree)

  datatype Ctx =
    | Top
    | InLeft(up: Ctx, id: int, color: Color, right: Tree)
    | InRight(up: Ctx, left: Tree, id: int, color: Color)

  // ---------------------------------------------------------------- shape

  function Root(t: Tree): int {
    if t.Leaf? then NIL else t.id
  }

  function Parent(k: Ctx): int {
    if k.Top? then NIL else k.id
  }

  /** Puts a subtree back into the hole of a context. */
  function Plug(k: Ctx, t: Tree): Tree {
    match k
    case Top => t
    case InLeft(up, n, c, r) => Plug(up, Node(t, n, c, r))
    case InRight(up, l, n, c) => Plug(up, Node(l, n, c, t))
  }

  function Ids(t: Tree): set<int> {
    if t.Leaf? then {} else Ids(t.left) + {t.id} + Ids(t.right)
  }

  function CtxIds(k: Ctx): set<int> {
    match k
    case Top => {}
    case InLeft(up, n, _, r) => CtxIds(up) + {n} + Ids(r)
    case InRight(up, l, n, _) => CtxIds(up) + {n} + Ids(l)
  }

  /** No node occurs twice, and none is the null pointer. */
  predicate Distinct(t: Tree) {
    t.Node? ==>
      && t.id != NIL
      && Distinct(t.left) && Distinct(t.right)
      && t.id !in Ids(t.left) && t.id !in Ids(t.right)
      && Ids(t.left) !! Ids(t.right)
  }

  predicate CtxDistinct(k: Ctx) {
    match k
    case Top => true
    case InLeft(up, n, _, r) =>
      n != NIL && CtxDistinct(up) && Distinct(r) && n !in Ids(r) && n !in CtxIds(up) && CtxIds(up) !! Ids(r)
    case InRight(up, l, n, _) =>
      n != NIL && CtxDistinct(up) && Distinct(l) && n !in Ids(l) && n !in CtxIds(up) && CtxIds(up) !! Ids(l)
  }

  function Inorder(t: Tree): seq<int> {
    if t.Leaf? then [] else Inorder(t.left) + [t.id] + Inorder(t.right)
  }

  /** The nodes that come before the hole, in order. */
  function Before(k: Ctx): seq<int> {
    match k
    case Top => []
    case InLeft(up, _, _, _) => Before(up)
    case InRight(up, l, n, _) => Before(up) + Inorder(l) + [n]
  }

  /** The nodes that come after the hole, in order. */
  function After(k: Ctx): seq<int> {
    match k
    case Top => []
    case InLeft(up, n, _, r) => [n] + Inorder(r) + After(up)
    case InRight(up, _, _, _) => After(up)
  }

  function Depth(k: Ctx): nat {
    if k.Top? then 0 else 1 + Depth(k.up)
  }

  /** Composes two contexts: the hole of `outer` receives the top of `inner`. */
  function Compose(inner: Ctx, outer: Ctx): Ctx {
    match inner
    case Top => outer
    case InLeft(up, n, c, r) => InLeft(Compose(up, outer), n, c, r)
    case InRight(up, l, n, c) => InRight(Compose(up, outer), l, n, c)
  }

  predicate NoDup(s: seq<int>) {
    forall i, j :: 0 <= i < j < |s| ==> s[i] != s[j]
  }

  lemma {:induction false} PlugIds(k: Ctx, t: Tree)
    ensures Ids(Plug(k, t)) == CtxIds(k) + Ids(t)
  {
    match k
    case Top =>
    case InLeft(up, n, c, r) => PlugIds(up, Node(t, n, c, r));
    case InRight(up, l, n, c) => PlugIds(up, Node(l, n, c, t));
  }

  lemma {:induction false} PlugDistinct(k: Ctx, t: Tree)
    ensures Distinct(Plug(k, t)) <==> Distinct(t) && CtxDistinct(k) && CtxIds(k) !! Ids(t)
  {
    match k
    case Top =>
    case InLeft(up, n, c, r) => PlugDistinct(up, Node(t, n, c, r));
    case InRight(up, l, n, c) => PlugDistinct(up, Node(l, n, c, t));
  }

  lemma {:induction false} Assoc(a: seq<int>, b: seq<int>, c: seq<int>)
    ensures a + b + c == a + (b + c)
  {
  }

  lemma {:induction false} Regroup(a: seq<int>, b: seq<int>, c: seq<int>, d: seq<int>, e: seq<int>)
    ensures a + (b + c + d) + e == a + b + (c + d + e)
    ensures a + (b + c + d) + e == (a + b + c) + d + e
  {
  }

  lemma {:induction false} PlugInorder(k: Ctx, t: Tree)
    ensures Inorder(Plug(k, t)) == Before(k) + Inorder(t) + After(k)
  {
    match k
    case Top =>
    case InLeft(up, n, c, r) =>
      PlugInorder(up, Node(t, n, c, r));
      Regroup(Before(up), Inorder(t), [n], Inorder(r), After(up));
    case InRight(up, l, n, c) =>
      PlugInorder(up, Node(l, n, c, t));
      Regroup(Before(up), Inorder(l), [n], Inorder(t), After(up));
  }

  lemma {:induction false} PlugCompose(inner: Ctx, outer: Ctx, t: Tree)
    ensures Plug(Compose(inner, outer), t) == Plug(outer, Plug(inner, t))
  {
    match inner
    case Top =>
    case InLeft(up, n, c, r) => PlugCompose(up, outer, Node(t, n, c, r));
    case InRight(up, l, n, c) => PlugCompose(up, outer, Node(l, n, c, t));
  }

  /** What is plugged in decides the root only when the context is empty. */
  lemma {:induction false} PlugRoot(k: Ctx, t: Tree, u: Tree)
    requires !k.Top?
    ensures Plug(k, t).Node? && Plug(k, u).Node? && Plug(k, t).id == Plug(k, u).id
    ensures Plug(k, t).color == Plug(k, u).color
    ensures Plug(k, t).id in CtxIds(k)
  {
    match k
    case Top =>
    case InLeft(up, n, c, r) =>
      if !up.Top? { PlugRoot(up, Node(t, n, c, r), Node(u, n, c, r)); }
    case InRight(up, l, n, c) =>
      if !up.Top? { PlugRoot(up, Node(l, n, c, t), Node(l, n, c, u)); }
  }

  lemma {:induction false} InorderIds(t: Tree)
    ensures forall n :: n in Ids(t) <==> n in Inorder(t)
  {
    if t.Node? { InorderIds(t.left); InorderIds(t.right); }
  }

  lemma {:induction false} DistinctNoDup(t: Tree)
    requires Distinct(t)
    ensures NoDup(Inorder(t)) && NIL !in Inorder(t)
  {
    if t.Node? {
      DistinctNoDup(t.left);
      DistinctNoDup(t.right);
      InorderIds(t.left);
      InorderIds(t.right);
      var a, b := Inorder(t.left), Inorder(t.right);
      forall i, j | 0 <= i < j < |Inorder(t)| ensures Inorder(t)[i] != Inorder(t)[j] {
        if i < |a| { assert a[i] in a; }
        if j > |a| { assert b[j - |a| - 1] in b; }
      }
    }
  }

  /** Every node of a tree can be brought into focus. */
  lemma {:induction false} Focus(t: Tree, n: int) returns (k: Ctx, s: Tree)
    requires n in Ids(t)
    ensures s.Node? && s.id == n && Plug(k, s) == t
  {
    if t.id == n {
      k, s := Top, t;
    } else if n in Ids(t.left) {
      var i;
      i, s := Focus(t.left, n);
      k := Compose(i, InLeft(Top, t.id, t.color, t.right));
      PlugCompose(i, InLeft(Top, t.id, t.color, t.right), s);
    } else {
      var i;
      i, s := Focus(t.right, n);
      k := Compose(i, InRight(Top, t.left, t.id, t.color));
      PlugCompose(i, InRight(Top, t.left, t.id, t.color), s);
    }
  }

  // ---------------------------------------------------------------- colours

  predicate IsBlack(t: Tree) {
    t.Node? ==> t.color.Black?
  }

  predicate IsBlackCtx(k: Ctx) {
    !k.Top? ==> k.color.Black?
  }

  function Weight(c: Color): nat {
    if c.Black? then 1 else 0
  }

  /** No red node has a red child, and every path to a leaf crosses `h` black nodes. */
  predicate RedBlack(t: Tree, h: nat) {
    match t
    case Leaf => h == 0
    case Node(l, _, c, r) =>
      && Weight(c) <= h
      && (c.Red? ==> IsBlack(l) && IsBlack(r))
      && RedBlack(l, h - Weight(c)) && RedBlack(r, h - Weight(c))
  }

  /** The context would be part of a red-black tree with a black root if its hole
      held a tree of black height `h`; a red node above the hole is allowed. */
  predicate CtxRedBlack(k: Ctx, h: nat) {
    match k
    case Top => true
    case InLeft(up, _, c, r) =>
      && RedBlack(r, h)
      && (c.Red? ==> IsBlack(r) && !up.Top? && up.color.Black?)
      && CtxRedBlack(up, h + Weight(c))
    case InRight(up, l, _, c) =>
      && RedBlack(l, h)
      && (c.Red? ==> IsBlack(l) && !up.Top? && up.color.Black?)
      && CtxRedBlack(up, h + Weight(c))
  }

  /** The invariant of rbtree.c: black root, no red-red edge, equal black heights. */
  ghost predicate IsRedBlackTree(t: Tree) {
    IsBlack(t) && exists h: nat :: RedBlack(t, h)
  }

  /** Black nodes on the leftmost path. */
  function BlackHeight(t: Tree): nat {
    if t.Leaf? then 0 else Weight(t.color) + BlackHeight(t.left)
  }

  lemma {:induction false} BlackHeightUnique(t: Tree, h: nat)
    requires RedBlack(t, h)
    ensures h == BlackHeight(t)
  {
    if t.Node? { BlackHeightUnique(t.left, h - Weight(t.color)); }
  }

  function CtxHeight(k: Ctx): nat {
    if k.Top? then 0 else Weight(k.color) + CtxHeight(k.up)
  }

  /** A red-black subtree in a red-black context makes a red-black tree. */
  lemma {:induction false} PlugRedBlack(k: Ctx, t: Tree, h: nat)
    requires RedBlack(t, h) && CtxRedBlack(k, h)
    requires IsBlack(t) || IsBlackCtx(k)
    requires k.Top? ==> IsBlack(t)
    ensures RedBlack(Plug(k, t), h + CtxHeight(k))
    ensures IsBlack(Plug(k, t))
    ensures IsRedBlackTree(Plug(k, t))
  {
    match k
    case Top =>
    case InLeft(up, n, c, r) => PlugRedBlack(up, Node(t, n, c, r), h + Weight(c));
    case InRight(up, l, n, c) => PlugRedBlack(up, Node(l, n, c, t), h + Weight(c));
  }

  /** Conversely, taking a subtree out of a red-black tree leaves a red-black subtree
      and a red-black context that agree on the black height of the hole. */
  lemma {:induction false} UnplugRedBlack(k: Ctx, t: Tree)
    requires IsRedBlackTree(Plug(k, t))
    ensures RedBlack(t, BlackHeight(t)) && CtxRedBlack(k, BlackHeight(t))
    ensures IsBlack(t) || IsBlackCtx(k)
    ensures k.Top? ==> IsBlack(t)
  {
    match k
    case Top =>
      var h: nat :| RedBlack(t, h);
      BlackHeightUnique(t, h);
    case InLeft(up, n, c, r) =>
      UnplugRedBlack(up, Node(t, n, c, r));
    case InRight(up, l, n, c) =>
      UnplugRedBlack(up, Node(l, n, c, t));
      BlackHeightUnique(t, BlackHeight(l));
  }

  lemma {:induction false} SameIds(t: Tree, u: Tree)
    requires Inorder(t) == Inorder(u)
    ensures Ids(t) == Ids(u)
  {
    InorderIds(t);
    InorderIds(u);
    forall n ensures n in Ids(t) <==> n in Ids(u) {
      assert n in Inorder(t) <==> n in Inorder(u);
    }
  }

  lemma {:induction false} PlugSameNodes(k: Ctx, t: Tree, u: Tree)
    requires Inorder(t) == Inorder(u)
    ensures Inorder(Plug(k, t)) == Inorder(Plug(k, u)) && Ids(Plug(k, t)) == Ids(Plug(k, u))
  {
    PlugInorder(k, t);
    PlugInorder(k, u);
    SameIds(Plug(k, t), Plug(k, u));
  }

  // ---------------------------------------------------------------- rotations

  function RotatedLeft(s: Tree): Tree
    requires s.Node? && s.right.Node?
  {
    Node(Node(s.left, s.id, s.color, s.right.left), s.right.id, s.right.color, s.right.right)
  }

  function RotatedRight(s: Tree): Tree
    requires s.Node? && s.left.Node?
  {
    Node(s.left.left, s.left.id, s.left.color, Node(s.left.right, s.id, s.color, s.right))
  }

  /** A rotation keeps the in-order sequence of nodes. */
  lemma {:induction false} RotationKeeps(s: Tree)
    requires s.Node?
    ensures s.right.Node? ==>
      var u := RotatedLeft(s); Inorder(u) == Inorder(s) && Ids(u) == Ids(s) && (Distinct(s) ==> Distinct(u))
    ensures s.left.Node? ==>
      var u := RotatedRight(s); Inorder(u) == Inorder(s) && Ids(u) == Ids(s) && (Distinct(s) ==> Distinct(u))
  {
    if s.right.Node? {
      LeftSpine(s.left, s.id, s.color, s.right.left, s.right.id, s.right.color, s.right.right);
    }
    if s.left.Node? {
      LeftSpine(s.left.left, s.left.id, s.left.color, s.left.right, s.id, s.color, s.right);
    }
  }

  lemma {:induction false} LeftSpine(a: Tree, x: int, cx: Color, b: Tree, y: int, cy: Color, c: Tree)
    ensures Inorder(Node(Node(a, x, cx, b), y, cy, c)) == Inorder(Node(a, x, cx, Node(b, y, cy, c)))
    ensures Ids(Node(Node(a, x, cx, b), y, cy, c)) == Ids(Node(a, x, cx, Node(b, y, cy, c)))
    ensures Distinct(Node(Node(a, x, cx, b), y, cy, c)) <==> Distinct(Node(a, x, cx, Node(b, y, cy, c)))
  {
    var i, j, k := Inorder(a), Inorder(b), Inorder(c);
    assert i + [x] + j + [y] + k == i + [x] + (j + [y] + k);
  }

  // ---------------------------------------------------------------- insertion

  predicate IsRedNode(t: Tree, n: int) {
    t.Node? && t.id == n && t.color.Red?
  }

  /** Exactly one child of `p` is red, namely `n`; both have black height `h`. */
  predicate RedChild(p: Tree, n: int, h: nat) {
    && p.Node? && RedBlack(p.left, h) && RedBlack(p.right, h)
    && (|| (IsRedNode(p.left, n) && IsBlack(p.right) && Root(p.right) != n)
        || (IsRedNode(p.right, n) && IsBlack(p.left) && Root(p.left) != n))
  }

  /** The subtree one level above the hole. */
  function Climb(k: Ctx, t: Tree): Tree
    requires !k.Top?
  {
    if k.InLeft? then Node(t, k.id, k.color, k.right) else Node(k.left, k.id, k.color, t)
  }

  /** A red parent has a black grandparent, and the grandparent's other child has the
      black height of the hole. */
  lemma {:induction false} ClimbRed(k: Ctx, t: Tree, h: nat, n: int)
    requires !k.Top? && k.color.Red? && CtxRedBlack(k, h) && RedBlack(t, h) && IsRedNode(t, n)
    requires Distinct(Climb(k, t))
    ensures !k.up.Top? && k.up.color.Black? && CtxRedBlack(k.up.up, h + 1)
    ensures Plug(k.up.up, Climb(k.up, Climb(k, t))) == Plug(k, t) && Depth(k) == Depth(k.up.up) + 2
    ensures RedChild(Climb(k, t), n, h)
    ensures k.up.InLeft? ==> RedBlack(k.up.right, h)
    ensures k.up.InRight? ==> RedBlack(k.up.left, h)
  {
  }

  /** Painting the root black ends the fix-up. */
  lemma {:induction false} InsertDone(k: Ctx, t: Tree, h: nat)
    requires RedBlack(t, h) && CtxRedBlack(k, h) && t.Node? && IsBlackCtx(k)
    ensures Plug(k, t).Node? && IsRedBlackTree(Plug(k, t).(color := Black))
  {
    if k.Top? {
      var b := t.(color := Black);
      assert RedBlack(b, if t.color.Red? then h + 1 else h);
    } else {
      PlugRedBlack(k, t, h);
      PlugRoot(k, t, t);
    }
  }

  /** A red uncle: parent and uncle turn black, the grandparent red. */
  function Recolored(g: Tree): Tree
    requires g.Node? && g.left.Node? && g.right.Node?
  {
    Node(g.left.(color := Black), g.id, Red, g.right.(color := Black))
  }

  /** A black uncle on the right: the red pair is straightened, then lifted. */
  function LiftedLeft(g: Tree, n: int): Tree
    requires g.Node? && g.left.Node?
  {
    var q := if g.left.right.Node? && g.left.right.id == n then RotatedLeft(g.left) else g.left;
    RotatedRight(Node(q.(color := Black), g.id, Red, g.right))
  }

  /** A black uncle on the left. */
  function LiftedRight(g: Tree, n: int): Tree
    requires g.Node? && g.right.Node?
  {
    var q := if g.right.left.Node? && g.right.left.id == n then RotatedRight(g.right) else g.right;
    RotatedLeft(Node(g.left, g.id, Red, q.(color := Black)))
  }

  lemma {:induction false} RecoloredRedBlack(g: Tree, n: int, h: nat)
    requires g.Node? && g.left.Node? && g.right.Node? && g.left.color.Red? && g.right.color.Red?
    requires (RedChild(g.left, n, h) && RedBlack(g.right, h)) || (RedChild(g.right, n, h) && RedBlack(g.left, h))
    ensures RedBlack(Recolored(g), h + 1)
  {
  }

  lemma {:induction false} LiftedLeftRedBlack(g: Tree, n: int, h: nat)
    requires g.Node? && RedChild(g.left, n, h) && g.left.color.Red? && IsBlack(g.right) && RedBlack(g.right, h)
    ensures var r := LiftedLeft(g, n);
      && IsRedNode(r.left, if Root(g.left.right) == n then g.left.id else n)
      && RedBlack(r.left, h) && RedBlack(r.right, h) && r.color.Black? && r.right.color.Red?
      && r.id == if Root(g.left.right) == n then n else g.left.id
  {
  }

  lemma {:induction false} LiftedRightRedBlack(g: Tree, n: int, h: nat)
    requires g.Node? && RedChild(g.right, n, h) && g.right.color.Red? && IsBlack(g.left) && RedBlack(g.left, h)
    ensures var r := LiftedRight(g, n);
      && IsRedNode(r.right, if Root(g.right.left) == n then g.right.id else n)
      && RedBlack(r.left, h) && RedBlack(r.right, h) && r.color.Black? && r.left.color.Red?
      && r.id == if Root(g.right.left) == n then n else g.right.id
  {
  }

  // ---------------------------------------------------------------- erasure

  /** The subtree is one black node short of black height `h + 1`, and painting a red
      root black makes up for it. */
  predicate Short(t: Tree, h: nat) {
    if t.Node? && t.color.Red? then RedBlack(t.(color := Black), h + 1) else RedBlack(t, h)
  }

  /** A red sibling on the right is rotated above the parent. */
  function SiblingLiftedLeft(g: Tree): Tree
    requires g.Node? && g.right.Node?
  {
    RotatedLeft(g.(color := Red, right := g.right.(color := Black)))
  }

  /** A black sibling on the right, made to have its red child on the outside. */
  function StraightenedLeft(s: Tree): Tree
    requires s.Node? && (IsBlack(s.right) ==> s.left.Node?)
  {
    if IsBlack(s.right) then RotatedRight(s.(color := Red, left := s.left.(color := Black))) else s
  }

  /** A sibling on the right with a red child pays for the missing black node. */
  function BorrowedLeft(g: Tree): Tree
    requires g.Node? && g.right.Node? && !(IsBlack(g.right.left) && IsBlack(g.right.right))
  {
    var s := StraightenedLeft(g.right);
    RotatedLeft(g.(color := Black, right := s.(color := g.color, right := s.right.(color := Black))))
  }

  lemma {:induction false} BorrowedLeftRedBlack(g: Tree, h: nat)
    requires g.Node? && RedBlack(g.left, h) && RedBlack(g.right, h + 1) && IsBlack(g.right)
    requires !(IsBlack(g.right.left) && IsBlack(g.right.right))
    ensures RedBlack(BorrowedLeft(g), h + 1 + Weight(g.color)) && BorrowedLeft(g).color == g.color
  {
    var s := StraightenedLeft(g.right);
    assert RedBlack(s.left, h) && RedBlack(s.right.(color := Black), h + 1);
  }

  /** A red sibling on the left is rotated above the parent. */
  function SiblingLiftedRight(g: Tree): Tree
    requires g.Node? && g.left.Node?
  {
    RotatedRight(g.(color := Red, left := g.left.(color := Black)))
  }

  /** A black sibling on the left, made to have its red child on the outside. */
  function StraightenedRight(s: Tree): Tree
    requires s.Node? && (IsBlack(s.left) ==> s.right.Node?)
  {
    if IsBlack(s.left) then RotatedLeft(s.(color := Red, right := s.right.(color := Black))) else s
  }

  /** A sibling on the left with a red child pays for the missing black node. */
  function BorrowedRight(g: Tree): Tree
    requires g.Node? && g.left.Node? && !(IsBlack(g.left.left) && IsBlack(g.left.right))
  {
    var s := StraightenedRight(g.left);
    RotatedRight(g.(color := Black, left := s.(color := g.color, left := s.left.(color := Black))))
  }

  lemma {:induction false} BorrowedRightRedBlack(g: Tree, h: nat)
    requires g.Node? && RedBlack(g.right, h) && RedBlack(g.left, h + 1) && IsBlack(g.left)
    requires !(IsBlack(g.left.left) && IsBlack(g.left.right))
    ensures RedBlack(BorrowedRight(g), h + 1 + Weight(g.color)) && BorrowedRight(g).color == g.color
  {
    var s := StraightenedRight(g.left);
    assert RedBlack(s.right, h) && RedBlack(s.left.(color := Black), h + 1);
  }

  /** Painting the current node black ends the fix-up, at the root or at a red node. */
  lemma {:induction false} EraseDone(k: Ctx, t: Tree, h: nat)
    requires Short(t, h) && CtxRedBlack(k, h + 1) && (k.Top? || !IsBlack(t))
    ensures IsRedBlackTree(Plug(k, if t.Node? then t.(color := Black) else t))
  {
    if t.Node? && t.color.Red? {
      PlugRedBlack(k, t.(color := Black), h + 1);
    } else {
      assert k.Top? && (t.Node? ==> t.(color := Black) == t);
      assert RedBlack(t, h);
    }
  }

  /** The first occurrence of `n` taken out of a sequence. */
  function Remove(s: seq<int>, n: int): seq<int> {
    if s == [] then [] else if s[0] == n then s[1..] else [s[0]] + Remove(s[1..], n)
  }

  lemma {:induction false} RemoveMiddle(a: seq<int>, n: int, b: seq<int>)
    requires n !in a
    ensures Remove(a + [n] + b, n) == a + b
  {
    if a == [] {
      assert a + [n] + b == [n] + b && a + b == b;
    } else {
      assert (a + [n] + b)[1..] == a[1..] + [n] + b;
      RemoveMiddle(a[1..], n, b);
      assert [a[0]] + (a[1..] + b) == a + b;
    }
  }

  /** The element after `n`, or the null pointer if there is none. */
  function Follower(s: seq<int>, n: int): int {
    if s == [] then NIL
    else if s[0] == n then (if |s| > 1 then s[1] else NIL)
    else Follower(s[1..], n)
  }

  lemma {:induction false} FollowerMiddle(a: seq<int>, n: int, b: seq<int>)
    requires NoDup(a + [n] + b)
    ensures Follower(a + [n] + b, n) == if b == [] then NIL else b[0]
  {
    if a == [] {
      assert a + [n] + b == [n] + b;
    } else {
      var s := a + [n] + b;
      assert s[0] != s[|a|];
      assert s[1..] == a[1..] + [n] + b;
      FollowerMiddle(a[1..], n, b);
    }
  }

  lemma {:induction false} FollowerAt(s: seq<int>, i: nat)
    requires NoDup(s) && i < |s|
    ensures Follower(s, s[i]) == if i + 1 < |s| then s[i + 1] else NIL
  {
    assert s == s[..i] + [s[i]] + s[i + 1..];
    FollowerMiddle(s[..i], s[i], s[i + 1..]);
  }

  lemma {:induction false} Middle(a: seq<int>, b: seq<int>, x: seq<int>, c: seq<int>, d: seq<int>)
    ensures a + (b + x + c) + d == (a + b) + x + (c + d)
    ensures a + (b + c) + d == (a + b) + (c + d)
  {
  }

  lemma {:induction false} NoDupMiddle(a: seq<int>, n: int, b: seq<int>)
    requires NoDup(a + [n] + b)
    ensures n !in a && n !in b
  {
    var s := a + [n] + b;
    assert s[|a|] == n;
    assert forall i :: 0 <= i < |a| ==> s[i] == a[i];
    assert forall i :: 0 <= i < |b| ==> s[|a| + 1 + i] == b[i];
  }

  /** Where a focused node stands in the in-order sequence. */
  lemma {:induction false} FocusedOrder(k: Ctx, s: Tree)
    requires Distinct(Plug(k, s)) && s.Node?
    ensures Inorder(Plug(k, s)) == (Before(k) + Inorder(s.left)) + [s.id] + (Inorder(s.right) + After(k))
    ensures NoDup(Inorder(Plug(k, s))) && s.id !in Before(k) + Inorder(s.left)
  {
    PlugInorder(k, s);
    DistinctNoDup(Plug(k, s));
    var p := Before(k) + Inorder(s.left);
    Middle(Before(k), Inorder(s.left), [s.id], Inorder(s.right), After(k));
    NoDupMiddle(p, s.id, Inorder(s.right) + After(k));
  }

  /** Taking a focused node out of the in-order sequence. */
  lemma {:induction false} RemoveFocused(k: Ctx, s: Tree)
    requires Distinct(Plug(k, s)) && s.Node?
    ensures Remove(Inorder(Plug(k, s)), s.id) == Before(k) + (Inorder(s.left) + Inorder(s.right)) + After(k)
  {
    FocusedOrder(k, s);
    RemoveMiddle(Before(k) + Inorder(s.left), s.id, Inorder(s.right) + After(k));
    Middle(Before(k), Inorder(s.left), [s.id], Inorder(s.right), After(k));
  }

  /** Renaming a node of a context does not matter to colours and heights. */
  lemma {:induction false} RenameRedBlack(inner: Ctx, up: Ctx, l: Tree, n: int, n': int, c: Color, h: nat)
    requires CtxRedBlack(Compose(inner, InRight(up, l, n, c)), h)
    ensures CtxRedBlack(Compose(inner, InRight(up, l, n', c)), h)
  {
    if !inner.Top? { RenameRedBlack(inner.up, up, l, n, n', c, h + Weight(inner.color)); }
  }

  /** Without node `s`, which has at most one child, only `s`'s own black is missing. */
  lemma {:induction false} SplicedRedBlack(k: Ctx, s: Tree)
    requires IsRedBlackTree(Plug(k, s)) && s.Node? && (s.left.Leaf? || s.right.Leaf?)
    ensures var u := if s.left.Leaf? then s.right else s.left;
      && CtxRedBlack(k, BlackHeight(s)) && RedBlack(u, BlackHeight(s) - Weight(s.color))
      && (s.color.Red? ==> IsBlack(u))
  {
    UnplugRedBlack(k, s);
  }

  /** Splicing out a node with at most one child removes just that node. */
  lemma {:induction false} SplicedOrder(k: Ctx, s: Tree)
    requires s.Node? && (s.left.Leaf? || s.right.Leaf?)
    ensures var u := if s.left.Leaf? then s.right else s.left;
      && Inorder(Plug(k, u)) == Before(k) + (Inorder(s.left) + Inorder(s.right)) + After(k)
      && Ids(Plug(k, u)) <= Ids(Plug(k, s))
  {
    var u := if s.left.Leaf? then s.right else s.left;
    assert Inorder(u) == Inorder(s.left) + Inorder(s.right);
    PlugInorder(k, u);
    PlugIds(k, u);
    PlugIds(k, s);
  }

  /** The leftmost node of a subtree comes first in it. */
  lemma {:induction false} SpineOrder(spine: Ctx, x: Tree)
    requires x.Node? && x.left.Leaf? && Before(spine) == []
    ensures Inorder(Plug(spine, x)) == [x.id] + Inorder(Plug(spine, x.right))
  {
    PlugInorder(spine, x);
    PlugInorder(spine, x.right);
    Middle([], [], [x.id], Inorder(x.right), After(spine));
  }

  /** Moving the successor `x.id` into the place of `s.id` removes just `s.id`. */
  lemma {:induction false} SuccessorOrder(k: Ctx, s: Tree, spine: Ctx, x: Tree)
    requires s.Node? && x.Node? && x.left.Leaf? && s.right == Plug(spine, x) && Before(spine) == []
    ensures var u := Node(s.left, x.id, s.color, Plug(spine, x.right));
      Inorder(Plug(k, u)) == Before(k) + (Inorder(s.left) + Inorder(s.right)) + After(k)
  {
    var u := Node(s.left, x.id, s.color, Plug(spine, x.right));
    SpineOrder(spine, x);
    assert Inorder(u) == Inorder(s.left) + Inorder(s.right) by {
      Assoc(Inorder(s.left), [x.id], Inorder(u.right));
    }
    PlugInorder(k, u);
  }

  /** The nodes involved when the successor `x.id` takes the place of `s.id`. */
  lemma {:induction false} SuccessorIds(k: Ctx, s: Tree, spine: Ctx, x: Tree)
    requires s.Node? && x.Node? && x.left.Leaf? && s.right == Plug(spine, x)
    ensures var r := Plug(spine, x.right);
      && Ids(Plug(k, Node(s.left, x.id, s.color, r))) <= Ids(Plug(k, s))
      && Ids(Plug(k, Node(s.left, s.id, s.color, r))) <= Ids(Plug(k, s))
      && x.id in Ids(Plug(k, s))
  {
    var r := Plug(spine, x.right);
    PlugIds(k, s);
    PlugIds(k, Node(s.left, x.id, s.color, r));
    PlugIds(k, Node(s.left, s.id, s.color, r));
    PlugIds(spine, x);
    PlugIds(spine, x.right);
  }

  /** The context of the successor's child, before and after the successor moved. */
  lemma {:induction false} SuccessorHole(k: Ctx, s: Tree, spine: Ctx, x: Tree)
    requires s.Node? && x.Node? && s.right == Plug(spine, x) && Distinct(Plug(k, s))
    ensures var hole := Compose(spine, InRight(k, s.left, s.id, s.color));
      var hole' := Compose(spine, InRight(k, s.left, x.id, s.color));
      var r := Plug(spine, x.right);
      && Plug(hole, x.right) == Plug(k, Node(s.left, s.id, s.color, r))
      && Plug(hole', x.right) == Plug(k, Node(s.left, x.id, s.color, r))
      && Parent(hole') == if Parent(hole) == s.id then x.id else Parent(hole)
  {
    PlugCompose(spine, InRight(k, s.left, s.id, s.color), x.right);
    PlugCompose(spine, InRight(k, s.left, x.id, s.color), x.right);
    PlugDistinct(k, s);
    PlugIds(spine, x);
    if !spine.Top? { assert spine.id in CtxIds(spine); }
  }

  // ---------------------------------------------------------------- height

  function Height(t: Tree): nat {
    if t.Leaf? then 0
    else 1 + if Height(t.left) > Height(t.right) then Height(t.left) else Height(t.right)
  }

  function Pow2(n: nat): nat {
    if n == 0 then 1 else 2 * Pow2(n - 1)
  }

  lemma {:induction false} Pow2Is(n: nat)
    ensures Pow2(0) == 1 && Pow2(n + 1) == 2 * Pow2(n)
  {
  }

  lemma {:induction false} Pow2Add(a: nat, b: nat)
    ensures Pow2(a + b) == Pow2(a) * Pow2(b)
  {
    if a > 0 {
      Pow2Add(a - 1, b);
      Pow2Is(a - 1 + b);
      Pow2Is(a - 1);
      Doubled(Pow2(a - 1), Pow2(b));
    }
  }

  lemma {:induction false} Doubled(x: nat, y: nat)
    ensures (2 * x) * y == 2 * (x * y)
  {
  }

  lemma {:induction false} Pow2Monotonic(a: nat, b: nat)
    requires a <= b
    ensures Pow2(a) <= Pow2(b)
  {
    if a < b { Pow2Monotonic(a, b - 1); }
  }

  lemma {:induction false} SizeBound(t: Tree, h: nat)
    requires RedBlack(t, h)
    ensures Pow2(h) <= |Inorder(t)| + 1
  {
    if t.Node? {
      SizeBound(t.left, h - Weight(t.color));
      SizeBound(t.right, h - Weight(t.color));
    }
  }

  lemma {:induction false} HeightBound(t: Tree, h: nat)
    requires RedBlack(t, h)
    ensures Height(t) <= 2 * h + if IsBlack(t) then 0 else 1
  {
    if t.Node? {
      HeightBound(t.left, h - Weight(t.color));
      HeightBound(t.right, h - Weight(t.color));
    }
  }

  /** The height of a red-black tree of n nodes is at most 2*log2(n+1). */
  lemma {:induction false} HeightLogarithmic(t: Tree)
    requires IsRedBlackTree(t)
    ensures Pow2(Height(t)) <= (|Inorder(t)| + 1) * (|Inorder(t)| + 1)
  {
    var h: nat :| RedBlack(t, h);
    SizeBound(t, h);
    HeightBound(t, h);
    Pow2Monotonic(Height(t), h + h);
    Pow2Add(h, h);
    var n := |Inorder(t)| + 1;
    assert Pow2(h) * Pow2(h) <= n * n by { MulMonotonic(Pow2(h), n); }
  }

  lemma {:induction false} MulMonotonic(a: nat, b: nat)
    requires a <= b
    ensures a * a <= b * b
  {
    assert a * a <= a * b;
    assert a * b <= b * b;
  }

  /** A descent that stops at a hole visits as many nodes as the hole is deep. */
  lemma {:induction false} DepthBound(k: Ctx, t: Tree)
    ensures Depth(k) + Height(t) <= Height(Plug(k, t))
  {
    match k
    case Top =>
    case InLeft(up, n, c, r) => DepthBound(up, Node(t, n, c, r));
    case InRight(up, l, n, c) => DepthBound(up, Node(l, n, c, t));
  }

  /** A descent that has visited `steps` nodes is logarithmic in the number of nodes. */
  lemma {:induction false} StepsBound(k: Ctx, t: Tree, steps: nat)
    requires IsRedBlackTree(Plug(k, t)) && steps <= Depth(k) + Height(t)
    ensures Pow2(steps) <= (|Inorder(Plug(k, t))| + 1) * (|Inorder(Plug(k, t))| + 1)
  {
    DepthBound(k, t);
    Pow2Monotonic(steps, Height(Plug(k, t)));
    HeightLogarithmic(Plug(k, t));
  }

  /** One step of a walk along the in-order sequence. */
  lemma {:induction false} WalkStep(t: Tree, j: nat)
    requires Distinct(t) && j < |Inorder(t)|
    ensures Inorder(t)[j] in Ids(t) && Inorder(t)[j] != NIL && (j + 1 < |Inorder(t)| ==> Inorder(t)[j + 1] != NIL)
    ensures Inorder(t)[..j] + [Inorder(t)[j]] == Inorder(t)[..j + 1]
    ensures Follower(Inorder(t), Inorder(t)[j]) == if j + 1 < |Inorder(t)| then Inorder(t)[j + 1] else NIL
  {
    InorderIds(t);
    DistinctNoDup(t);
    FollowerAt(Inorder(t), j);
  }
}
