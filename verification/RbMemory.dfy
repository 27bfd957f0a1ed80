/** How the cells of an intrusive tree spell out a `Tree`.

    A cell is the `struct rb_node` of rbtree.h.  `Linked` and `CtxLinked` say that the
    parent, left, right and color fields of every node are those of a given shape;
    the lemmas say which writes keep that, and what they turn the shape into. */
module RbMemory {
  import opened RbShape

  datatype Cell = Cell(parent: int, left: int, right: int, color: Color)

  type Mem = map<int, Cell>

  /** The cells below parent `p` are exactly those of `t`. */
  predicate Linked(m: Mem, t: Tree, p: int) {
    t.Node? ==>
      && t.id in m
      && m[t.id] == Cell(p, Root(t.left), Root(t.right), t.color)
      && Linked(m, t.left, t.id) && Linked(m, t.right, t.id)
  }

  /** The cells of the context are those of `k`, with `hole` below its last node. */
  predicate CtxLinked(m: Mem, k: Ctx, hole: int) {
    match k
    case Top => true
    case InLeft(up, n, c, r) =>
      && n in m
      && m[n] == Cell(Parent(up), hole, Root(r), c)
      && Linked(m, r, n) && CtxLinked(m, up, n)
    case InRight(up, l, n, c) =>
      && n in m
      && m[n] == Cell(Parent(up), Root(l), hole, c)
      && Linked(m, l, n) && CtxLinked(m, up, n)
  }

  /** Memory `m`, entered through the pointer `root`, spells out `t`. */
  predicate Spells(m: Mem, root: int, t: Tree) {
    Linked(m, t, NIL) && root == Root(t) && Distinct(t) && NIL !in m
  }

  /** Only cells of `s` differ between the two memories. */
  predicate SameOutside(m: Mem, m': Mem, s: set<int>) {
    m.Keys == m'.Keys && forall n :: n in m && n !in s ==> m'[n] == m[n]
  }

  predicate Agree(m: Mem, m': Mem, s: set<int>) {
    forall n :: n in s && n in m ==> n in m' && m'[n] == m[n]
  }

  lemma {:induction false} FrameTree(m: Mem, m': Mem, t: Tree, p: int)
    requires Linked(m, t, p) && Agree(m, m', Ids(t))
    ensures Linked(m', t, p)
  {
    if t.Node? {
      FrameTree(m, m', t.left, t.id);
      FrameTree(m, m', t.right, t.id);
    }
  }

  lemma {:induction false} FrameCtx(m: Mem, m': Mem, k: Ctx, hole: int)
    requires CtxLinked(m, k, hole) && Agree(m, m', CtxIds(k))
    ensures CtxLinked(m', k, hole)
  {
    match k
    case Top =>
    case InLeft(up, n, _, r) => FrameTree(m, m', r, n); FrameCtx(m, m', up, n);
    case InRight(up, l, n, _) => FrameTree(m, m', l, n); FrameCtx(m, m', up, n);
  }

  /** Rewriting the root's parent field moves a subtree below another parent. */
  lemma {:induction false} Reparent(m: Mem, m': Mem, t: Tree, p: int, q: int)
    requires Linked(m, t, p) && Distinct(t)
    requires Agree(m, m', Ids(t) - {Root(t)})
    requires t.Node? ==> t.id in m' && m'[t.id] == m[t.id].(parent := q)
    ensures Linked(m', t, q)
  {
    if t.Node? {
      FrameTree(m, m', t.left, t.id);
      FrameTree(m, m', t.right, t.id);
    }
  }

  /** The cell that the nearest node of a context must hold for a given hole. */
  function HoleCell(m: Mem, k: Ctx, hole: int): Cell
    requires !k.Top? && k.id in m
  {
    if k.InLeft? then m[k.id].(left := hole) else m[k.id].(right := hole)
  }

  /** Rewriting one child field puts another subtree into the hole. */
  lemma {:induction false} Rehole(m: Mem, m': Mem, k: Ctx, hole: int, hole': int)
    requires CtxLinked(m, k, hole) && CtxDistinct(k)
    requires Agree(m, m', CtxIds(k) - {Parent(k)})
    requires !k.Top? ==> k.id in m' && m'[k.id] == HoleCell(m, k, hole')
    ensures CtxLinked(m', k, hole')
  {
    match k
    case Top =>
    case InLeft(up, n, _, r) => FrameTree(m, m', r, n); FrameCtx(m, m', up, n);
    case InRight(up, l, n, _) => FrameTree(m, m', l, n); FrameCtx(m, m', up, n);
  }

  lemma {:induction false} PlugLinked(m: Mem, k: Ctx, t: Tree)
    ensures Linked(m, Plug(k, t), NIL) <==> Linked(m, t, Parent(k)) && CtxLinked(m, k, Root(t))
  {
    match k
    case Top =>
    case InLeft(up, n, c, r) => PlugLinked(m, up, Node(t, n, c, r));
    case InRight(up, l, n, c) => PlugLinked(m, up, Node(l, n, c, t));
  }

  /** Everything known about a focused subtree of a tree in memory. */
  lemma {:induction false} Open(m: Mem, root: int, k: Ctx, s: Tree)
    requires Spells(m, root, Plug(k, s))
    ensures Linked(m, s, Parent(k)) && CtxLinked(m, k, Root(s))
    ensures Distinct(s) && CtxDistinct(k) && CtxIds(k) !! Ids(s)
    ensures Parent(k) == NIL <==> k.Top?
    ensures Root(s) == NIL <==> s.Leaf?
    ensures Root(s) == root <==> k.Top?
    ensures k.Top? || root in CtxIds(k)
  {
    PlugLinked(m, k, s);
    PlugDistinct(k, s);
    if !k.Top? { PlugRoot(k, s, s); CtxNotNil(k); }
  }

  /** The cell of a focused node holds its neighbours in the shape. */
  lemma {:induction false} CellOf(m: Mem, root: int, k: Ctx, s: Tree)
    requires Spells(m, root, Plug(k, s)) && s.Node?
    ensures s.id in m && m[s.id] == Cell(Parent(k), Root(s.left), Root(s.right), s.color)
    ensures s.id != NIL && (Parent(k) == NIL <==> k.Top?)
    ensures Root(s.left) == NIL <==> s.left.Leaf?
    ensures Root(s.right) == NIL <==> s.right.Leaf?
    ensures Root(s.left) == Root(s.right) ==> s.left.Leaf? && s.right.Leaf?
    ensures s.id == root <==> k.Top?
  {
    Open(m, root, k, s);
  }

  /** The cell of the node just above a focused subtree. */
  lemma {:induction false} CtxCell(m: Mem, root: int, k: Ctx, s: Tree)
    requires Spells(m, root, Plug(k, s))
    ensures Parent(k) == NIL <==> k.Top?
    ensures k.Top? <==> Root(s) == root
    ensures !k.Top? ==>
      && k.id in m && (Parent(k.up) == NIL <==> k.up.Top?) && (k.id == root <==> k.up.Top?)
      && m[k.id] == Cell(Parent(k.up), if k.InLeft? then Root(s) else Root(k.left),
                         if k.InLeft? then Root(k.right) else Root(s), k.color)
      && (Root(s) != NIL ==> (k.InLeft? <==> m[k.id].left == Root(s)) && (k.InRight? <==> m[k.id].right == Root(s)))
  {
    Open(m, root, k, s);
    if !k.Top? {
      CellOf(m, root, k.up, if k.InLeft? then Node(s, k.id, k.color, k.right) else Node(k.left, k.id, k.color, s));
    }
  }

  /** What one round of rb_insert_color reads: the grandparent exists and is black. */
  lemma {:induction false} InsertView(m: Mem, root: int, k: Ctx, t: Tree, h: nat)
    requires Spells(m, root, Plug(k, t)) && t.Node? && t.color.Red?
    requires !k.Top? && k.color.Red? && RedBlack(t, h) && CtxRedBlack(k, h)
    ensures !k.up.Top? && k.up.color.Black? && CtxRedBlack(k.up.up, h + 1) && Depth(k) == Depth(k.up.up) + 2
    ensures k.id in m && m[k.id].parent == k.up.id && k.up.id in m
    ensures m[k.up.id].left == k.id <==> k.up.InLeft?
    ensures Plug(k.up.up, Climb(k.up, Climb(k, t))) == Plug(k, t)
    ensures RedChild(Climb(k, t), t.id, h) && RedBlack(if k.up.InLeft? then k.up.right else k.up.left, h)
  {
    Open(m, root, k.up, Climb(k, t));
    ClimbRed(k, t, h, t.id);
    CtxCell(m, root, k, t);
    CtxCell(m, root, k.up, Climb(k, t));
  }

  /** What one round of rb_erase_color reads: the parent and a sibling exist. */
  lemma {:induction false} EraseView(m: Mem, root: int, k: Ctx, t: Tree, h: nat)
    requires Spells(m, root, Plug(k, t)) && IsBlack(t) && Root(t) != root && Short(t, h) && CtxRedBlack(k, h + 1)
    ensures !k.Top? && k.id in m && Plug(k.up, Climb(k, t)) == Plug(k, t) && Depth(k) == Depth(k.up) + 1
    ensures m[k.id].left == Root(t) <==> k.InLeft?
    ensures CtxRedBlack(k.up, h + 1 + Weight(k.color)) && RedBlack(t, h)
    ensures var s := if k.InLeft? then k.right else k.left;
      && s.Node? && RedBlack(s, h + 1) && (k.color.Red? ==> IsBlack(s) && !k.up.Top? && k.up.color.Black?)
  {
    CtxCell(m, root, k, t);
    Open(m, root, k.up, Climb(k, t));
  }

  lemma {:induction false} CtxNotNil(k: Ctx)
    requires CtxDistinct(k)
    ensures NIL !in CtxIds(k)
  {
    match k
    case Top =>
    case InLeft(up, n, _, r) => CtxNotNil(up); TreeNotNil(r);
    case InRight(up, l, n, _) => CtxNotNil(up); TreeNotNil(l);
  }

  lemma {:induction false} TreeNotNil(t: Tree)
    requires Distinct(t)
    ensures NIL !in Ids(t)
  {
    if t.Node? { TreeNotNil(t.left); TreeNotNil(t.right); }
  }

  /** The converse of `Open`: a subtree and a context over the same memory close up. */
  lemma {:induction false} Close(m: Mem, root: int, k: Ctx, s: Tree, old_root: int, old_s: Tree)
    requires Linked(m, s, Parent(k)) && CtxLinked(m, k, Root(s)) && NIL !in m
    requires Distinct(s) && CtxDistinct(k) && CtxIds(k) !! Ids(s)
    requires old_root == Root(Plug(k, old_s))
    requires root == if k.Top? then Root(s) else old_root
    ensures Spells(m, root, Plug(k, s))
  {
    PlugLinked(m, k, s);
    PlugDistinct(k, s);
    if !k.Top? { PlugRoot(k, old_s, s); }
  }

  // ---------------------------------------------------------------- rotations

  /** What the cell of `n`, neither `x` nor `y`, becomes when node `y` takes the place of
      its parent `x` below `p` and hands its child `b` over to `x`. */
  function BystanderCell(m: Mem, x: int, y: int, b: int, p: int, n: int): Cell
    requires n in m
  {
    if n == b then m[b].(parent := x)
    else if n == p then (if m[p].left == x then m[p].(left := y) else m[p].(right := y))
    else m[n]
  }

  predicate Bystanders(m: Mem, m': Mem, x: int, y: int, b: int, p: int) {
    m'.Keys == m.Keys && forall n :: n in m && n != x && n != y ==> m'[n] == BystanderCell(m, x, y, b, p, n)
  }

  /** `m'` is `m` after a rotation at `x` that lifts `y`; `left` tells a left rotation. */
  predicate IsRotation(m: Mem, m': Mem, left: bool, x: int, y: int, b: int, p: int) {
    && x in m && y in m && Bystanders(m, m', x, y, b, p)
    && m'[x] == (if left then m[x].(parent := y, right := b) else m[x].(parent := y, left := b))
    && m'[y] == (if left then m[y].(parent := p, left := x) else m[y].(parent := p, right := x))
  }

  /** The four cells that a rotation touches, before it: `y` is the right child of `x`
      (for a left rotation), `b` the inner child of `y` and `p` the parent of `x`. */
  predicate Pivot(m: Mem, left: bool, x: int, y: int, b: int, p: int) {
    && x in m && y in m && x != y && NIL !in m
    && m[x].parent == p
    && (if left then m[x].right == y && m[y].left == b else m[x].left == y && m[y].right == b)
    && (b != NIL ==> b in m && b != x && b != y)
    && (p != NIL ==> p in m && p != x && p != y && p != b && (m[p].left == x <==> m[p].right != x))
  }

  lemma {:induction false} FindPivot(m: Mem, root: int, k: Ctx, s: Tree, left: bool)
    requires Spells(m, root, Plug(k, s)) && s.Node?
    requires (left ==> s.right.Node?) && (!left ==> s.left.Node?)
    ensures Parent(k) == NIL <==> k.Top?
    ensures left ==> Pivot(m, left, s.id, s.right.id, Root(s.right.left), Parent(k))
    ensures !left ==> Pivot(m, left, s.id, s.left.id, Root(s.left.right), Parent(k))
  {
    Open(m, root, k, s);
    var u := if left then s.right else s.left;
    var v := if left then s.right.left else s.left.right;
    assert Linked(m, u, s.id) && Distinct(u);
    assert Linked(m, v, u.id) && Distinct(v);
  }

  lemma {:induction false} BystandersAgree(m: Mem, m': Mem, x: int, y: int, b: int, p: int, s: set<int>)
    requires Bystanders(m, m', x, y, b, p) && NIL !in m
    requires x !in s && y !in s && (b == NIL || b !in s) && (p == NIL || p !in s)
    ensures Agree(m, m', s)
  {
  }

  /** The three subtrees and the context around a rotation, after it. */
  lemma {:induction false} RotationFrames(m: Mem, m': Mem, x: int, y: int, o: Tree, b: Tree, i: Tree, k: Ctx)
    requires x in m && y in m && Bystanders(m, m', x, y, Root(b), Parent(k))
    requires Linked(m, o, x) && Linked(m, b, y) && Linked(m, i, y) && CtxLinked(m, k, x)
    requires Distinct(o) && Distinct(b) && Distinct(i) && CtxDistinct(k) && NIL !in m
    requires x !in Ids(o) && x !in Ids(b) && x !in Ids(i) && x !in CtxIds(k)
    requires y !in Ids(o) && y !in Ids(b) && y !in Ids(i) && y !in CtxIds(k)
    requires Ids(o) !! Ids(b) && Ids(o) !! Ids(i) && Ids(b) !! Ids(i)
    requires CtxIds(k) !! Ids(o) && CtxIds(k) !! Ids(b) && CtxIds(k) !! Ids(i)
    ensures Linked(m', o, x) && Linked(m', b, x) && Linked(m', i, y) && CtxLinked(m', k, y)
  {
    BystandersAgree(m, m', x, y, Root(b), Parent(k), Ids(o));
    FrameTree(m, m', o, x);
    BystandersAgree(m, m', x, y, Root(b), Parent(k), Ids(i));
    FrameTree(m, m', i, y);
    BystandersAgree(m, m', x, y, Root(b), Parent(k), Ids(b) - {Root(b)});
    Reparent(m, m', b, y, x);
    BystandersAgree(m, m', x, y, Root(b), Parent(k), CtxIds(k) - {Parent(k)});
    Rehole(m, m', k, x, y);
  }

  lemma {:induction false} RotationSpells(m: Mem, root: int, k: Ctx, s: Tree, left: bool, m': Mem, root': int)
    requires Spells(m, root, Plug(k, s)) && s.Node?
    requires (left ==> s.right.Node?) && (!left ==> s.left.Node?)
    requires IsRotation(m, m', left, s.id, if left then s.right.id else s.left.id,
               if left then Root(s.right.left) else Root(s.left.right), Parent(k))
    requires root' == if k.Top? then (if left then s.right.id else s.left.id) else root
    ensures Spells(m', root', Plug(k, if left then RotatedLeft(s) else RotatedRight(s)))
    ensures SameOutside(m, m', Ids(Plug(k, s)))
  {
    Open(m, root, k, s);
    PlugIds(k, s);
    RotationKeeps(s);
    if left {
      assert Linked(m, s.right, s.id) && Distinct(s.right);
      RotationFrames(m, m', s.id, s.right.id, s.left, s.right.left, s.right.right, k);
      Close(m', root', k, RotatedLeft(s), root, s);
    } else {
      assert Linked(m, s.left, s.id) && Distinct(s.left);
      RotationFrames(m, m', s.id, s.left.id, s.right, s.left.right, s.left.left, k);
      Close(m', root', k, RotatedRight(s), root, s);
    }
  }

  // ---------------------------------------------------------------- relinking

  lemma {:induction false} LeafView(m: Mem, root: int, k: Ctx, n: int)
    requires Spells(m, root, Plug(k, Leaf)) && n !in Ids(Plug(k, Leaf))
    ensures Parent(k) == NIL <==> k.Top?
    ensures !k.Top? ==> k.id in m && k.id != n
  {
    CtxCell(m, root, k, Leaf);
    PlugIds(k, Leaf);
  }

  lemma {:induction false} LeafSpells(m: Mem, root: int, k: Ctx, n: int, m': Mem, root': int)
    requires Spells(m, root, Plug(k, Leaf)) && n !in Ids(Plug(k, Leaf)) && n != NIL
    requires !k.Top? ==> k.id in m
    requires m' == if k.Top? then m[n := Cell(NIL, NIL, NIL, Red)]
                   else m[n := Cell(k.id, NIL, NIL, Red)][k.id := HoleCell(m, k, n)]
    requires root' == if k.Top? then n else root
    ensures Spells(m', root', Plug(k, Node(Leaf, n, Red, Leaf)))
  {
    Open(m, root, k, Leaf);
    PlugIds(k, Leaf);
    Rehole(m, m', k, NIL, n);
    Close(m', root', k, Node(Leaf, n, Red, Leaf), root, Leaf);
  }

  lemma {:induction false} ChildCell(m: Mem, root: int, k: Ctx, s: Tree, u: Tree)
    requires Spells(m, root, Plug(k, s)) && s.Node? && (u == s.left || u == s.right)
    ensures Root(u) == NIL <==> u.Leaf?
    ensures u.Node? ==> u.id in m && u.id != s.id && u.id != Parent(k) && m[u.id].parent == s.id
    ensures Parent(k) != s.id
  {
    Open(m, root, k, s);
  }

  /** `m'` is `m` after node `n` was linked out and `u`, its only child, took its place. */
  predicate IsSplice(m: Mem, m': Mem, k: Ctx, n: int, u: int) {
    && m'.Keys == m.Keys
    && (k.Top? || k.id in m)
    && forall i :: i in m ==>
         m'[i] == if i == u then m[u].(parent := Parent(k))
                  else if !k.Top? && i == k.id then HoleCell(m, k, u)
                  else m[i]
  }

  lemma {:induction false} SpliceAgrees(m: Mem, m': Mem, k: Ctx, n: int, u: int, s: set<int>)
    requires IsSplice(m, m', k, n, u) && NIL !in m
    requires (u == NIL || u !in s) && (k.Top? || k.id !in s)
    ensures Agree(m, m', s)
  {
  }

  lemma {:induction false} SpliceFrames(m: Mem, m': Mem, k: Ctx, n: int, u: Tree)
    requires IsSplice(m, m', k, n, Root(u)) && NIL !in m
    requires Linked(m, u, n) && CtxLinked(m, k, n)
    requires Distinct(u) && CtxDistinct(k) && CtxIds(k) !! Ids(u)
    ensures Linked(m', u, Parent(k)) && CtxLinked(m', k, Root(u))
  {
    assert !k.Top? ==> k.id in CtxIds(k);
    assert u.Node? ==> u.id in Ids(u);
    SpliceAgrees(m, m', k, n, Root(u), Ids(u) - {Root(u)});
    Reparent(m, m', u, n, Parent(k));
    SpliceAgrees(m, m', k, n, Root(u), CtxIds(k) - {Parent(k)});
    Rehole(m, m', k, n, Root(u));
  }

  lemma {:induction false} SpliceSpells(m: Mem, root: int, k: Ctx, s: Tree, u: Tree, m': Mem, root': int)
    requires Spells(m, root, Plug(k, s)) && s.Node?
    requires u == s.left || u == s.right
    requires IsSplice(m, m', k, s.id, Root(u))
    requires root' == if k.Top? then Root(u) else root
    ensures Spells(m', root', Plug(k, u))
  {
    Open(m, root, k, s);
    assert Linked(m, u, s.id) && Distinct(u) && CtxIds(k) !! Ids(u);
    SpliceFrames(m, m', k, s.id, u);
    Close(m', root', k, u, root, s);
  }

  lemma {:induction false} SpliceKeeps(m: Mem, root: int, k: Ctx, s: Tree, u: Tree, m': Mem)
    requires Spells(m, root, Plug(k, s)) && s.Node?
    requires u == s.left || u == s.right
    requires IsSplice(m, m', k, s.id, Root(u))
    ensures s.id in m && s.id in m' && m'[s.id] == m[s.id] && s.id !in Ids(Plug(k, u))
    ensures SameOutside(m, m', Ids(Plug(k, s)))
  {
    Open(m, root, k, s);
    PlugIds(k, s);
    PlugIds(k, u);
    SpliceAgrees(m, m', k, s.id, Root(u), m.Keys - Ids(Plug(k, s)));
  }

  /** `m'` is `m` after node `n` took over all links and the colour of `o`. */
  predicate IsReplacement(m: Mem, m': Mem, k: Ctx, s: Tree, n: int)
    requires s.Node?
  {
    && m'.Keys == m.Keys && s.id in m && n in m
    && (k.Top? || k.id in m)
    && m'[n] == m[s.id]
    && forall i :: i in m && i != n ==>
         m'[i] == if !k.Top? && i == k.id then HoleCell(m, k, n)
                  else if i == Root(s.left) || i == Root(s.right) then m[i].(parent := n)
                  else m[i]
  }

  lemma {:induction false} ReplacementSpells(m: Mem, root: int, k: Ctx, s: Tree, n: int, m': Mem, root': int)
    requires Spells(m, root, Plug(k, s)) && s.Node? && n !in Ids(Plug(k, s)) && n != NIL
    requires IsReplacement(m, m', k, s, n)
    requires root' == if k.Top? then n else root
    ensures Spells(m', root', Plug(k, s.(id := n)))
    ensures SameOutside(m, m', Ids(Plug(k, s)) + {n})
  {
    Open(m, root, k, s);
    PlugIds(k, s);
    TreeNotNil(s);
    ReplacementAgrees(m, m', k, s, n);
    Reparent(m, m', s.left, s.id, n);
    Reparent(m, m', s.right, s.id, n);
    Rehole(m, m', k, s.id, n);
    Close(m', root', k, s.(id := n), root, s);
  }

  /** What the replacement of `s.id` reads and writes, before it. */
  lemma {:induction false} ReplaceView(m: Mem, root: int, k: Ctx, s: Tree, n: int)
    requires Spells(m, root, Plug(k, s)) && s.Node? && s.left.Node? && n !in Ids(Plug(k, s)) && n != NIL
    ensures s.id in m && s.id != n && m[s.id] == Cell(Parent(k), Root(s.left), Root(s.right), s.color)
    ensures Parent(k) == NIL <==> k.Top?
    ensures !k.Top? ==> k.id in m && k.id != n && k.id != s.id && (m[k.id].left == s.id <==> k.InLeft?)
    ensures s.left.id in m && s.left.id != n && s.left.id != s.id && s.left.id != Parent(k)
    ensures Root(s.right) != NIL ==> s.right.Node? && s.right.id in m && s.right.id != n && s.right.id != s.id
    ensures Root(s.right) != NIL ==> s.right.id != Parent(k) && s.right.id != s.left.id
  {
    CellOf(m, root, k, s);
    CtxCell(m, root, k, s);
    ChildCell(m, root, k, s, s.left);
    ChildCell(m, root, k, s, s.right);
    PlugIds(k, s);
  }

  lemma {:induction false} ReplacementAgrees(m: Mem, m': Mem, k: Ctx, s: Tree, n: int)
    requires s.Node? && IsReplacement(m, m', k, s, n) && NIL !in m
    requires Distinct(s) && CtxDistinct(k) && CtxIds(k) !! Ids(s) && n !in Ids(s) && n !in CtxIds(k)
    ensures Agree(m, m', Ids(s.left) - {Root(s.left)}) && Agree(m, m', Ids(s.right) - {Root(s.right)})
    ensures Agree(m, m', CtxIds(k) - {Parent(k)})
  {
  }
}
