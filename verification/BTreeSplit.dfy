/** Splitting a full child and growing a new root: the invariant and the pairs are kept. */
module BTreeSplit {
  import opened BTreeModel

  function Fill(n: nat, x: int): (r: seq<int>)
    ensures |r| == n && forall i :: 0 <= i < n ==> r[i] == x
  {
    seq(n, i => x)
  }

  function EmptyNode(leaf: bool, max: nat): Node {
    Node(leaf, 0, Fill(max, 0), Fill(max, NULL), Fill(max + 1, NIL), NIL)
  }

  /** The new node: the last `min` pairs and `min + 1` children of a full one. */
  function RightHalf(c: Node, p: int, min: nat): Node
    requires Slots(c, 2 * min + 1)
  {
    Node(c.leaf, min, c.keys[min + 1..] + Fill(min + 1, 0), c.values[min + 1..] + Fill(min + 1, NULL),
         if c.leaf then Fill(2 * min + 2, NIL) else c.children[min + 1..] + Fill(min + 1, NIL), p)
  }

  /** The parent with one more key and one more child. */
  function Widened(n: Node, i: int, k: int, v: int, d: int): Node
    requires 0 <= i <= n.num < |n.keys| == |n.values| && |n.children| == |n.keys| + 1
  {
    Inserted(n, i, k, v).(children := InsertAt(n.children, i + 1, n.num + 1, d))
  }

  /** Child `i` of `p` is full, `p` is not, and `d` is a node not in use. */
  ghost predicate Ready(t: Tree, p: int, i: int, d: int) {
    && Inv(t) && p in t.mem && Slots(t.mem[p], 2 * t.min + 1) && !t.mem[p].leaf
    && 0 <= i <= t.mem[p].num < 2 * t.min + 1 && d != NIL && d !in t.mem
    && t.mem[p].children[i] in t.mem && t.mem[t.mem[p].children[i]].num == 2 * t.min + 1
    && Slots(t.mem[t.mem[p].children[i]], 2 * t.min + 1)
  }

  function SplitCell(t: Tree, p: int, i: int, d: int, c: int, x: int): Node
    requires p in t.mem && p in t.info && c in t.mem && Slots(t.mem[c], 2 * t.min + 1) && Slots(t.mem[p], 2 * t.min + 1)
    requires 0 <= i <= t.mem[p].num < 2 * t.min + 1 && (x == d || (x in t.mem && x in t.info))
  {
    if x == d then RightHalf(t.mem[c], p, t.min)
    else if x == c then t.mem[c].(num := t.min)
    else if x == p then Widened(t.mem[p], i, t.mem[c].keys[t.min], t.mem[c].values[t.min], d)
    else if t.mem[x].parent == c && t.info[x].idx > t.min then t.mem[x].(parent := d)
    else t.mem[x]
  }

  function SplitInfo(t: Tree, p: int, i: int, d: int, c: int, x: int): Info
    requires c in t.mem && c in t.info && Slots(t.mem[c], 2 * t.min + 1) && (x == d || (x in t.mem && x in t.info))
  {
    var f := t.info[c];
    if x == d then Info(f.level, t.mem[c].keys[t.min], f.hi, i + 1)
    else if x == c then Info(f.level, f.lo, t.mem[c].keys[t.min], f.idx)
    else if t.mem[x].parent == p && t.info[x].idx > i then t.info[x].(idx := t.info[x].idx + 1)
    else if t.mem[x].parent == c && t.info[x].idx > t.min then t.info[x].(idx := t.info[x].idx - t.min - 1)
    else t.info[x]
  }

  /** The store after the split. */
  ghost function Split(t: Tree, p: int, i: int, d: int): Tree
    requires Ready(t, p, i, d)
  {
    var c := t.mem[p].children[i];
    assert t.mem.Keys == t.info.Keys;
    Tree(map x | x in t.mem.Keys + {d} :: SplitCell(t, p, i, d, c, x),
         map x | x in t.mem.Keys + {d} :: SplitInfo(t, p, i, d, c, x), t.root, t.height, t.min)
  }

  /** The split store, node by node. */
  lemma {:induction false} At(t: Tree, p: int, i: int, d: int, t': Tree, x: int)
    requires Ready(t, p, i, d) && t' == Split(t, p, i, d) && (x == d || x in t.mem)
    ensures p in t.info && (x != d ==> x in t.info) && var c := t.mem[p].children[i];
      && c in t.info && x in t'.mem && x in t'.info && t'.root == t.root && t'.height == t.height && t'.min == t.min
      && t'.mem[x] == SplitCell(t, p, i, d, c, x) && t'.info[x] == SplitInfo(t, p, i, d, c, x)
  {
  }

  /** What is known of the two nodes that take part. */
  lemma {:induction false} Partners(t: Tree, p: int, i: int, d: int)
    requires Ready(t, p, i, d)
    ensures var c := t.mem[p].children[i];
      && KidOk(t, p, i) && c in t.info && p in t.info && c != p && c != t.root && d != c && d != p
      && Below(t.mem[p], t.info[p], i) < t.mem[c].keys[t.min] < Above(t.mem[p], t.info[p], i)
      && t.info[p].lo < t.mem[c].keys[t.min] < t.info[p].hi
  {
    assert NodeOk(t, p) && KidOk(t, p, i);
    assert NodeOk(t, t.mem[p].children[i]);
    assert NodeOk(t, t.root);
  }

  /** A node but the root has the level, interval and index its parent gives it. */
  lemma {:induction false} Upward(t: Tree, x: int)
    requires Inv(t) && x in t.mem
    ensures x in t.info && NodeOk(t, x)
    ensures x == t.root ==> t.mem[x].parent !in t.mem
    ensures x != t.root ==>
      var q := t.mem[x].parent;
      && q in t.mem && q in t.info && NodeOk(t, q) && t.info[q].level == t.info[x].level + 1
      && 0 <= t.info[x].idx <= t.mem[q].num && KidOk(t, q, t.info[x].idx)
  {
    assert NodeOk(t, x);
    if x != t.root {
      assert NodeOk(t, t.mem[x].parent);
      assert KidOk(t, t.mem[x].parent, t.info[x].idx);
    }
  }

  // ---------------------------------------------------------------- the parent

  lemma {:induction false} ParentKeys(t: Tree, p: int, i: int, d: int, t': Tree)
    requires Ready(t, p, i, d) && t' == Split(t, p, i, d)
    ensures KeysOk(t'.mem[p], t'.info[p], 2 * t.min + 1)
    ensures t'.info[p] == t.info[p].(idx := t'.info[p].idx) && t'.mem[p].parent == t.mem[p].parent
    ensures t.mem[p].parent != p && t.mem[p].parent != t.mem[p].children[i] && t'.info[p] == t.info[p]
  {
    Partners(t, p, i, d);
    Upward(t, p);
    var c := t.mem[p].children[i];
    assert NodeOk(t, c);
    InsertedOk(t.mem[p], t.info[p], 2 * t.min + 1, i, t.mem[c].keys[t.min], t.mem[c].values[t.min]);
  }

  lemma {:induction false} ParentKid(t: Tree, p: int, i: int, d: int, t': Tree, j: int)
    requires Ready(t, p, i, d) && t' == Split(t, p, i, d) && 0 <= j <= t.mem[p].num + 1
    requires Slots(t'.mem[p], 2 * t.min + 1) && t'.info[p] == t.info[p]
    ensures KidOk(t', p, j)
  {
    var c, n := t.mem[p].children[i], t.mem[p];
    var j' := if j <= i then j else j - 1;
    assert NodeOk(t, p) && KidOk(t, p, j');
    hide Inv, NodeOk, Split;
    Partners(t, p, i, d);
    var x := n.children[j'];
    At(t, p, i, d, t', p);
    At(t, p, i, d, t', x);
    if j == i + 1 {
      At(t, p, i, d, t', d);
    }
    WidenedBounds(n, t.info[p], i, j, t.mem[c].keys[t.min], t.mem[c].values[t.min], d);
  }

  /** The intervals under the widened parent. */
  lemma {:induction false} WidenedBounds(n: Node, f: Info, i: int, j: int, k: int, v: int, d: int)
    requires 0 <= i <= n.num < |n.keys| == |n.values| && |n.children| == |n.keys| + 1 && 0 <= j <= n.num + 1
    ensures var n' := Widened(n, i, k, v, d);
      && Below(n', f, j) == (if j <= i then Below(n, f, j) else if j == i + 1 then k else Below(n, f, j - 1))
      && n'.children[j] == (if j == i + 1 then d else n.children[if j <= i then j else j - 1])
      && Above(n', f, j) == (if j < i then Above(n, f, j) else if j == i then k else Above(n, f, j - 1))
  {
  }

  lemma {:induction false} ParentOk(t: Tree, p: int, i: int, d: int, t': Tree)
    requires Ready(t, p, i, d) && t' == Split(t, p, i, d)
    ensures NodeOk(t', p)
  {
    ParentKeys(t, p, i, d, t');
    Partners(t, p, i, d);
    forall j | 0 <= j <= t'.mem[p].num ensures KidOk(t', p, j) {
      ParentKid(t, p, i, d, t', j);
    }
    OtherUp(t, p, i, d, t', p);
  }

  // ---------------------------------------------------------------- the two halves

  lemma {:induction false} HalvesKeys(t: Tree, p: int, i: int, d: int, t': Tree)
    requires Ready(t, p, i, d) && t' == Split(t, p, i, d)
    ensures var c := t.mem[p].children[i];
      && KeysOk(t'.mem[c], t'.info[c], 2 * t.min + 1) && KeysOk(t'.mem[d], t'.info[d], 2 * t.min + 1)
      && t'.mem[c] == t.mem[c].(num := t.min) && t'.mem[d] == RightHalf(t.mem[c], p, t.min)
  {
    Partners(t, p, i, d);
    assert NodeOk(t, t.mem[p].children[i]);
  }

  lemma {:induction false} LeftKid(t: Tree, p: int, i: int, d: int, t': Tree, c: int, j: int)
    requires Ready(t, p, i, d) && t' == Split(t, p, i, d) && c == t.mem[p].children[i] && !t.mem[c].leaf
    requires 0 <= j <= t.min && t'.mem[c] == t.mem[c].(num := t.min)
    ensures KidOk(t', c, j)
  {
    assert NodeOk(t, c) && KidOk(t, c, j);
    hide Inv, NodeOk, Split;
    Partners(t, p, i, d);
    var x := t.mem[c].children[j];
    Distinct(t, p, i, d, c, x);
    At(t, p, i, d, t', x);
  }

  lemma {:induction false} RightKid(t: Tree, p: int, i: int, d: int, t': Tree, c: int, j: int)
    requires Ready(t, p, i, d) && t' == Split(t, p, i, d) && c == t.mem[p].children[i] && !t.mem[c].leaf
    requires 0 <= j <= t.min && t'.mem[d] == RightHalf(t.mem[c], p, t.min)
    ensures KidOk(t', d, j)
  {
    assert NodeOk(t, c) && KidOk(t, c, t.min + 1 + j);
    hide Inv, NodeOk, Split;
    Partners(t, p, i, d);
    var x := t.mem[c].children[t.min + 1 + j];
    Distinct(t, p, i, d, c, x);
    assert t'.mem[d].children[j] == x;
    At(t, p, i, d, t', x);
  }

  /** A child of the split node is neither it nor its parent. */
  lemma {:induction false} Distinct(t: Tree, p: int, i: int, d: int, c: int, x: int)
    requires Ready(t, p, i, d) && c == t.mem[p].children[i] && x in t.mem && x in t.info && t.mem[x].parent == c
    ensures x != c && x != p && x != d && c != p && x != t.root
  {
    Partners(t, p, i, d);
    Upward(t, x);
    Upward(t, c);
    Upward(t, p);
  }

  lemma {:induction false} HalvesOk(t: Tree, p: int, i: int, d: int, t': Tree)
    requires Ready(t, p, i, d) && t' == Split(t, p, i, d)
    ensures NodeOk(t', t.mem[p].children[i]) && NodeOk(t', d)
  {
    Partners(t, p, i, d);
    var c := t.mem[p].children[i];
    HalvesKeys(t, p, i, d, t');
    if !t.mem[c].leaf {
      forall j | 0 <= j <= t.min ensures KidOk(t', c, j) && KidOk(t', d, j) {
        LeftKid(t, p, i, d, t', c, j);
        RightKid(t, p, i, d, t', c, j);
      }
    }
    assert t'.mem[p] == SplitCell(t, p, i, d, c, p);
    assert NodeOk(t, c);
    assert UpOk(t', c) && UpOk(t', d);
  }

  // ---------------------------------------------------------------- every other node

  /** The parent still lists the node at its index. */
  lemma {:induction false} OtherUp(t: Tree, p: int, i: int, d: int, t': Tree, x: int)
    requires Ready(t, p, i, d) && t' == Split(t, p, i, d) && x in t.mem && x != t.mem[p].children[i]
    ensures UpOk(t', x)
  {
    assert t.mem.Keys == t.info.Keys && NodeOk(t, x) && UpOk(t, x) && NodeOk(t, p);
    hide Inv, NodeOk, Split;
    Partners(t, p, i, d);
    Upward(t, x);
    var c, q := t.mem[p].children[i], t.mem[x].parent;
    At(t, p, i, d, t', x);
    if x == t.root {
    } else if q == p {
      UnderParent(t, p, i, d, t', x);
    } else if q == c {
      UnderSplit(t, p, i, d, t', x);
    } else {
      At(t, p, i, d, t', q);
    }
  }

  lemma {:induction false} UnderParent(t: Tree, p: int, i: int, d: int, t': Tree, x: int)
    requires Ready(t, p, i, d) && t' == Split(t, p, i, d) && x in t.mem && x != t.mem[p].children[i]
    requires x in t.info && x != t.root && t.mem[x].parent == p && UpOk(t, x)
    ensures UpOk(t', x)
  {
    var c, n := t.mem[p].children[i], t.mem[p];
    hide Inv, NodeOk, Split;
    Partners(t, p, i, d);
    Upward(t, x);
    At(t, p, i, d, t', x);
    At(t, p, i, d, t', p);
    WidenedBounds(n, t.info[p], i, t'.info[x].idx, t.mem[c].keys[t.min], t.mem[c].values[t.min], d);
  }

  lemma {:induction false} UnderSplit(t: Tree, p: int, i: int, d: int, t': Tree, x: int)
    requires Ready(t, p, i, d) && t' == Split(t, p, i, d) && x in t.mem
    requires x in t.info && x != t.root && t.mem[x].parent == t.mem[p].children[i] && UpOk(t, x)
    ensures UpOk(t', x)
  {
    var c := t.mem[p].children[i];
    hide Inv, NodeOk, Split;
    Partners(t, p, i, d);
    Distinct(t, p, i, d, c, x);
    At(t, p, i, d, t', x);
    At(t, p, i, d, t', c);
    At(t, p, i, d, t', d);
  }

  /** The child of a node that took no part. */
  lemma {:induction false} OtherKid(t: Tree, p: int, i: int, d: int, t': Tree, x: int, j: int)
    requires Ready(t, p, i, d) && t' == Split(t, p, i, d) && x in t.mem && x in t.info
    requires x != t.mem[p].children[i] && x != p && 0 <= j <= t.mem[x].num <= |t.mem[x].keys| < |t.mem[x].children|
    requires KidOk(t, x, j)
    ensures KidOk(t', x, j)
  {
    hide Inv, NodeOk, Split;
    Partners(t, p, i, d);
    var c, y := t.mem[p].children[i], t.mem[x].children[j];
    At(t, p, i, d, t', x);
    At(t, p, i, d, t', y);
  }

  lemma {:induction false} OtherKids(t: Tree, p: int, i: int, d: int, t': Tree, x: int)
    requires Ready(t, p, i, d) && t' == Split(t, p, i, d) && x in t.mem && x != t.mem[p].children[i] && x != p
    ensures KeysOk(t'.mem[x], t'.info[x], 2 * t.min + 1) && KidsOk(t', x)
  {
    assert t.mem.Keys == t.info.Keys && NodeOk(t, x) && KeysOk(t.mem[x], t.info[x], 2 * t.min + 1) && KidsOk(t, x);
    hide Inv, NodeOk, Split;
    Partners(t, p, i, d);
    var c := t.mem[p].children[i];
    At(t, p, i, d, t', x);
    if !t.mem[x].leaf {
      forall j | 0 <= j <= t.mem[x].num ensures KidOk(t', x, j) {
        assert KidOk(t, x, j);
        OtherKid(t, p, i, d, t', x, j);
      }
    }
  }

  /** btree_split_child keeps the invariant of the whole store. */
  lemma {:induction false} SplitKeeps(t: Tree, p: int, i: int, d: int, t': Tree)
    requires Ready(t, p, i, d) && t' == Split(t, p, i, d)
    ensures Inv(t')
  {
    ParentOk(t, p, i, d, t');
    HalvesOk(t, p, i, d, t');
    forall x | x in t'.mem ensures NodeOk(t', x) {
      if x != p && x != d && x != t.mem[p].children[i] {
        OtherKids(t, p, i, d, t', x);
        OtherUp(t, p, i, d, t', x);
        Upward(t, x);
      }
    }
  }

  // ---------------------------------------------------------------- the pairs

  /** The pairs of the split node and its parent are those of the two halves and the parent. */
  lemma {:induction false} SplitPairs(n: Node, c: Node, i: int, d: int, p: int, min: nat, k: int, v: int)
    requires Slots(c, 2 * min + 1) && c.num == 2 * min + 1 && Slots(n, 2 * min + 1) && 0 <= i <= n.num < 2 * min + 1
    ensures NodeHolds(n, k, v) || NodeHolds(c, k, v)
       <==> || NodeHolds(Widened(n, i, c.keys[min], c.values[min], d), k, v)
            || NodeHolds(c.(num := min), k, v) || NodeHolds(RightHalf(c, p, min), k, v)
  {
    WidenedHolds(n, i, c.keys[min], c.values[min], d, k, v);
    var l, r := c.(num := min), RightHalf(c, p, min);
    if a :| 0 <= a < c.num && c.keys[a] == k && c.values[a] == v {
      if a < min {
        assert l.keys[a] == k && l.values[a] == v;
      } else if a > min {
        assert r.keys[a - min - 1] == k && r.values[a - min - 1] == v;
      }
    }
    if a :| 0 <= a < min && r.keys[a] == k && r.values[a] == v {
      assert c.keys[a + min + 1] == k && c.values[a + min + 1] == v;
    }
    if a :| 0 <= a < min && l.keys[a] == k && l.values[a] == v {
      assert c.keys[a] == k && c.values[a] == v;
    }
    assert c.keys[min] == k && c.values[min] == v ==> NodeHolds(c, k, v);
  }

  lemma {:induction false} WidenedHolds(n: Node, i: int, k: int, v: int, d: int, k': int, v': int)
    requires 0 <= i <= n.num < |n.keys| == |n.values| && |n.children| == |n.keys| + 1
    ensures NodeHolds(Widened(n, i, k, v, d), k', v') <==> NodeHolds(n, k', v') || (k', v') == (k, v)
  {
    InsertedHolds(n, i, k, v, k', v');
    SamePairs(Widened(n, i, k, v, d), Inserted(n, i, k, v), k', v');
  }

  lemma {:induction false} SamePairs(m: Node, n: Node, k: int, v: int)
    requires m.num == n.num && m.keys == n.keys && m.values == n.values
    ensures NodeHolds(m, k, v) == NodeHolds(n, k, v)
  {
  }

  lemma {:induction false} SplitHolds(t: Tree, p: int, i: int, d: int, t': Tree, k: int, v: int)
    requires Ready(t, p, i, d) && t' == Split(t, p, i, d)
    ensures Holds(t', k, v) <==> Holds(t, k, v)
  {
    var c := t.mem[p].children[i];
    hide Inv, NodeOk, Split, NodeHolds;
    Partners(t, p, i, d);
    At(t, p, i, d, t', p);
    At(t, p, i, d, t', c);
    At(t, p, i, d, t', d);
    SplitPairs(t.mem[p], t.mem[c], i, d, p, t.min, k, v);
    if x :| x in t.mem && NodeHolds(t.mem[x], k, v) {
      At(t, p, i, d, t', x);
      if x != p && x != c {
        SamePairs(t.mem[x], t'.mem[x], k, v);
      }
    }
    if x :| x in t'.mem && NodeHolds(t'.mem[x], k, v) {
      if x != p && x != c && x != d {
        Members(t, p, i, d, t', x);
        At(t, p, i, d, t', x);
        SamePairs(t.mem[x], t'.mem[x], k, v);
      }
    }
  }

  lemma {:induction false} Members(t: Tree, p: int, i: int, d: int, t': Tree, x: int)
    requires Ready(t, p, i, d) && t' == Split(t, p, i, d)
    ensures x in t'.mem <==> x == d || x in t.mem
  {
  }

  // ---------------------------------------------------------------- a new root

  /** A root with no key over the old root. */
  function RootCell(min: nat, root: int): Node {
    EmptyNode(false, 2 * min + 1).(children := Fill(2 * min + 2, NIL)[0 := root])
  }

  function Grown(t: Tree, d: int): Tree
    requires t.root in t.mem
  {
    Tree(t.mem[t.root := t.mem[t.root].(parent := d)][d := RootCell(t.min, t.root)],
         t.info[d := Info(t.height + 1, -1, LIMIT, 0)], d, t.height + 1, t.min)
  }

  lemma {:induction false} GrownKeeps(t: Tree, d: int)
    requires Inv(t) && d != NIL && d !in t.mem
    ensures Inv(Grown(t, d))
  {
    var t' := Grown(t, d);
    assert NodeOk(t, t.root);
    forall x | x in t'.mem ensures NodeOk(t', x) {
      if x == d {
        assert KidOk(t', d, 0);
      } else {
        GrownNode(t, d, x);
      }
    }
  }

  lemma {:induction false} GrownNode(t: Tree, d: int, x: int)
    requires Inv(t) && d != NIL && d !in t.mem && x in t.mem
    ensures NodeOk(Grown(t, d), x)
  {
    var t' := Grown(t, d);
    assert NodeOk(t, x) && NodeOk(t, t.root);
    if !t.mem[x].leaf {
      forall i | 0 <= i <= t.mem[x].num ensures KidOk(t', x, i) {
        assert KidOk(t, x, i);
      }
    }
    assert UpOk(t', x);
  }

  lemma {:induction false} GrownHolds(t: Tree, d: int, k: int, v: int)
    requires t.root in t.mem && d !in t.mem
    ensures Holds(Grown(t, d), k, v) <==> Holds(t, k, v)
  {
    var t' := Grown(t, d);
    if x :| x in t.mem && NodeHolds(t.mem[x], k, v) {
      SamePairs(t.mem[x], t'.mem[x], k, v);
    }
    if x :| x in t'.mem && NodeHolds(t'.mem[x], k, v) {
      if x != d {
        SamePairs(t.mem[x], t'.mem[x], k, v);
      }
    }
  }

  // ---------------------------------------------------------------- the split step by step

  /** The children of `c` at the `count` indices after `t.min` have `d` as their parent. */
  ghost predicate Reparented(mem: map<int, Node>, t: Tree, c: int, d: int, count: int) {
    && mem.Keys == t.mem.Keys && t.mem.Keys == t.info.Keys
    && forall x :: x in t.mem ==> mem[x] == Moved(t, c, d, count, x)
  }

  function Moved(t: Tree, c: int, d: int, count: int, x: int): Node
    requires x in t.mem && x in t.info
  {
    if t.mem[x].parent == c && t.min < t.info[x].idx <= t.min + count then t.mem[x].(parent := d) else t.mem[x]
  }

  lemma {:induction false} NoneMoved(t: Tree, c: int, d: int)
    requires Inv(t)
    ensures Reparented(t.mem, t, c, d, 0)
  {
  }

  /** One more child: it is the only one at its index. */
  lemma {:induction false} MoveOne(mem: map<int, Node>, t: Tree, c: int, d: int, count: nat)
    requires Inv(t) && Reparented(mem, t, c, d, count) && c in t.mem && !t.mem[c].leaf
    requires Slots(t.mem[c], 2 * t.min + 1) && t.min + 1 + count <= t.mem[c].num
    ensures var g := t.mem[c].children[t.min + 1 + count];
      g in mem && g != NIL && Reparented(mem[g := mem[g].(parent := d)], t, c, d, count + 1)
  {
    var g := t.mem[c].children[t.min + 1 + count];
    assert NodeOk(t, c) && KidOk(t, c, t.min + 1 + count);
    var mem' := mem[g := mem[g].(parent := d)];
    forall x | x in t.mem ensures mem'[x] == Moved(t, c, d, count + 1, x) {
      assert mem[x] == Moved(t, c, d, count, x);
      if x != g && t.mem[x].parent == c {
        Upward(t, x);
      }
    }
  }

  lemma {:induction false} LeafMovesNone(t: Tree, c: int, d: int, count: int)
    requires Inv(t) && c in t.mem && t.mem[c].leaf
    ensures Reparented(t.mem, t, c, d, count)
  {
    forall x | x in t.mem ensures t.mem[x] == Moved(t, c, d, count, x) {
      Upward(t, x);
    }
  }

  lemma {:induction false} MovedIsSplit(t: Tree, p: int, i: int, d: int, c: int, x: int)
    requires Ready(t, p, i, d) && c == t.mem[p].children[i] && x in t.mem
    ensures p in t.info && c in t.info && x in t.info
    ensures x != c && x != p ==> Moved(t, c, d, t.min + 1, x) == SplitCell(t, p, i, d, c, x)
    ensures x == c || x == p ==> Moved(t, c, d, t.min + 1, x) == t.mem[x]
  {
    Partners(t, p, i, d);
    Upward(t, x);
    Upward(t, c);
    Upward(t, p);
  }

  /** Entering the new node and rewriting the two partners completes the split. */
  lemma {:induction false} Assembled(mem: map<int, Node>, t: Tree, p: int, i: int, d: int, c: int)
    requires Ready(t, p, i, d) && c == t.mem[p].children[i] && Reparented(mem, t, c, d, t.min + 1)
    ensures mem[c] == t.mem[c] && mem[p] == t.mem[p]
    ensures mem[d := RightHalf(t.mem[c], p, t.min)][c := t.mem[c].(num := t.min)]
               [p := Widened(t.mem[p], i, t.mem[c].keys[t.min], t.mem[c].values[t.min], d)] == Split(t, p, i, d).mem
  {
    Partners(t, p, i, d);
    hide Inv, NodeOk, Moved;
    forall x | x in t.mem
      ensures x != c && x != p ==> mem[x] == SplitCell(t, p, i, d, c, x)
      ensures x == c || x == p ==> mem[x] == t.mem[x]
    {
      assert mem[x] == Moved(t, c, d, t.min + 1, x);
      MovedIsSplit(t, p, i, d, c, x);
    }
  }
}
