/** The B-tree of btree.c as a store of linked nodes, described node by node.

    Beside the store, every node has a level, an open interval of keys and an index under
    its parent. The invariant ties these to the node's own fields only, and yet it makes
    the whole store one ordered tree with all leaves at one depth. */
module BTreeModel {

  const NIL := -1
  const NULL := 0
  const LIMIT := 0x1_0000_0000

  datatype Node = Node(leaf: bool, num: nat, keys: seq<int>, values: seq<int>, children: seq<int>, parent: int)

  datatype Info = Info(level: int, lo: int, hi: int, idx: int)

  /** `min` keys stay in each half of a split; a node has room for `2 * min + 1`. */
  datatype Tree = Tree(mem: map<int, Node>, info: map<int, Info>, root: int, height: int, min: nat)

  // ---------------------------------------------------------------- the order of the tree

  function MinKeys(order: nat): int {
    (order - 1) / 2
  }

  function MaxKeys(order: nat): int {
    order - 1
  }

  /** The slot from which btree_split_child copies the key number `i` of the new node. */
  function Source(order: nat, i: int): int {
    i + MinKeys(order) + 1
  }

  predicate ReadsInside(order: nat) {
    forall i :: 0 <= i < MinKeys(order) ==> Source(order, i) < MaxKeys(order)
  }

  /** The indices that btree_split_child reads lie in the arrays, and every key of a full
      node lands in one of the two halves or moves up, exactly when the order is even. */
  lemma {:induction false} EvenOrderIff(order: nat)
    requires order >= 3
    ensures ReadsInside(order) <==> order % 2 == 0
    ensures MaxKeys(order) == 2 * MinKeys(order) + 1 <==> order % 2 == 0
  {
    if order % 2 == 1 {
      var i := MinKeys(order) - 1;
      assert 0 <= i < MinKeys(order) && Source(order, i) == MaxKeys(order);
    }
  }

  // ---------------------------------------------------------------- the invariant

  predicate Slots(n: Node, max: nat) {
    |n.keys| == |n.values| == max && |n.children| == max + 1 && n.num <= max
  }

  /** The keys are strictly ascending in the node's interval. */
  predicate KeysOk(n: Node, f: Info, max: nat) {
    && Slots(n, max) && f.level >= 1 && f.lo < f.hi && (n.leaf <==> f.level == 1)
    && (forall i :: 0 <= i < n.num ==> f.lo < n.keys[i] < f.hi && n.values[i] != NULL)
    && (forall i, j :: 0 <= i < j < n.num ==> n.keys[i] < n.keys[j])
  }

  /** The bounds of the interval of child `i`. */
  function Below(n: Node, f: Info, i: int): int
    requires 0 <= i <= n.num <= |n.keys|
  {
    if i == 0 then f.lo else n.keys[i - 1]
  }

  function Above(n: Node, f: Info, i: int): int
    requires 0 <= i <= n.num <= |n.keys|
  {
    if i == n.num then f.hi else n.keys[i]
  }

  /** Child `i` knows its parent and has the level, interval and index it should. */
  ghost predicate KidOk(t: Tree, p: int, i: int)
    requires p in t.mem && p in t.info && 0 <= i <= t.mem[p].num <= |t.mem[p].keys| < |t.mem[p].children|
  {
    var c := t.mem[p].children[i];
    && c in t.mem && c in t.info && t.mem[c].parent == p
    && t.info[c] == Info(t.info[p].level - 1, Below(t.mem[p], t.info[p], i), Above(t.mem[p], t.info[p], i), i)
  }

  ghost predicate KidsOk(t: Tree, p: int)
    requires p in t.mem && p in t.info && Slots(t.mem[p], 2 * t.min + 1)
  {
    t.mem[p].leaf || forall i :: 0 <= i <= t.mem[p].num ==> KidOk(t, p, i)
  }

  /** The node is the root, or its parent lists it at its index. */
  ghost predicate UpOk(t: Tree, n: int)
    requires n in t.mem && n in t.info
  {
    if n == t.root then t.mem[n].parent == NIL && t.info[n] == Info(t.height, -1, LIMIT, 0)
    else
      var p, i := t.mem[n].parent, t.info[n].idx;
      && t.info[n].level < t.height && p in t.mem && !t.mem[p].leaf
      && 0 <= i <= t.mem[p].num < |t.mem[p].children| && t.mem[p].children[i] == n
  }

  ghost predicate NodeOk(t: Tree, n: int) {
    && n in t.mem && n in t.info && KeysOk(t.mem[n], t.info[n], 2 * t.min + 1)
    && KidsOk(t, n) && UpOk(t, n)
  }

  ghost predicate Inv(t: Tree) {
    && t.mem.Keys == t.info.Keys && t.root in t.mem && NIL !in t.mem
    && forall n {:trigger NodeOk(t, n)} :: n in t.mem ==> NodeOk(t, n)
  }

  // ---------------------------------------------------------------- consequences

  /** `k` lies in the interval of node `n`. */
  predicate Spans(t: Tree, n: int, k: int) {
    n in t.info && t.info[n].lo < k < t.info[n].hi
  }

  /** What spans a key has a parent that spans it too. */
  lemma {:induction false} ParentSpans(t: Tree, n: int, k: int)
    requires Inv(t) && n in t.mem && n != t.root && Spans(t, n, k)
    ensures var p := t.mem[n].parent;
      && p in t.mem && Spans(t, p, k) && t.info[p].level == t.info[n].level + 1 && !t.mem[p].leaf && NodeOk(t, p)
      && 0 <= t.info[n].idx <= t.mem[p].num && KidOk(t, p, t.info[n].idx)
      && t.mem[p].children[t.info[n].idx] == n
  {
    assert NodeOk(t, n);
    assert NodeOk(t, t.mem[n].parent);
    assert KidOk(t, t.mem[n].parent, t.info[n].idx);
  }

  lemma {:induction false} SameSlot(n: Node, f: Info, max: nat, i: int, j: int, k: int)
    requires KeysOk(n, f, max) && 0 <= i <= n.num && 0 <= j <= n.num
    requires Below(n, f, i) < k < Above(n, f, i) && Below(n, f, j) < k < Above(n, f, j)
    ensures i == j
  {
  }

  /** Between two neighbouring keys there is no key. */
  lemma {:induction false} NoneBetween(n: Node, f: Info, max: nat, j: int, k: int)
    requires KeysOk(n, f, max) && 0 <= j <= n.num && Below(n, f, j) < k < Above(n, f, j)
    ensures !HasKey(n, k)
  {
    forall i | 0 <= i < n.num ensures n.keys[i] != k {
      if i < j {
        assert n.keys[i] <= n.keys[j - 1];
      } else {
        assert n.keys[j] <= n.keys[i];
      }
    }
  }

  /** At each level at most one node spans a key. */
  lemma {:induction false} SpansOnce(t: Tree, m: int, n: int, k: int)
    requires Inv(t) && m in t.mem && n in t.mem && Spans(t, m, k) && Spans(t, n, k)
    requires t.info[m].level == t.info[n].level
    ensures m == n
    decreases t.height - t.info[m].level
  {
    assert NodeOk(t, m) && NodeOk(t, n);
    if m != t.root && n != t.root {
      ParentSpans(t, m, k);
      ParentSpans(t, n, k);
      var p := t.mem[m].parent;
      assert NodeOk(t, p);
      SpansOnce(t, p, t.mem[n].parent, k);
      SameSlot(t.mem[p], t.info[p], 2 * t.min + 1, t.info[m].idx, t.info[n].idx, k);
    }
  }

  /** A node that spans a key has an ancestor at every higher level that does. */
  lemma {:induction false} Climb(t: Tree, m: int, level: int, k: int) returns (p: int)
    requires Inv(t) && m in t.mem && Spans(t, m, k) && t.info[m].level <= level <= t.height
    ensures p in t.mem && Spans(t, p, k) && t.info[p].level == level
    decreases level - t.info[m].level
  {
    p := m;
    if t.info[m].level < level {
      assert NodeOk(t, m);
      ParentSpans(t, m, k);
      p := Climb(t, t.mem[m].parent, level, k);
    }
  }

  /** The node reached from `n` by following `k` parent links. */
  function UpBy(t: Tree, n: int, k: nat): int
    decreases k
  {
    if k == 0 || n !in t.mem then n else UpBy(t, t.mem[n].parent, k - 1)
  }

  /** From a node of any level the root is exactly `height - level` parent links away; so
      every leaf lies at the same depth, the height of the tree. */
  lemma {:induction false} Depth(t: Tree, n: int, k: nat)
    requires Inv(t) && n in t.mem && n in t.info
    ensures t.mem[n].leaf <==> t.info[n].level == 1
    ensures k <= t.height - t.info[n].level ==> (UpBy(t, n, k) == t.root <==> k == t.height - t.info[n].level)
    decreases k
  {
    assert NodeOk(t, n);
    if n != t.root {
      var p := t.mem[n].parent;
      assert NodeOk(t, p);
      assert KidOk(t, p, t.info[n].idx);
      if k > 0 {
        Depth(t, p, k - 1);
      }
    }
  }

  predicate HasKey(n: Node, k: int) {
    exists i :: 0 <= i < n.num && i < |n.keys| && n.keys[i] == k
  }

  /** A key sits in one node only. */
  lemma {:induction false} KeyOnce(t: Tree, m: int, n: int, k: int)
    requires Inv(t) && m in t.mem && n in t.mem && HasKey(t.mem[m], k) && HasKey(t.mem[n], k)
    ensures m == n
  {
    assert NodeOk(t, m) && NodeOk(t, n);
    if t.info[m].level == t.info[n].level {
      SpansOnce(t, m, n, k);
    } else if t.info[m].level < t.info[n].level {
      NotBelow(t, m, n, k);
    } else {
      NotBelow(t, n, m, k);
    }
  }

  /** No node below the one that holds a key spans it. */
  lemma {:induction false} NotBelow(t: Tree, m: int, n: int, k: int)
    requires Inv(t) && m in t.mem && n in t.mem && Spans(t, m, k) && HasKey(t.mem[n], k)
    ensures t.info[m].level >= t.info[n].level
  {
    assert NodeOk(t, n);
    if t.info[m].level < t.info[n].level {
      var p := Climb(t, m, t.info[n].level - 1, k);
      assert NodeOk(t, p);
      ParentSpans(t, p, k);
      SpansOnce(t, t.mem[p].parent, n, k);
      NoneBetween(t.mem[n], t.info[n], 2 * t.min + 1, t.info[p].idx, k);
    }
  }

  // ---------------------------------------------------------------- contents

  predicate NodeHolds(n: Node, k: int, v: int) {
    exists i :: 0 <= i < n.num && i < |n.keys| && i < |n.values| && n.keys[i] == k && n.values[i] == v
  }

  ghost predicate Holds(t: Tree, k: int, v: int) {
    exists n :: n in t.mem && NodeHolds(t.mem[n], k, v)
  }

  /** The pairs in the store are those of the map. */
  ghost predicate Represents(t: Tree, contents: map<int, int>) {
    forall k, v :: Holds(t, k, v) <==> k in contents && contents[k] == v
  }

  // ---------------------------------------------------------------- descending

  /** No node above the given level has the key. */
  ghost predicate ClearAbove(t: Tree, level: int, k: int) {
    forall m :: m in t.mem && m in t.info && t.info[m].level > level ==> !HasKey(t.mem[m], k)
  }

  lemma {:induction false} AtRoot(t: Tree, k: int)
    requires Inv(t) && 0 <= k < LIMIT
    ensures Spans(t, t.root, k) && ClearAbove(t, t.height, k) && t.info[t.root].level == t.height
  {
    assert NodeOk(t, t.root);
    forall m | m in t.mem ensures t.info[m].level <= t.height {
      assert NodeOk(t, m);
    }
  }

  /** The node that spans a key is the only one of its level that could have it. */
  lemma {:induction false} NotOnLevel(t: Tree, n: int, k: int)
    requires Inv(t) && n in t.mem && Spans(t, n, k) && !HasKey(t.mem[n], k)
    requires ClearAbove(t, t.info[n].level, k)
    ensures ClearAbove(t, t.info[n].level - 1, k)
  {
    forall m | m in t.mem && t.info[m].level == t.info[n].level && HasKey(t.mem[m], k) ensures false {
      assert NodeOk(t, m);
      SpansOnce(t, m, n, k);
    }
  }

  lemma {:induction false} ChildSpans(t: Tree, n: int, i: int, k: int)
    requires Inv(t) && n in t.mem && !t.mem[n].leaf && 0 <= i <= t.mem[n].num <= |t.mem[n].keys|
    requires Below(t.mem[n], t.info[n], i) < k < Above(t.mem[n], t.info[n], i)
    ensures |t.mem[n].children| > i && var c := t.mem[n].children[i];
      c in t.mem && c != NIL && Spans(t, c, k) && t.info[c].level == t.info[n].level - 1
  {
    assert NodeOk(t, n);
    assert KidOk(t, n, i);
    assert NodeOk(t, t.mem[n].children[i]);
  }

  // ---------------------------------------------------------------- changing a leaf

  function InsertAt(s: seq<int>, i: int, num: int, x: int): (r: seq<int>)
    requires 0 <= i <= num < |s|
    ensures |r| == |s|
    ensures forall j :: 0 <= j < |s| ==> r[j] == if j < i || num < j then s[j] else if j == i then x else s[j - 1]
  {
    s[..i] + [x] + s[i..num] + s[num + 1..]
  }

  function RemoveAt(s: seq<int>, i: int, num: int): (r: seq<int>)
    requires 0 <= i < num <= |s|
    ensures |r| == |s| && forall j :: 0 <= j < |s| ==> r[j] == if i <= j < num - 1 then s[j + 1] else s[j]
  {
    s[..i] + s[i + 1..num] + s[num - 1..]
  }

  /** A node with a pair inserted at slot `j`, and one with the pair at slot `j` removed. */
  function Inserted(n: Node, j: int, k: int, v: int): Node
    requires 0 <= j <= n.num < |n.keys| == |n.values|
  {
    n.(num := n.num + 1, keys := InsertAt(n.keys, j, n.num, k), values := InsertAt(n.values, j, n.num, v))
  }

  function Removed(n: Node, j: int): Node
    requires 0 <= j < n.num <= |n.keys| == |n.values|
  {
    n.(num := n.num - 1, keys := RemoveAt(n.keys, j, n.num), values := RemoveAt(n.values, j, n.num))
  }

  lemma {:induction false} InsertedOk(n: Node, f: Info, max: nat, j: int, k: int, v: int)
    requires KeysOk(n, f, max) && 0 <= j <= n.num < max && v != NULL
    requires f.lo < k < f.hi && Below(n, f, j) < k < Above(n, f, j)
    ensures KeysOk(Inserted(n, j, k, v), f, max)
  {
    var n' := Inserted(n, j, k, v);
    forall a, b | 0 <= a < b < n'.num ensures n'.keys[a] < n'.keys[b] {
    }
  }

  lemma {:induction false} InsertedHolds(n: Node, j: int, k: int, v: int, k': int, v': int)
    requires 0 <= j <= n.num < |n.keys| == |n.values|
    ensures NodeHolds(Inserted(n, j, k, v), k', v') <==> NodeHolds(n, k', v') || (k', v') == (k, v)
  {
    var n' := Inserted(n, j, k, v);
    if i :| 0 <= i < n.num && n.keys[i] == k' && n.values[i] == v' {
      InsertedKept(n, j, k, v, i);
    }
    InsertedSlot(n, j, k, v, j);
    if i :| 0 <= i < n'.num && n'.keys[i] == k' && n'.values[i] == v' {
      InsertedSlot(n, j, k, v, i);
    }
  }

  lemma {:induction false} InsertedKept(n: Node, j: int, k: int, v: int, i: int)
    requires 0 <= j <= n.num < |n.keys| == |n.values| && 0 <= i < n.num
    ensures NodeHolds(Inserted(n, j, k, v), n.keys[i], n.values[i])
  {
    var n', i' := Inserted(n, j, k, v), if i < j then i else i + 1;
    assert n'.keys[i'] == n.keys[i] && n'.values[i'] == n.values[i];
  }

  lemma {:induction false} InsertedSlot(n: Node, j: int, k: int, v: int, i: int)
    requires 0 <= j <= n.num < |n.keys| == |n.values| && 0 <= i <= n.num
    ensures var n' := Inserted(n, j, k, v);
      && NodeHolds(n', n'.keys[i], n'.values[i])
      && (i == j ==> n'.keys[i] == k && n'.values[i] == v) && (i != j ==> NodeHolds(n, n'.keys[i], n'.values[i]))
  {
    var n', i' := Inserted(n, j, k, v), if i < j then i else i - 1;
    if i != j {
      assert n.keys[i'] == n'.keys[i] && n.values[i'] == n'.values[i];
    }
  }

  lemma {:induction false} RemovedOk(n: Node, f: Info, max: nat, j: int)
    requires KeysOk(n, f, max) && 0 <= j < n.num
    ensures KeysOk(Removed(n, j), f, max)
  {
  }

  lemma {:induction false} RemovedHolds(n: Node, f: Info, max: nat, j: int, k: int, v: int)
    requires KeysOk(n, f, max) && 0 <= j < n.num
    ensures NodeHolds(Removed(n, j), k, v) <==> NodeHolds(n, k, v) && k != n.keys[j]
  {
    var n' := Removed(n, j);
    if i :| 0 <= i < n.num && n.keys[i] == k && n.values[i] == v && k != n.keys[j] {
      var i' := if i < j then i else i - 1;
      assert n'.keys[i'] == k && n'.values[i'] == v;
    }
    if i :| 0 <= i < n'.num && n'.keys[i] == k && n'.values[i] == v {
      RemovedSlot(n, f, max, j, i);
    }
  }

  lemma {:induction false} RemovedSlot(n: Node, f: Info, max: nat, j: int, i: int)
    requires KeysOk(n, f, max) && 0 <= j < n.num && 0 <= i < n.num - 1
    ensures var n' := Removed(n, j); NodeHolds(n, n'.keys[i], n'.values[i]) && n'.keys[i] != n.keys[j]
  {
    var n', i' := Removed(n, j), if i < j then i else i + 1;
    assert n.keys[i'] == n'.keys[i] && n.values[i'] == n'.values[i];
  }

  /** Rewriting the pairs of a leaf keeps the invariant. */
  lemma {:induction false} LeafKeeps(t: Tree, n: int, node: Node)
    requires Inv(t) && n in t.mem && t.mem[n].leaf && node.leaf && node.parent == t.mem[n].parent
    requires KeysOk(node, t.info[n], 2 * t.min + 1)
    ensures Inv(t.(mem := t.mem[n := node]))
  {
    var t' := t.(mem := t.mem[n := node]);
    forall x | x in t.mem ensures NodeOk(t', x) {
      assert NodeOk(t, x) && NodeOk(t, n);
      if !t'.mem[x].leaf {
        forall i | 0 <= i <= t.mem[x].num ensures KidOk(t', x, i) {
          assert KidOk(t, x, i);
        }
      }
      assert UpOk(t', x);
    }
  }

  lemma {:induction false} LeafInserts(t: Tree, n: int, node: Node, k: int, v: int, contents: map<int, int>)
    requires Represents(t, contents) && n in t.mem && k !in contents
    requires forall k', v' :: NodeHolds(node, k', v') <==> NodeHolds(t.mem[n], k', v') || (k', v') == (k, v)
    ensures Represents(t.(mem := t.mem[n := node]), contents[k := v])
  {
    var t' := t.(mem := t.mem[n := node]);
    forall k', v' ensures Holds(t', k', v') <==> Holds(t, k', v') || (k', v') == (k, v) {
      assert Holds(t, k', v') || (k', v') == (k, v) ==> Holds(t', k', v') by {
        if m :| m in t.mem && NodeHolds(t.mem[m], k', v') {
          assert NodeHolds(t'.mem[m], k', v');
        }
        if (k', v') == (k, v) {
          assert NodeHolds(t'.mem[n], k', v');
        }
      }
      if m :| m in t'.mem && NodeHolds(t'.mem[m], k', v') {
        assert NodeHolds(t.mem[m], k', v') || (k', v') == (k, v);
      }
    }
  }

  lemma {:induction false} LeafRemoves(t: Tree, n: int, node: Node, k: int, contents: map<int, int>)
    requires Inv(t) && Represents(t, contents) && n in t.mem && HasKey(t.mem[n], k)
    requires forall k', v' :: NodeHolds(node, k', v') <==> NodeHolds(t.mem[n], k', v') && k' != k
    ensures k in contents && Represents(t.(mem := t.mem[n := node]), contents - {k})
  {
    var t' := t.(mem := t.mem[n := node]);
    assert k in contents by {
      var i :| 0 <= i < t.mem[n].num && i < |t.mem[n].keys| && t.mem[n].keys[i] == k;
      assert NodeOk(t, n);
      assert NodeHolds(t.mem[n], k, t.mem[n].values[i]);
      assert Holds(t, k, t.mem[n].values[i]);
    }
    forall k', v' ensures Holds(t', k', v') <==> Holds(t, k', v') && k' != k {
      if m :| m in t.mem && NodeHolds(t.mem[m], k', v') && k' != k {
        assert NodeHolds(t'.mem[m], k', v');
      }
      if m :| m in t'.mem && NodeHolds(t'.mem[m], k', v') {
        assert NodeHolds(t.mem[m], k', v');
        if m != n && k' == k {
          assert HasKey(t.mem[m], k);
          KeyOnce(t, m, n, k);
        }
      }
    }
  }
}
