/** btree.c: the B-tree in place, for every even order `2 * min + 2`. */
module BTrees {
  import opened BTreeModel
  import opened BTreeSplit
  import opened BTreeListing

  // ---------------------------------------------------------------- loops inside one node

  /** `r` is `s` with slots `j` up to `num` moved one to the right, slot `j` left as it was. */
  predicate MovedUp(r: seq<int>, s: seq<int>, j: int, num: int) {
    && |r| == |s| && -1 <= j <= num < |s|
    && (forall l :: 0 <= l <= j ==> r[l] == s[l]) && (forall l :: num < l < |s| ==> r[l] == s[l])
    && (forall l :: j < l <= num && l > 0 ==> r[l] == s[l - 1])
  }

  lemma {:induction false} MoveStep(r: seq<int>, s: seq<int>, j: int, num: int)
    requires MovedUp(r, s, j, num) && j > 0
    ensures MovedUp(r[j := r[j - 1]], s, j - 1, num) && r[j - 1] == s[j - 1] && |r| == |s|
  {
  }

  lemma {:induction false} MoveEnd(r: seq<int>, s: seq<int>, j: int, num: int, x: int)
    requires MovedUp(r, s, j, num) && j >= 0
    ensures r[j := x] == InsertAt(s, j, num, x) && (j > 0 ==> r[j - 1] == s[j - 1])
  {
  }

  /** `r` is `s` with slots after `i` up to `j` moved one to the left. */
  predicate MovedDown(r: seq<int>, s: seq<int>, i: int, j: int) {
    && |r| == |s| && 0 <= i <= j < |s|
    && (forall l :: 0 <= l < i ==> r[l] == s[l]) && (forall l :: j <= l < |s| ==> r[l] == s[l])
    && (forall l :: i <= l < j ==> r[l] == s[l + 1])
  }

  /** The loops of btree_search and find_key_index: the first slot whose key is not less. */
  method FindIndex(n: Node, key: int) returns (i: nat)
    requires n.num <= |n.keys|
    ensures i <= n.num && (forall j :: 0 <= j < i ==> n.keys[j] < key) && (i < n.num ==> key <= n.keys[i])
  {
    i := 0;
    while i < n.num && key > n.keys[i]
      invariant i <= n.num && forall j :: 0 <= j < i ==> n.keys[j] < key
    {
      i := i + 1;
    }
  }

  /** The slot found has the key, or the node does not and the key belongs under child `i`. */
  lemma {:induction false} IndexMeans(n: Node, f: Info, max: nat, key: int, i: nat)
    requires KeysOk(n, f, max) && f.lo < key < f.hi && i <= n.num
    requires (forall j :: 0 <= j < i ==> n.keys[j] < key) && (i < n.num ==> key <= n.keys[i])
    ensures HasKey(n, key) <==> i < n.num && n.keys[i] == key
    ensures !HasKey(n, key) ==> Below(n, f, i) < key < Above(n, f, i)
  {
    assert i < n.num && n.keys[i] == key ==> HasKey(n, key);
    if !(i < n.num && n.keys[i] == key) {
      NoneBetween(n, f, max, i, key);
    }
  }

  /** The downward loop of btree_insert_non_full over an inner node. */
  method FindChild(n: Node, key: int) returns (i: nat)
    requires n.num <= |n.keys|
    ensures i <= n.num && (i > 0 ==> n.keys[i - 1] <= key) && forall j :: i <= j < n.num ==> key < n.keys[j]
  {
    var j := n.num - 1;
    while j >= 0 && key < n.keys[j]
      invariant -1 <= j < n.num && forall l :: j < l < n.num ==> key < n.keys[l]
    {
      j := j - 1;
    }
    i := j + 1;
  }

  /** The leaf case of btree_insert_non_full: keys move up until the slot is found. */
  method InsertInLeaf(n: Node, key: int, value: int) returns (r: Node, ghost i: nat)
    requires n.num < |n.keys| == |n.values|
    ensures i <= n.num && (i > 0 ==> n.keys[i - 1] <= key) && (i < n.num ==> key < n.keys[i])
    ensures r == Inserted(n, i, key, value)
  {
    var keys, values, j := n.keys, n.values, n.num - 1;
    assert MovedUp(keys, keys, n.num, n.num) && MovedUp(values, values, n.num, n.num);
    hide MovedUp;
    while j >= 0 && key < keys[j]
      invariant -1 <= j < n.num && |keys| == |values| == |n.keys|
      invariant MovedUp(keys, n.keys, j + 1, n.num) && MovedUp(values, n.values, j + 1, n.num)
      invariant j + 1 < n.num ==> key < n.keys[j + 1]
    {
      MoveStep(keys, n.keys, j + 1, n.num);
      MoveStep(values, n.values, j + 1, n.num);
      keys, values := keys[j + 1 := keys[j]], values[j + 1 := values[j]];
      j := j - 1;
    }
    i := j + 1;
    MoveEnd(keys, n.keys, j + 1, n.num, key);
    MoveEnd(values, n.values, j + 1, n.num, value);
    keys, values := keys[j + 1 := key], values[j + 1 := value];
    r := n.(keys := keys, values := values, num := n.num + 1);
  }

  /** The loop of delete_leaf_node. */
  method RemoveFromLeaf(n: Node, i: nat) returns (r: Node)
    requires i < n.num <= |n.keys| == |n.values|
    ensures r == Removed(n, i)
  {
    var keys, values, j := n.keys, n.values, i;
    while j < n.num - 1
      invariant j <= n.num - 1 && MovedDown(keys, n.keys, i, j) && MovedDown(values, n.values, i, j)
    {
      keys, values := keys[j := keys[j + 1]], values[j := values[j + 1]];
      j := j + 1;
    }
    assert keys == RemoveAt(n.keys, i, n.num) && values == RemoveAt(n.values, i, n.num);
    r := n.(keys := keys, values := values, num := n.num - 1);
  }

  /** The two shifting loops over the parent in btree_split_child. */
  method Widen(n: Node, index: nat, key: int, value: int, d: int) returns (r: Node)
    requires index <= n.num < |n.keys| == |n.values| && |n.children| == |n.keys| + 1
    ensures r == Widened(n, index, key, value, d)
  {
    var children := OpenSlot(n.children, index + 1, n.num + 1, d);
    var keys := OpenSlot(n.keys, index, n.num, key);
    var values := OpenSlot(n.values, index, n.num, value);
    r := n.(children := children, keys := keys, values := values, num := n.num + 1);
  }

  /** Shifts slots `at` up to `num` one to the right and stores `x` in the gap. */
  method OpenSlot(s: seq<int>, at: nat, num: nat, x: int) returns (r: seq<int>)
    requires at <= num < |s|
    ensures r == InsertAt(s, at, num, x)
  {
    r := s;
    var j := num;
    while j > at
      invariant at <= j && MovedUp(r, s, j, num)
    {
      r := r[j := r[j - 1]];
      j := j - 1;
    }
    MoveEnd(r, s, at, num, x);
    r := r[at := x];
  }

  /** The copying loop of btree_split_child over keys and values. */
  method CopyHalf(c: Node, p: int, min: nat) returns (r: Node)
    requires Slots(c, 2 * min + 1)
    ensures r == RightHalf(c, p, min).(children := Fill(2 * min + 2, NIL))
  {
    var keys, values := Fill(2 * min + 1, 0), Fill(2 * min + 1, NULL);
    for i := 0 to min
      invariant |keys| == |values| == 2 * min + 1
      invariant forall l :: 0 <= l < |keys| ==> keys[l] == if l < i then c.keys[l + min + 1] else 0
      invariant forall l :: 0 <= l < |keys| ==> values[l] == if l < i then c.values[l + min + 1] else NULL
    {
      keys, values := keys[i := c.keys[i + min + 1]], values[i := c.values[i + min + 1]];
    }
    assert keys == c.keys[min + 1..] + Fill(min + 1, 0);
    assert values == c.values[min + 1..] + Fill(min + 1, NULL);
    r := Node(c.leaf, min, keys, values, Fill(2 * min + 2, NIL), p);
  }

  class BTree {
    const min: nat
    var mem: map<int, Node>
    var root: int
    var height: int
    var numNodes: int
    var next: int
    ghost var info: map<int, Info>
    ghost var contents: map<int, int>

    ghost function T(): Tree
      reads this
    {
      Tree(mem, info, root, height, min)
    }

    /** A tree with a root: well formed, and holding exactly `contents`. */
    ghost predicate Sound()
      reads this
    {
      next >= 0 && (forall n :: n in mem ==> n < next) && Inv(T()) && Represents(T(), contents)
    }

    ghost predicate Valid()
      reads this
    {
      && numNodes == |contents| && next >= 0
      && (root == NIL ==> mem == map[] && contents == map[] && height == 0)
      && (root != NIL ==> Sound())
    }

    /** btree_init. */
    constructor (min: nat)
      ensures Valid() && contents == map[] && this.min == min
    {
      this.min := min;
      mem, info, contents := map[], map[], map[];
      root, height, numNodes, next := NIL, 0, 0, 0;
    }

    /** btree_search: the value of the key, or NULL exactly when it is absent. */
    method Search(key: int) returns (v: int)
      requires Valid() && 0 <= key < LIMIT
      ensures v == NULL <==> key !in contents
      ensures v != NULL ==> contents[key] == v
    {
      if root == NIL { return NULL; }
      var node := root;
      AtRoot(T(), key);
      // A child of an inner node is never NULL, so only the returns end the loop.
      while true
        invariant node in mem && Spans(T(), node, key) && ClearAbove(T(), info[node].level, key)
        decreases info[node].level
      {
        assert NodeOk(T(), node);
        var n := mem[node];
        var i := FindIndex(n, key);
        IndexMeans(n, info[node], 2 * min + 1, key, i);
        if i < n.num && key == n.keys[i] {
          assert NodeHolds(n, key, n.values[i]);
          assert Holds(T(), key, n.values[i]);
          return n.values[i];
        }
        NotOnLevel(T(), node, key);
        if n.leaf {
          Absent(T(), key, contents);
          return NULL;
        }
        ChildSpans(T(), node, i, key);
        node := n.children[i];
      }
    }

    /** btree_split_child of the full child number `i` of `p`, in the tree `t`. */
    method SplitChild(p: int, i: nat, ghost t: Tree)
      requires t.mem == mem && t.min == min && Ready(t, p, i, next)
      modifies this`mem, this`next
      ensures mem == Split(t, p, i, old(next)).mem && next == old(next) + 1
    {
      var d, c := next, mem[p].children[i];
      next := next + 1;
      var child := mem[c];
      var node := CopyHalf(child, p, min);
      if child.leaf {
        LeafMovesNone(t, c, d, min + 1);
      } else {
        var children := MoveChildren(c, d, t);
        node := node.(children := children);
      }
      assert node == RightHalf(child, p, min);
      hide Split, RightHalf, Widened, Ready, Reparented, Inv, NodeOk;
      Assembled(mem, t, p, i, d, c);
      var parent := Widen(mem[p], i, child.keys[min], child.values[min], d);
      mem := mem[d := node];
      mem := mem[c := child.(num := min)];
      mem := mem[p := parent];
    }

    /** The loop over the children of the split node. */
    method MoveChildren(c: int, d: int, ghost t: Tree) returns (children: seq<int>)
      requires Inv(t) && t.mem == mem && t.min == min && c in mem && !mem[c].leaf
      requires Slots(mem[c], 2 * min + 1) && mem[c].num == 2 * min + 1
      modifies this`mem
      ensures children == t.mem[c].children[min + 1..] + Fill(min + 1, NIL)
      ensures Reparented(mem, t, c, d, min + 1)
    {
      var child := mem[c];
      children := Fill(2 * min + 2, NIL);
      NoneMoved(t, c, d);
      for j := 0 to min + 1
        invariant Reparented(mem, t, c, d, j) && |children| == 2 * min + 2
        invariant forall l :: 0 <= l < j ==> children[l] == child.children[l + min + 1]
        invariant forall l :: j <= l < |children| ==> children[l] == NIL
      {
        children := children[j := child.children[j + min + 1]];
        MoveOne(mem, t, c, d, j);
        if children[j] != NIL {
          mem := mem[children[j] := mem[children[j]].(parent := d)];
        }
      }
    }

    /** btree_insert_non_full: the pair enters a leaf below `n`; full nodes on the way are
        split first. */
    method InsertNonFull(n: int, key: int, value: int)
      requires Sound() && n in mem && RoomFor(T(), n) && Spans(T(), n, key)
      requires key !in contents && value != NULL
      modifies this
      ensures Sound() && contents == old(contents)[key := value]
      ensures root == old(root) && height == old(height) && numNodes == old(numNodes)
      decreases info[n].level
    {
      assert NodeOk(T(), n);
      NotHeld(T(), contents, n, key);
      if mem[n].leaf {
        PutInLeaf(n, key, value);
      } else {
        var i := FindChild(mem[n], key);
        SlotMeans(mem[n], info[n], 2 * min + 1, key, i);
        ChildSpans(T(), n, i, key);
        var c := mem[n].children[i];
        assert NodeOk(T(), c);
        if mem[c].num == 2 * min + 1 {
          i := SplitFor(n, i, key);
          ChildSpans(T(), n, i, key);
          c := mem[n].children[i];
        }
        InsertNonFull(c, key, value);
      }
    }

    method PutInLeaf(n: int, key: int, value: int)
      requires Sound() && n in mem && mem[n].leaf && mem[n].num < 2 * min + 1 && Spans(T(), n, key)
      requires key !in contents && value != NULL && !HasKey(mem[n], key)
      modifies this`mem, this`contents
      ensures Sound() && contents == old(contents)[key := value]
    {
      assert NodeOk(T(), n);
      var node, i := InsertInLeaf(mem[n], key, value);
      SlotMeans(mem[n], info[n], 2 * min + 1, key, i);
      InsertedOk(mem[n], info[n], 2 * min + 1, i, key, value);
      LeafKeeps(T(), n, node);
      forall k, v ensures NodeHolds(node, k, v) <==> NodeHolds(mem[n], k, v) || (k, v) == (key, value) {
        InsertedHolds(mem[n], i, key, value, k, v);
      }
      LeafInserts(T(), n, node, key, value, contents);
      mem := mem[n := node];
      contents := contents[key := value];
    }

    /** Splits the full child `i` of `n` and chooses the half that the key belongs to. */
    method SplitFor(n: int, i: nat, key: int) returns (i': nat)
      requires Sound() && Ready(T(), n, i, next) && key !in contents
      requires Below(mem[n], info[n], i) < key < Above(mem[n], info[n], i)
      modifies this`mem, this`info, this`next
      ensures Sound() && n in mem && info[n] == old(info[n]) && !mem[n].leaf
      ensures i' <= mem[n].num <= |mem[n].keys| < |mem[n].children|
      ensures Below(mem[n], info[n], i') < key < Above(mem[n], info[n], i')
      ensures mem[n].children[i'] in mem && mem[mem[n].children[i']].num < 2 * min + 1
    {
      ghost var t, d := T(), next;
      SplitChild(n, i, t);
      info := Split(t, n, i, d).info;
      SplitSound(t, n, i, d, T(), contents);
      ChosenHalf(t, n, i, d, T(), contents, key);
      i' := i;
      if key > mem[n].keys[i] {
        i' := i + 1;
      }
    }

    /** btree_insert: refuses a key that is present; otherwise the pair is added and nothing
        else changes. */
    method Insert(key: int, value: int) returns (code: int)
      requires Valid() && 0 <= key < LIMIT && value != NULL
      modifies this
      ensures Valid() && code == if key in old(contents) then -1 else 0
      ensures contents == if key in old(contents) then old(contents) else old(contents)[key := value]
      ensures code == -1 ==> mem == old(mem) && root == old(root) && height == old(height)
      ensures code == 0 ==> height <= old(height) + 1
    {
      var found := Search(key);
      if found != NULL { return -1; }
      if root == NIL {
        FirstPair(key, value);
        return 0;
      }
      assert NodeOk(T(), root);
      if mem[root].num == 2 * min + 1 {
        GrowRoot();
      }
      AtRoot(T(), key);
      InsertNonFull(root, key, value);
      numNodes := numNodes + 1;
      assert |contents| == |old(contents)| + 1;
      code := 0;
    }

    /** The first pair of an empty tree. */
    method FirstPair(key: int, value: int)
      requires Valid() && root == NIL && 0 <= key < LIMIT && value != NULL
      modifies this
      ensures Valid() && contents == map[key := value] && height == 1
    {
      root := next;
      next := next + 1;
      var node := EmptyNode(true, 2 * min + 1);
      node := node.(keys := node.keys[0 := key], values := node.values[0 := value], num := 1);
      mem := map[root := node];
      numNodes, height := 1, 1;
      info, contents := map[root := Info(1, -1, LIMIT, 0)], map[key := value];
      assert NodeOk(T(), root);
      assert node.keys[0] == key && node.values[0] == value;
      assert NodeHolds(mem[root], key, value);
      assert forall k, v :: Holds(T(), k, v) ==> NodeHolds(node, k, v);
    }

    /** The root is full: a new root takes it as its only child and splits it. */
    method GrowRoot()
      requires Sound() && root in mem && mem[root].num == 2 * min + 1
      modifies this`mem, this`info, this`root, this`height, this`next
      ensures Sound() && height == old(height) + 1 && RoomFor(T(), root)
    {
      ghost var t, e := T(), next + 1;
      var d := next;
      next := next + 1;
      NewRootReady(t, d, e, contents);
      mem := mem[root := mem[root].(parent := d)][d := RootCell(min, root)];
      SplitChild(d, 0, Grown(t, d));
      root, height := d, height + 1;
      info := Split(Grown(t, d), d, 0, e).info;
      SplitSound(Grown(t, d), d, 0, e, T(), contents);
      NewRootRoom(t, d, e, T());
    }

    /** btree_delete: a key held by a leaf is removed; one held by an inner node, or by none,
        is refused and nothing changes. */
    method Delete(key: int) returns (code: int)
      requires Valid() && 0 <= key < LIMIT
      modifies this`mem, this`contents, this`numNodes
      ensures Valid() && (code == 0 || code == -1)
      ensures code == 0 <==> exists n :: n in old(mem) && old(mem)[n].leaf && HasKey(old(mem)[n], key)
      ensures code == 0 ==> key in old(contents) && contents == old(contents) - {key}
      ensures code == -1 ==> mem == old(mem) && contents == old(contents)
    {
      if root == NIL { return -1; }
      var node := root;
      AtRoot(T(), key);
      while true
        invariant Valid() && root != NIL && mem == old(mem) && contents == old(contents)
        invariant node in mem && Spans(T(), node, key) && ClearAbove(T(), info[node].level, key)
        decreases info[node].level
      {
        assert NodeOk(T(), node);
        var n := mem[node];
        var i := FindIndex(n, key);
        IndexMeans(n, info[node], 2 * min + 1, key, i);
        if i < n.num && n.keys[i] == key {
          if n.leaf {
            RemovePair(node, i);
            numNodes := numNodes - 1;
            return 0;
          }
          OnlyHere(T(), node, key);
          return -1;
        }
        NotOnLevel(T(), node, key);
        if n.leaf {
          NoLeaf(T(), key);
          return -1;
        }
        ChildSpans(T(), node, i, key);
        node := n.children[i];
      }
    }

    /** delete_leaf_node. */
    method RemovePair(n: int, i: nat)
      requires Sound() && n in mem && mem[n].leaf && i < mem[n].num <= |mem[n].keys|
      modifies this`mem, this`contents
      ensures Sound() && old(mem[n].keys[i]) in old(contents) && contents == old(contents) - {old(mem[n].keys[i])}
      ensures |contents| == |old(contents)| - 1
    {
      assert NodeOk(T(), n);
      ghost var key := mem[n].keys[i];
      assert HasKey(mem[n], key);
      var node := RemoveFromLeaf(mem[n], i);
      RemovedOk(mem[n], info[n], 2 * min + 1, i);
      LeafKeeps(T(), n, node);
      forall k, v ensures NodeHolds(node, k, v) <==> NodeHolds(mem[n], k, v) && k != key {
        RemovedHolds(mem[n], info[n], 2 * min + 1, i, k, v);
      }
      LeafRemoves(T(), n, node, key, contents);
      mem := mem[n := node];
      contents := contents - {key};
      assert old(contents).Keys == contents.Keys + {key};
      assert |contents| == |contents.Keys| && |old(contents)| == |old(contents).Keys|;
    }

    /** btree_traverse: every pair once, by strictly ascending key. */
    method Traverse() returns (out: seq<Pair>)
      requires Valid()
      ensures ListsMap(out, contents)
    {
      if root == NIL { return []; }
      assert NodeOk(T(), root);
      out := TraverseFrom(root);
      WholeList(T(), out, contents);
    }

    /** traverse_recursive. */
    method TraverseFrom(n: int) returns (out: seq<Pair>)
      requires Sound() && n in mem && n in info
      ensures Lists(T(), out, info[n].level, info[n].lo, info[n].hi)
      decreases info[n].level, 1
    {
      ghost var t := T();
      assert NodeOk(t, n);
      var node := mem[n];
      out := [];
      NothingBetween(t, info[n].level, info[n].lo);
      var i := 0;
      while i < node.num
        invariant 0 <= i <= node.num && Lists(t, out, info[n].level, info[n].lo, Below(node, info[n], i) + 1)
      {
        var sub := TraverseChild(n, i);
        WithChild(t, n, i, out, sub);
        WithPair(t, n, i, out + sub);
        out := out + sub + [Pair(node.keys[i], node.values[i])];
        i := i + 1;
      }
      var sub := TraverseChild(n, i);
      WithChild(t, n, i, out, sub);
      out := out + sub;
    }

    /** What the traversal lists for child `i`: nothing in a leaf. */
    method TraverseChild(n: int, i: nat) returns (out: seq<Pair>)
      requires Sound() && n in mem && n in info && i <= mem[n].num <= |mem[n].keys|
      ensures Lists(T(), out, info[n].level - 1, Below(mem[n], info[n], i), Above(mem[n], info[n], i))
      decreases info[n].level, 0
    {
      assert NodeOk(T(), n);
      if mem[n].leaf {
        NothingBelow(T(), Below(mem[n], info[n], i), Above(mem[n], info[n], i));
        out := [];
      } else {
        assert KidOk(T(), n, i);
        assert NodeOk(T(), mem[n].children[i]);
        out := TraverseFrom(mem[n].children[i]);
      }
    }
  }

  /** A key in no node is not in the tree. */
  lemma {:induction false} Absent(t: Tree, key: int, contents: map<int, int>)
    requires Inv(t) && Represents(t, contents) && ClearAbove(t, 0, key)
    ensures key !in contents
  {
    if key in contents {
      assert Holds(t, key, contents[key]);
      var m :| m in t.mem && NodeHolds(t.mem[m], key, contents[key]);
      assert NodeOk(t, m);
      assert HasKey(t.mem[m], key);
    }
  }

  /** A node that is not full, or a full inner node none of whose children is full: the new
      root of a tree of order 2 is of the second kind. */
  ghost predicate RoomFor(t: Tree, n: int)
    requires n in t.mem
  {
    || t.mem[n].num < 2 * t.min + 1
    || (!t.mem[n].leaf && forall i :: 0 <= i <= t.mem[n].num && i < |t.mem[n].children| ==>
          t.mem[n].children[i] in t.mem && t.mem[t.mem[n].children[i]].num < 2 * t.min + 1)
  }

  lemma {:induction false} NewRootReady(t: Tree, d: int, e: int, contents: map<int, int>)
    requires Inv(t) && Represents(t, contents) && t.mem[t.root].num == 2 * t.min + 1
    requires d != NIL && e != NIL && d != e && d !in t.mem && e !in t.mem
    ensures Ready(Grown(t, d), d, 0, e) && Represents(Grown(t, d), contents)
  {
    GrownSound(t, d, contents);
    assert NodeOk(t, t.root);
  }

  lemma {:induction false} NewRootRoom(t: Tree, d: int, e: int, t': Tree)
    requires t.root in t.mem && Ready(Grown(t, d), d, 0, e) && t' == Split(Grown(t, d), d, 0, e)
    ensures d in t'.mem && RoomFor(t', d)
  {
    var g := Grown(t, d);
    Partners(g, d, 0, e);
    At(g, d, 0, e, t', d);
    At(g, d, 0, e, t', t.root);
    At(g, d, 0, e, t', e);
  }

  lemma {:induction false} NotHeld(t: Tree, contents: map<int, int>, n: int, key: int)
    requires Inv(t) && Represents(t, contents) && n in t.mem && key !in contents
    ensures !HasKey(t.mem[n], key)
  {
    assert NodeOk(t, n);
    if i :| 0 <= i < t.mem[n].num && i < |t.mem[n].keys| && t.mem[n].keys[i] == key {
      assert NodeHolds(t.mem[n], key, t.mem[n].values[i]);
      assert Holds(t, key, t.mem[n].values[i]);
    }
  }

  /** The slot found for an absent key is the one it belongs to. */
  lemma {:induction false} SlotMeans(n: Node, f: Info, max: nat, key: int, i: nat)
    requires KeysOk(n, f, max) && f.lo < key < f.hi && i <= n.num && !HasKey(n, key)
    requires (i > 0 ==> n.keys[i - 1] <= key) && (i < n.num ==> key < n.keys[i])
    ensures Below(n, f, i) < key < Above(n, f, i)
  {
  }

  lemma {:induction false} SplitSound(t: Tree, p: int, i: int, d: int, t': Tree, contents: map<int, int>)
    requires Ready(t, p, i, d) && t' == Split(t, p, i, d) && Represents(t, contents)
    ensures Inv(t') && Represents(t', contents) && t'.mem.Keys == t.mem.Keys + {d}
  {
    SplitKeeps(t, p, i, d, t');
    forall k, v ensures Holds(t', k, v) <==> Holds(t, k, v) {
      SplitHolds(t, p, i, d, t', k, v);
    }
  }

  /** After the split, the new key of the parent separates the two halves. */
  lemma {:induction false} ChosenHalf(t: Tree, p: int, i: int, d: int, t': Tree, contents: map<int, int>, key: int)
    requires Ready(t, p, i, d) && t' == Split(t, p, i, d) && Inv(t') && Represents(t', contents) && key !in contents
    requires p in t.info && Below(t.mem[p], t.info[p], i) < key < Above(t.mem[p], t.info[p], i)
    ensures p in t'.mem && p in t'.info && t'.info[p] == t.info[p] && !t'.mem[p].leaf && Slots(t'.mem[p], 2 * t.min + 1)
    ensures i + 1 <= t'.mem[p].num
    ensures var i' := if key > t'.mem[p].keys[i] then i + 1 else i;
      && Below(t'.mem[p], t'.info[p], i') < key < Above(t'.mem[p], t'.info[p], i')
      && t'.mem[p].children[i'] in t'.mem && t'.mem[t'.mem[p].children[i']].num == t.min
  {
    var c, n := t.mem[p].children[i], t.mem[p];
    ParentKeys(t, p, i, d, t');
    NotHeld(t', contents, p, key);
    hide Inv, NodeOk, Split;
    Partners(t, p, i, d);
    At(t, p, i, d, t', p);
    At(t, p, i, d, t', c);
    At(t, p, i, d, t', d);
    WidenedBounds(n, t.info[p], i, i, t.mem[c].keys[t.min], t.mem[c].values[t.min], d);
    WidenedBounds(n, t.info[p], i, i + 1, t.mem[c].keys[t.min], t.mem[c].values[t.min], d);
    assert t'.mem[p].keys[i] == t.mem[c].keys[t.min] != key;
  }

  /** The node that holds a key is the only one. */
  lemma {:induction false} OnlyHere(t: Tree, n: int, key: int)
    requires Inv(t) && n in t.mem && HasKey(t.mem[n], key) && !t.mem[n].leaf
    ensures !exists m :: m in t.mem && t.mem[m].leaf && HasKey(t.mem[m], key)
  {
    if m :| m in t.mem && t.mem[m].leaf && HasKey(t.mem[m], key) {
      KeyOnce(t, m, n, key);
    }
  }

  lemma {:induction false} NoLeaf(t: Tree, key: int)
    requires Inv(t) && ClearAbove(t, 0, key)
    ensures !exists m :: m in t.mem && t.mem[m].leaf && HasKey(t.mem[m], key)
  {
    forall m | m in t.mem ensures !HasKey(t.mem[m], key) {
      assert NodeOk(t, m);
    }
  }

  lemma {:induction false} GrownSound(t: Tree, d: int, contents: map<int, int>)
    requires Inv(t) && Represents(t, contents) && d != NIL && d !in t.mem
    ensures Inv(Grown(t, d)) && Represents(Grown(t, d), contents)
  {
    GrownKeeps(t, d);
    forall k, v ensures Holds(Grown(t, d), k, v) <==> Holds(t, k, v) {
      GrownHolds(t, d, k, v);
    }
  }
}
