/** In-order listings of a B-tree: what a traversal lists, and how insertion and deletion
    change the list. */
module BTreeListing {
  import opened BTreeModel

  datatype Pair = Pair(key: int, value: int)

  predicate Ascending(s: seq<Pair>) {
    forall i, j :: 0 <= i < j < |s| ==> s[i].key < s[j].key
  }

  // ---------------------------------------------------------------- lists of maps

  /** `s` lists the pairs of a map by ascending key. */
  ghost predicate ListsMap(s: seq<Pair>, contents: map<int, int>) {
    Ascending(s) && forall x :: x in s <==> x.key in contents && contents[x.key] == x.value
  }

  function SortedInsert(s: seq<Pair>, k: int, v: int): seq<Pair> {
    if s == [] || k < s[0].key then [Pair(k, v)] + s else [s[0]] + SortedInsert(s[1..], k, v)
  }

  function Without(s: seq<Pair>, k: int): seq<Pair> {
    if s == [] then [] else if s[0].key == k then s[1..] else [s[0]] + Without(s[1..], k)
  }

  lemma {:induction false} Tail(s: seq<Pair>)
    requires Ascending(s) && s != []
    ensures Ascending(s[1..]) && forall x :: x in s[1..] ==> s[0].key < x.key
    ensures forall x :: x in s <==> x == s[0] || x in s[1..]
  {
    assert s == [s[0]] + s[1..];
  }

  /** Ascending lists with the same pairs are the same list. */
  lemma {:induction false} AscendingUnique(a: seq<Pair>, b: seq<Pair>)
    requires Ascending(a) && Ascending(b) && forall x :: x in a <==> x in b
    ensures a == b
  {
    assert (a != [] ==> a[0] in a) && (b != [] ==> b[0] in b);
    if a != [] && b != [] {
      Tail(a);
      Tail(b);
      assert a[0] in b && b[0] in a;
      assert a[0] == b[0];
      AscendingUnique(a[1..], b[1..]);
    }
  }

  lemma {:induction false} SortedInsertIn(s: seq<Pair>, k: int, v: int, x: Pair)
    ensures x in SortedInsert(s, k, v) <==> x in s || x == Pair(k, v)
  {
    if s != [] {
      assert s == [s[0]] + s[1..];
      SortedInsertIn(s[1..], k, v, x);
    }
  }

  lemma {:induction false} SortedInsertAscending(s: seq<Pair>, k: int, v: int)
    requires Ascending(s) && forall x :: x in s ==> x.key != k
    ensures Ascending(SortedInsert(s, k, v))
  {
    if s != [] && s[0].key < k {
      Tail(s);
      SortedInsertAscending(s[1..], k, v);
      var r := SortedInsert(s[1..], k, v);
      forall i | 0 <= i < |r| ensures s[0].key < r[i].key {
        SortedInsertIn(s[1..], k, v, r[i]);
      }
    }
  }

  lemma {:induction false} WithoutIs(s: seq<Pair>, k: int)
    requires Ascending(s)
    ensures Ascending(Without(s, k)) && forall x :: x in Without(s, k) <==> x in s && x.key != k
  {
    if s != [] {
      Tail(s);
      WithoutIs(s[1..], k);
      if s[0].key != k {
        var r := Without(s[1..], k);
        assert forall i :: 0 <= i < |r| ==> r[i] in s[1..];
        assert forall x :: x in [s[0]] + r <==> x == s[0] || x in r;
      }
    }
  }

  /** After an insertion of an absent key the list is the sorted insertion of the pair. */
  lemma {:induction false} InsertionListed(before: seq<Pair>, after: seq<Pair>, contents: map<int, int>, k: int, v: int)
    requires ListsMap(before, contents) && k !in contents && ListsMap(after, contents[k := v])
    ensures after == SortedInsert(before, k, v)
  {
    SortedInsertAscending(before, k, v);
    forall x ensures x in after <==> x in SortedInsert(before, k, v) {
      SortedInsertIn(before, k, v, x);
    }
    AscendingUnique(after, SortedInsert(before, k, v));
  }

  /** After a deletion the list has lost exactly the pair of the key. */
  lemma {:induction false} DeletionListed(before: seq<Pair>, after: seq<Pair>, contents: map<int, int>, k: int)
    requires ListsMap(before, contents) && ListsMap(after, contents - {k})
    ensures after == Without(before, k)
  {
    WithoutIs(before, k);
    AscendingUnique(after, Without(before, k));
  }

  // ---------------------------------------------------------------- lists of subtrees

  /** Some node of at most the given level holds the pair. */
  ghost predicate Low(t: Tree, level: int, x: Pair) {
    exists m :: m in t.mem && m in t.info && t.info[m].level <= level && NodeHolds(t.mem[m], x.key, x.value)
  }

  /** `s` lists, in order, the pairs up to a level with keys strictly between `a` and `b`. */
  ghost predicate Lists(t: Tree, s: seq<Pair>, level: int, a: int, b: int) {
    Ascending(s) && forall x :: x in s <==> a < x.key < b && Low(t, level, x)
  }

  lemma {:induction false} NothingBelow(t: Tree, a: int, b: int)
    requires Inv(t)
    ensures Lists(t, [], 0, a, b)
  {
    forall x ensures !Low(t, 0, x) {
      forall m | m in t.mem ensures t.info[m].level > 0 {
        assert NodeOk(t, m);
      }
    }
  }

  lemma {:induction false} NothingBetween(t: Tree, level: int, a: int)
    ensures Lists(t, [], level, a, a + 1)
  {
  }

  /** Strictly between two neighbouring keys of a node, only lower nodes have pairs. */
  lemma {:induction false} OnlyLower(t: Tree, n: int, i: int, x: Pair)
    requires Inv(t) && n in t.mem && 0 <= i <= t.mem[n].num <= |t.mem[n].keys|
    requires n in t.info && Below(t.mem[n], t.info[n], i) < x.key < Above(t.mem[n], t.info[n], i)
    ensures Low(t, t.info[n].level, x) <==> Low(t, t.info[n].level - 1, x)
  {
    assert NodeOk(t, n);
    if m :| m in t.mem && m in t.info && t.info[m].level == t.info[n].level && NodeHolds(t.mem[m], x.key, x.value) {
      assert NodeOk(t, m) && HasKey(t.mem[m], x.key);
      SpansOnce(t, m, n, x.key);
      NoneBetween(t.mem[n], t.info[n], 2 * t.min + 1, i, x.key);
    }
  }

  lemma {:induction false} Joined(s: seq<Pair>, r: seq<Pair>, b: int)
    requires Ascending(s) && Ascending(r)
    requires (forall x :: x in s ==> x.key < b) && (forall x :: x in r ==> b <= x.key)
    ensures Ascending(s + r) && forall x :: x in s + r <==> x in s || x in r
  {
    forall i, j | 0 <= i < j < |s + r| ensures (s + r)[i].key < (s + r)[j].key {
      if i < |s| <= j {
        assert s[i] in s && r[j - |s|] in r;
      }
    }
  }

  /** The list of child `i` continues the list of what comes before it. */
  lemma {:induction false} WithChild(t: Tree, n: int, i: int, s: seq<Pair>, r: seq<Pair>)
    requires Inv(t) && n in t.mem && n in t.info && 0 <= i <= t.mem[n].num <= |t.mem[n].keys|
    requires Lists(t, s, t.info[n].level, t.info[n].lo, Below(t.mem[n], t.info[n], i) + 1)
    requires Lists(t, r, t.info[n].level - 1, Below(t.mem[n], t.info[n], i), Above(t.mem[n], t.info[n], i))
    ensures Lists(t, s + r, t.info[n].level, t.info[n].lo, Above(t.mem[n], t.info[n], i))
  {
    assert NodeOk(t, n);
    var a, b, level := Below(t.mem[n], t.info[n], i), Above(t.mem[n], t.info[n], i), t.info[n].level;
    assert t.info[n].lo <= a < b;
    Joined(s, r, a + 1);
    forall x ensures x in s + r <==> t.info[n].lo < x.key < b && Low(t, level, x) {
      if a < x.key < b {
        OnlyLower(t, n, i, x);
      }
    }
  }

  /** Then comes the pair at slot `i`. */
  lemma {:induction false} WithPair(t: Tree, n: int, i: int, s: seq<Pair>)
    requires Inv(t) && n in t.mem && n in t.info && 0 <= i < t.mem[n].num <= |t.mem[n].keys| == |t.mem[n].values|
    requires Lists(t, s, t.info[n].level, t.info[n].lo, t.mem[n].keys[i])
    ensures Lists(t, s + [Pair(t.mem[n].keys[i], t.mem[n].values[i])], t.info[n].level, t.info[n].lo, t.mem[n].keys[i] + 1)
  {
    assert NodeOk(t, n);
    var key, value, level := t.mem[n].keys[i], t.mem[n].values[i], t.info[n].level;
    Joined(s, [Pair(key, value)], key);
    forall x: Pair | x.key == key ensures Low(t, level, x) <==> x.value == value {
      PairOf(t, n, i, x.value);
    }
  }

  lemma {:induction false} PairOf(t: Tree, n: int, i: int, v: int)
    requires Inv(t) && n in t.mem && n in t.info && 0 <= i < t.mem[n].num <= |t.mem[n].keys| == |t.mem[n].values|
    ensures Low(t, t.info[n].level, Pair(t.mem[n].keys[i], v)) <==> v == t.mem[n].values[i]
  {
    var key := t.mem[n].keys[i];
    assert NodeOk(t, n) && HasKey(t.mem[n], key);
    assert NodeHolds(t.mem[n], key, t.mem[n].values[i]);
    if m :| m in t.mem && NodeHolds(t.mem[m], key, v) {
      assert HasKey(t.mem[m], key);
      KeyOnce(t, m, n, key);
    }
  }

  /** The list of the root is the list of the tree. */
  lemma {:induction false} WholeList(t: Tree, s: seq<Pair>, contents: map<int, int>)
    requires Inv(t) && Represents(t, contents) && Lists(t, s, t.height, -1, LIMIT)
    ensures ListsMap(s, contents)
  {
    forall x: Pair ensures -1 < x.key < LIMIT && Low(t, t.height, x) <==> Holds(t, x.key, x.value) {
      if m :| m in t.mem && NodeHolds(t.mem[m], x.key, x.value) {
        assert NodeOk(t, m);
        InRange(t, m);
      }
    }
  }

  /** Every interval lies in the range of keys, and every level in the height. */
  lemma {:induction false} InRange(t: Tree, m: int)
    requires Inv(t) && m in t.mem
    ensures m in t.info && -1 <= t.info[m].lo && t.info[m].hi <= LIMIT && t.info[m].level <= t.height
    decreases t.height - t.info[m].level
  {
    assert NodeOk(t, m);
    if m != t.root {
      var p := t.mem[m].parent;
      assert NodeOk(t, p);
      assert KidOk(t, p, t.info[m].idx);
      InRange(t, p);
    }
  }
}
