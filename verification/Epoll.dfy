/** epoll.c: one epoll instance on the red-black tree, in place.

    An item is identified by its address, which is also its tree node.  Items that have
    been freed are not in `items`. */
module Epoll {
  import opened RbShape
  import opened RbMemory
  import opened RbTrees
  import opened EpollModel

  const EPOLL_CTL_ADD := 1
  const EPOLL_CTL_DEL := 2
  const EPOLL_CTL_MOD := 3

  // ---------------------------------------------------------------- descents

  /** Every node before the hole has a smaller descriptor, every node after it a larger. */
  ghost predicate Brackets(items: Items, k: Ctx, fd: int) {
    && (forall m :: m in Before(k) ==> m in items && items[m].fd < fd)
    && (forall m :: m in After(k) ==> m in items && fd < items[m].fd)
  }

  lemma {:induction false} DescendLeft(items: Items, k: Ctx, t: Tree, fd: int)
    requires t.Node? && Distinct(Plug(k, t)) && Brackets(items, k, fd)
    requires Listed(items, Inorder(Plug(k, t))) && Ascending(items, Inorder(Plug(k, t)))
    requires t.id in items && fd < items[t.id].fd
    ensures Brackets(items, InLeft(k, t.id, t.color, t.right), fd)
  {
    FocusedOrder(k, t);
    var a, b, s := Before(k) + Inorder(t.left), Inorder(t.right) + After(k), Inorder(Plug(k, t));
    assert s[|a|] == t.id;
    forall j | 0 <= j < |b| ensures b[j] in items && fd < items[b[j]].fd {
      assert s[|a| + 1 + j] == b[j];
    }
    Assoc([t.id], Inorder(t.right), After(k));
    assert After(InLeft(k, t.id, t.color, t.right)) == [t.id] + b;
  }

  lemma {:induction false} DescendRight(items: Items, k: Ctx, t: Tree, fd: int)
    requires t.Node? && Distinct(Plug(k, t)) && Brackets(items, k, fd)
    requires Listed(items, Inorder(Plug(k, t))) && Ascending(items, Inorder(Plug(k, t)))
    requires t.id in items && items[t.id].fd < fd
    ensures Brackets(items, InRight(k, t.left, t.id, t.color), fd)
  {
    FocusedOrder(k, t);
    var a, s := Before(k) + Inorder(t.left), Inorder(Plug(k, t));
    assert s[|a|] == t.id;
    forall j | 0 <= j < |a| ensures a[j] in items && items[a[j]].fd < fd {
      assert s[j] == a[j];
    }
  }

  lemma {:induction false} NodeListed(items: Items, k: Ctx, t: Tree)
    requires t.Node? && Distinct(Plug(k, t)) && Listed(items, Inorder(Plug(k, t)))
    ensures t.id in items && t.id in Ids(Plug(k, t))
  {
    FocusedOrder(k, t);
    assert Inorder(Plug(k, t))[|Before(k) + Inorder(t.left)|] == t.id;
    InorderIds(Plug(k, t));
  }

  /** A descent that ends in a hole proves the descriptor absent. */
  lemma {:induction false} AbsentAtHole(items: Items, k: Ctx, fd: int)
    requires Brackets(items, k, fd) && Listed(items, Inorder(Plug(k, Leaf)))
    ensures fd !in Interests(items, Inorder(Plug(k, Leaf)))
  {
    PlugInorder(k, Leaf);
    var q := Before(k) + After(k);
    assert Inorder(Plug(k, Leaf)) == q;
    InterestsKeys(items, q);
    forall m | m in q ensures items[m].fd != fd {
      assert m in Before(k) || m in After(k);
    }
    forall i | 0 <= i < |q| ensures Fds(items, q)[i] != fd {
      assert q[i] in q;
    }
  }

  /** A node inserted into the hole a descent ended in keeps the order. */
  lemma {:induction false} AscendingAtHole(items: Items, k: Ctx, n: int)
    requires n in items && Brackets(items, k, items[n].fd)
    requires Listed(items, Inorder(Plug(k, Leaf))) && Ascending(items, Inorder(Plug(k, Leaf)))
    ensures Listed(items, Before(k) + [n] + After(k)) && Ascending(items, Before(k) + [n] + After(k))
    ensures Inorder(Plug(k, Leaf)) == Before(k) + After(k)
  {
    PlugInorder(k, Leaf);
    var a, b := Before(k), After(k);
    var q, r := a + b, a + [n] + b;
    assert Inorder(Plug(k, Leaf)) == q;
    AscendingInsert(items, a, n, b);
  }

  lemma {:induction false} AscendingInsert(items: Items, a: seq<int>, n: int, b: seq<int>)
    requires n in items && Listed(items, a + b) && Ascending(items, a + b)
    requires forall m :: m in a ==> m in items && items[m].fd < items[n].fd
    requires forall m :: m in b ==> m in items && items[n].fd < items[m].fd
    ensures Listed(items, a + [n] + b) && Ascending(items, a + [n] + b)
  {
    var q, r := a + b, a + [n] + b;
    assert forall i :: 0 <= i < |a| ==> r[i] == q[i] && r[i] in a;
    assert forall i {:trigger r[i]} :: |a| < i < |r| ==> r[i] == q[i - 1] && r[i] in b;
    forall i, j | 0 <= i < j < |r| ensures items[r[i]].fd < items[r[j]].fd {
      if i != |a| && j != |a| {
        assert r[i] == q[if i < |a| then i else i - 1] && r[j] == q[if j < |a| then j else j - 1];
      }
    }
  }

  /** The first `j` nodes of the list have been polled; nothing but returned events changed. */
  ghost predicate Polled(items: Items, items': Items, q: seq<int>, j: nat, poll: int -> Bits) {
    && j <= |q| && items'.Keys == items.Keys
    && (forall n {:trigger items'[n]} :: n in items ==>
          items'[n].fd == items[n].fd && items'[n].events == items[n].events && items'[n].data == items[n].data)
    && (forall i :: 0 <= i < j ==>
          q[i] in items && items'[q[i]].revents == Translated(poll(items[q[i]].fd)) & items[q[i]].events)
  }

  lemma {:induction false} PolledStep(items: Items, items': Items, q: seq<int>, j: nat, poll: int -> Bits)
    requires Polled(items, items', q, j, poll) && j < |q| && NoDup(q) && q[j] in items
    ensures var n := q[j];
      Polled(items, items'[n := items'[n].(revents := Translated(poll(items'[n].fd)) & items'[n].events)], q, j + 1, poll)
  {
  }

  /** Every listed item holds the events raised and asked for. */
  ghost predicate HasPolled(items: Items, q: seq<int>, poll: int -> Bits) {
    forall i :: 0 <= i < |q| ==>
      q[i] in items && items[q[i]].revents == Translated(poll(items[q[i]].fd)) & items[q[i]].events
  }

  /** What one round of the collecting loop adds. */
  lemma {:induction false} CollectStep(items: Items, q: seq<int>, j: nat, poll: int -> Bits)
    requires Listed(items, q) && Ascending(items, q) && HasPolled(items, q, poll) && j < |q|
    requires AllBound(Interests(items, q), Fds(items, q))
    ensures var m, fds, it := Interests(items, q), Fds(items, q), items[q[j]];
      Ready(m, fds[..j + 1], poll) == Ready(m, fds[..j], poll) + Reported(it)
  {
    var m, fds := Interests(items, q), Fds(items, q);
    InterestsAt(items, q, j);
    assert fds[..j + 1] == fds[..j] + [fds[j]];
    ReadySnoc(m, fds[..j], fds[j], poll);
  }

  lemma {:induction false} PolledDone(items: Items, items': Items, q: seq<int>, poll: int -> Bits)
    requires Polled(items, items', q, |q|, poll) && Listed(items, q) && Ascending(items, q)
    ensures Listed(items', q) && Ascending(items', q)
    ensures Interests(items', q) == Interests(items, q) && Fds(items', q) == Fds(items, q)
    ensures HasPolled(items', q, poll)
  {
    forall i | 0 <= i < |q|
      ensures items'[q[i]].fd == items[q[i]].fd && InterestOf(items'[q[i]]) == InterestOf(items[q[i]])
    {
      var n := q[i];
      assert items'[n].fd == items[n].fd;
    }
    InterestsFrame(items, items', q);
  }

  /** The translation of descriptor flags in epoll_poll_fds. */
  method ToEvents(flags: Bits) returns (revents: Bits)
    ensures revents == Translated(flags) && Raises(flags, revents)
  {
    revents := 0;
    if flags & FD_READABLE != 0 { revents := revents | EPOLLIN; }
    if flags & FD_WRITABLE != 0 { revents := revents | EPOLLOUT; }
    if flags & FD_ERROR != 0 { revents := revents | EPOLLERR; }
    if flags & FD_HANGUP != 0 { revents := revents | EPOLLHUP; }
    TranslatedBits(flags);
  }

  predicate AllBound(m: map<int, Interest>, fds: seq<int>) {
    forall i :: 0 <= i < |fds| ==> fds[i] in m
  }

  lemma {:induction false} ListedBound(items: Items, q: seq<int>)
    requires Listed(items, q) && Ascending(items, q)
    ensures AllBound(Interests(items, q), Fds(items, q))
  {
    forall i | 0 <= i < |q| ensures Fds(items, q)[i] in Interests(items, q) { InterestsAt(items, q, i); }
  }

  /** The successor of the first node of a suffix is the first node of the next suffix. */
  lemma {:induction false} CloseStep(q: seq<int>, j: nat)
    requires NoDup(q) && j < |q|
    ensures Follower(q[j..], q[j]) == if j + 1 < |q| then q[j + 1] else NIL
    ensures Remove(q[j..], q[j]) == q[j + 1..] && q[..j] + [q[j]] == q[..j + 1]
  {
    assert q[j..][0] == q[j] && q[j..][1..] == q[j + 1..];
  }

  /** The events of the first `j` listed items. */
  function Gathered(items: Items, q: seq<int>, j: nat): seq<Event>
    requires Listed(items, q) && j <= |q|
  {
    if j == 0 then [] else Gathered(items, q, j - 1) + Reported(items[q[j - 1]])
  }

  lemma {:induction false} GatheredIsReady(items: Items, q: seq<int>, j: nat, poll: int -> Bits)
    requires Listed(items, q) && Ascending(items, q) && HasPolled(items, q, poll) && j <= |q|
    requires AllBound(Interests(items, q), Fds(items, q))
    ensures Gathered(items, q, j) == Ready(Interests(items, q), Fds(items, q)[..j], poll)
  {
    hide Interests, HasPolled, Ascending, Reported, Report;
    if j == 0 {
      assert Fds(items, q)[..j] == [];
    } else {
      GatheredIsReady(items, q, j - 1, poll);
      CollectStep(items, q, j - 1, poll);
    }
  }

  lemma {:induction false} CollectDone(items: Items, q: seq<int>, j: nat, poll: int -> Bits, max: nat)
    requires Listed(items, q) && Ascending(items, q) && HasPolled(items, q, poll) && j <= |q|
    requires |Gathered(items, q, j)| <= max && (j == |q| || |Gathered(items, q, j)| == max)
    ensures AllBound(Interests(items, q), Fds(items, q))
    ensures var all, some := Ready(Interests(items, q), Fds(items, q), poll), Gathered(items, q, j);
      some <= all && |some| == if |all| <= max then |all| else max
  {
    hide Interests, HasPolled, Ascending, Report, Gathered;
    var m, fds := Interests(items, q), Fds(items, q);
    ListedBound(items, q);
    GatheredIsReady(items, q, j, poll);
    ReadyPrefix(m, fds, j, poll);
    if j == |fds| { assert fds[..j] == fds; }
  }

  lemma {:induction false} ReportedFrom(m: map<int, Interest>, fds: seq<int>, poll: int -> Bits, from: seq<int>, out: seq<Event>)
    requires AllBound(m, fds) && AllMatch(m, fds, poll, from, Ready(m, fds, poll)) && out <= Ready(m, fds, poll)
    ensures |from| == |Ready(m, fds, poll)| && forall i :: 0 <= i < |out| ==> 0 <= from[i] < |fds|
    ensures forall i :: 0 <= i < |out| ==> Matches(out[i], poll(fds[from[i]]), m[fds[from[i]]])
  {
  }

  /** The event that a polled item contributes, if any. */
  function Reported(it: Item): seq<Event> {
    if it.revents != 0 then [Event(it.revents, it.data)] else []
  }

  /** The body of the collecting loop: writes the item's event behind the `n` already there. */
  method Put(buf: array<Event>, n: nat, it: Item) returns (n': nat)
    requires n < buf.Length
    modifies buf
    ensures n' == n + |Reported(it)| <= n + 1 && buf[..n'] == old(buf[..n]) + Reported(it)
    ensures forall i :: n' <= i < buf.Length ==> buf[i] == old(buf[i])
  {
    n' := n;
    if it.revents != 0 {
      buf[n] := Event(it.revents, it.data);
      n' := n + 1;
    }
  }

  class EpollInstance {
    const tree: RbTree
    var items: Items
    var numItems: int

    ghost function Order(): seq<int>
      reads tree
    {
      Inorder(tree.tree)
    }

    ghost predicate Valid()
      reads this, tree
    {
      && tree.Valid() && items.Keys == Ids(tree.tree)
      && Listed(items, Order()) && Ascending(items, Order())
      && numItems == |Order()|
    }

    /** The interest set: what is watched for which descriptor. */
    ghost function View(): map<int, Interest>
      requires Valid()
      reads this, tree
    {
      Interests(items, Order())
    }

    /** epoll_create, for one instance. */
    constructor ()
      ensures Valid() && fresh(tree) && View() == map[]
    {
      tree := new RbTree();
      items := map[];
      numItems := 0;
    }

    /** epoll_find_item: the node of the item for `fd`, in logarithmically many steps. */
    method FindItem(fd: int) returns (node: int, ghost steps: nat)
      requires tree.Valid() && Listed(items, Order()) && Ascending(items, Order())
      ensures node == NIL ==> fd !in Interests(items, Order())
      ensures node != NIL ==> node in Ids(tree.tree) && node in items && items[node].fd == fd
      ensures Pow2(steps) <= (|Order()| + 1) * (|Order()| + 1)
    {
      node := tree.root;
      steps := 0;
      ghost var k, t := Top, tree.tree;
      if t.Node? { CellOf(tree.mem, tree.root, k, t); }
      while node != NIL
        invariant tree.tree == Plug(k, t) && node == Root(t) && (node == NIL <==> t.Leaf?)
        invariant Brackets(items, k, fd) && steps == Depth(k)
        decreases t
      {
        steps := steps + 1;
        NodeListed(items, k, t);
        CellOf(tree.mem, tree.root, k, t);
        if fd < items[node].fd {
          DescendLeft(items, k, t, fd);
          node := tree.mem[node].left;
          k, t := InLeft(k, t.id, t.color, t.right), t.left;
        } else if fd > items[node].fd {
          DescendRight(items, k, t, fd);
          node := tree.mem[node].right;
          k, t := InRight(k, t.left, t.id, t.color), t.right;
        } else {
          StepsBound(k, t, steps);
          return;
        }
      }
      StepsBound(k, t, steps);
      AbsentAtHole(items, k, fd);
    }

    /** The descent of epoll_insert_item: the link to hang the item on, or a duplicate. */
    method FindLink(fd: int) returns (found: bool, parent: int, onLeft: bool, ghost k: Ctx, ghost steps: nat)
      requires tree.Valid() && Listed(items, Order()) && Ascending(items, Order())
      ensures found ==> exists m :: m in Ids(tree.tree) && m in items && items[m].fd == fd
      ensures !found ==> tree.tree == Plug(k, Leaf) && Brackets(items, k, fd)
      ensures !found ==> parent == Parent(k) && (!k.Top? ==> (onLeft <==> k.InLeft?))
      ensures (!found ==> steps == Depth(k)) && Pow2(steps) <= (|Order()| + 1) * (|Order()| + 1)
    {
      var link := tree.root;
      found, parent, onLeft, k, steps := false, NIL, false, Top, 0;
      ghost var t := tree.tree;
      if t.Node? { CellOf(tree.mem, tree.root, k, t); }
      while link != NIL
        invariant tree.tree == Plug(k, t) && link == Root(t) && (link == NIL <==> t.Leaf?)
        invariant parent == Parent(k) && (!k.Top? ==> (onLeft <==> k.InLeft?))
        invariant Brackets(items, k, fd) && !found && steps == Depth(k)
        decreases t
      {
        parent, steps := link, steps + 1;
        NodeListed(items, k, t);
        CellOf(tree.mem, tree.root, k, t);
        if fd < items[parent].fd {
          DescendLeft(items, k, t, fd);
          link, onLeft := tree.mem[parent].left, true;
          k, t := InLeft(k, t.id, t.color, t.right), t.left;
        } else if fd > items[parent].fd {
          DescendRight(items, k, t, fd);
          link, onLeft := tree.mem[parent].right, false;
          k, t := InRight(k, t.left, t.id, t.color), t.right;
        } else {
          found := true;
          StepsBound(k, t, steps);
          return;
        }
      }
      StepsBound(k, t, steps);
    }

    /** epoll_insert_item: 0 and one more node, or -1 for a descriptor already listed. */
    method InsertItem(n: int) returns (rc: int)
      requires tree.Valid() && Listed(items, Order()) && Ascending(items, Order())
      requires n in items && n !in Ids(tree.tree) && n != NIL
      modifies tree, this`numItems
      ensures tree.Valid() && Listed(items, Order()) && Ascending(items, Order())
      ensures rc == 0 || rc == -1
      ensures rc == -1 ==> items[n].fd in old(Interests(items, Order())) && Order() == old(Order()) && numItems == old(numItems)
      ensures rc == 0 ==>
        && items[n].fd !in old(Interests(items, Order())) && Ids(tree.tree) == old(Ids(tree.tree)) + {n}
        && numItems == old(numItems) + 1 && |Order()| == old(|Order()|) + 1
        && Interests(items, Order()) == old(Interests(items, Order()))[items[n].fd := InterestOf(items[n])]
    {
      var found, parent, onLeft;
      ghost var k, steps;
      found, parent, onLeft, k, steps := FindLink(items[n].fd);
      if found {
        Present(items, tree.tree, items[n].fd);
        return -1;
      }
      AscendingAtHole(items, k, n);
      InterestsInsert(items, Before(k), n, After(k));
      tree.Insert(n, parent, onLeft, k);
      InsertedIds(old(tree.tree), n, k, tree.tree);
      numItems := numItems + 1;
      rc := 0;
    }

    /** EPOLL_CTL_ADD; `address` is what kmalloc returned for the new item. */
    method Add(fd: int, events: Bits, data: nat, address: int) returns (rc: int)
      requires Valid() && address !in items
      modifies this, tree
      ensures Valid() && (rc == 0 || rc == -1)
      ensures rc == 0 <==> fd !in old(View()) && address != NIL
      ensures View() == if rc == 0 then old(View())[fd := Interest(events, data)] else old(View())
    {
      ghost var q := Order();
      var node, _ := FindItem(fd);
      if node != NIL {
        Present(items, tree.tree, fd);
        return -1;
      }
      if address == NIL { return -1; }
      items := items[address := Item(fd, events, data, 0)];
      InterestsFrame(old(items), items, q);
      rc := InsertItem(address);
      if rc < 0 {
        assert false;  // the descriptor was looked up before
      }
    }

    /** EPOLL_CTL_MOD. */
    method Modify(fd: int, events: Bits, data: nat) returns (rc: int)
      requires Valid()
      modifies this`items
      ensures Valid() && (rc == 0 || rc == -1)
      ensures rc == 0 <==> fd in old(View())
      ensures View() == if rc == 0 then old(View())[fd := Interest(events, data)] else old(View())
    {
      var node, _ := FindItem(fd);
      if node == NIL { return -1; }
      Present(items, tree.tree, fd);
      items := items[node := items[node].(events := events)];
      items := items[node := items[node].(data := data)];
      ModifiedInterests(old(items), items, tree.tree, node);
      rc := 0;
    }

    /** Erases an item's node and frees the item. */
    method Unlink(node: int)
      requires tree.Valid() && items.Keys == Ids(tree.tree) && node in Ids(tree.tree)
      modifies tree, this`items
      ensures tree.Valid() && Order() == Remove(old(Order()), node) && items == old(items) - {node}
      ensures items.Keys == Ids(tree.tree) && |Order()| == old(|Order()|) - 1
    {
      tree.Erase(node);
      RemovedIds(old(tree.tree), node, tree.tree);
      items := items - {node};
    }

    /** EPOLL_CTL_DEL; the item's node leaves the tree and its memory is freed. */
    method Delete(fd: int) returns (rc: int)
      requires Valid()
      modifies this, tree
      ensures Valid() && (rc == 0 || rc == -1)
      ensures rc == 0 <==> fd in old(View())
      ensures View() == if rc == 0 then old(View()) - {fd} else old(View())
    {
      var node, _ := FindItem(fd);
      if node == NIL { return -1; }
      Present(items, tree.tree, fd);
      RemovedInterests(items, tree.tree, node);
      Unlink(node);
      numItems := numItems - 1;
      InorderIds(tree.tree);
      FreedInterests(old(items), items, Order(), node);
      rc := 0;
    }

    /** epoll_ctl: the tree refines the finite map, and num_items is its size. */
    method Ctl(op: int, fd: int, events: Bits, data: nat, open: bool, address: int) returns (rc: int)
      requires Valid() && address !in items
      modifies this, tree
      ensures Valid() && numItems == |View()|
      ensures !open || op < 1 || op > 3 ==> rc == -1 && View() == old(View())
      ensures open && op == 1 ==>
        && rc == (if fd !in old(View()) && address != NIL then 0 else -1)
        && View() == if rc == 0 then old(View())[fd := Interest(events, data)] else old(View())
      ensures open && op == 2 ==>
        && rc == (if fd in old(View()) then 0 else -1) && fd !in View()
        && View() == if rc == 0 then old(View()) - {fd} else old(View())
      ensures open && op == 3 ==>
        && rc == (if fd in old(View()) then 0 else -1)
        && View() == if rc == 0 then old(View())[fd := Interest(events, data)] else old(View())
    {
      hide Valid, Interests;
      rc := -1;
      if open {
        if op == EPOLL_CTL_ADD {
          rc := Add(fd, events, data, address);
        } else if op == EPOLL_CTL_DEL {
          rc := Delete(fd);
        } else if op == EPOLL_CTL_MOD {
          rc := Modify(fd, events, data);
        }
      }
      ViewSize();
    }

    lemma {:induction false} ViewSize()
      requires Valid()
      ensures numItems == |View()|
    {
      InterestsSize(items, Order());
    }

    /** The loop of epoll_poll_fds, from rb_first along rb_next. */
    method PollLoop(poll: int -> Bits)
      requires tree.Linkage() && Listed(items, Order())
      modifies this`items
      ensures Polled(old(items), items, Order(), |Order()|, poll)
    {
      ghost var q := Order();
      ghost var j := 0;
      assert Polled(old(items), items, q, 0, poll);
      hide Polled;
      var node := tree.First();
      assert node == NIL <==> q == [];
      while node != NIL
        invariant 0 <= j <= |q| && node == (if j < |q| then q[j] else NIL) && (node == NIL <==> j == |q|)
        invariant Polled(old(items), items, q, j, poll)
        decreases |q| - j
      {
        node := PollRound(node, poll, old(items), j);
        j := j + 1;
      }
    }

    /** One round: the events of the item at `node`, then its successor. */
    method PollRound(node: int, poll: int -> Bits, ghost items0: Items, ghost j: nat) returns (next: int)
      requires tree.Linkage() && j < |Order()| && node == Order()[j] && Listed(items0, Order())
      requires Polled(items0, items, Order(), j, poll)
      modifies this`items
      ensures Polled(items0, items, Order(), j + 1, poll)
      ensures next == if j + 1 < |Order()| then Order()[j + 1] else NIL
      ensures next == NIL <==> j + 1 == |Order()|
    {
      WalkStep(tree.tree, j);
      DistinctNoDup(tree.tree);
      PolledStep(items0, items, Order(), j, poll);
      hide Translated;
      var revents := ToEvents(poll(items[node].fd));
      items := items[node := items[node].(revents := revents & items[node].events)];
      next := tree.Next(node);
    }

    /** epoll_poll_fds: every item's returned events are those raised and asked for. */
    method PollFds(poll: int -> Bits)
      requires Valid()
      modifies this`items
      ensures Valid() && View() == old(View())
      ensures Fds(items, Order()) == old(Fds(items, Order()))
      ensures HasPolled(items, Order(), poll)
    {
      hide Translated;
      PollLoop(poll);
      PolledDone(old(items), items, Order(), poll);
    }

    /** One round of the collecting loop: report the item, go on to its successor. */
    method CollectRound(node: int, buf: array<Event>, n: nat, ghost j: nat) returns (next: int, n': nat)
      requires tree.Linkage() && j < |Order()| && node == Order()[j] && node in items && n < buf.Length
      modifies buf
      ensures n' == n + |Reported(items[node])| <= n + 1
      ensures forall i :: n' <= i < buf.Length ==> buf[i] == old(buf[i])
      ensures buf[..n'] == old(buf[..n]) + Reported(items[node])
      ensures (j + 1 < |Order()| ==> next == Order()[j + 1]) && (next == NIL <==> j + 1 == |Order()|)
    {
      WalkStep(tree.tree, j);
      n' := Put(buf, n, items[node]);
      next := tree.Next(node);
    }

    /** The collecting loop of epoll_wait: the events of the first `j` items, as many as fit. */
    method Collect(max: nat, buf: array<Event>) returns (n: nat, ghost j: nat)
      requires tree.Linkage() && Listed(items, Order()) && max <= buf.Length
      modifies buf
      ensures n <= max && (forall i :: n <= i < buf.Length ==> buf[i] == old(buf[i]))
      ensures j <= |Order()| && (j == |Order()| || n == max) && buf[..n] == Gathered(items, Order(), j)
    {
      n, j := 0, 0;
      var node := tree.First();
      while node != NIL && n < max
        invariant 0 <= j <= |Order()| && (j < |Order()| ==> node == Order()[j]) && (node == NIL <==> j == |Order()|)
        invariant n <= max && buf[..n] == Gathered(items, Order(), j)
        invariant forall i :: n <= i < buf.Length ==> buf[i] == old(buf[i])
        decreases |Order()| - j
      {
        node, n := CollectRound(node, buf, n, j);
        j := j + 1;
      }
    }

    /** epoll_wait.  `fds` lists the watched descriptors in ascending order, and `from` the
        positions in it of those with an event to report. */
    method Wait(maxevents: int, poll: int -> Bits, buf: array<Event>)
      returns (rc: int, ghost fds: seq<int>, ghost from: seq<int>)
      requires Valid() && maxevents <= buf.Length
      modifies this`items, buf
      ensures Valid() && View() == old(View())
      ensures (forall i, j :: 0 <= i < j < |fds| ==> fds[i] < fds[j]) && (forall fd :: fd in fds <==> fd in View())
      ensures maxevents <= 0 ==> rc == -1 && buf[..] == old(buf[..])
      ensures maxevents > 0 ==> 0 <= rc <= maxevents && forall i :: rc <= i < buf.Length ==> buf[i] == old(buf[i])
      ensures maxevents > 0 ==>
        && AllBound(View(), fds) && Chosen(View(), fds, poll, from)
        && rc == (if |from| <= maxevents then |from| else maxevents)
        && forall i :: 0 <= i < rc ==> Matches(buf[i], poll(fds[from[i]]), View()[fds[from[i]]])
    {
      hide Interests, HasPolled, Ready, Gathered;
      fds, from := Fds(items, Order()), [];
      InterestsKeys(items, Order());
      if maxevents <= 0 {
        rc := -1;
      } else {
        PollFds(poll);
        ghost var j;
        rc, j := Collect(maxevents, buf);
        CollectDone(items, Order(), j, poll, maxevents);
        from := ReadyExact(View(), fds, poll);
        ReportedFrom(View(), fds, poll, from, buf[..rc]);
      }
    }

    /** epoll_close: every item is unlinked and freed exactly once, in order, and the tree
        ends empty although each successor is taken before its predecessor is erased. */
    method Close() returns (rc: int, freed: seq<int>)
      requires Valid()
      modifies this, tree
      ensures Valid() && rc == 0 && tree.tree == Leaf && items == map[] && View() == map[]
      ensures freed == old(Order()) && NoDup(freed) && (forall n :: n in freed <==> n in old(items))
    {
      ghost var q := Order();
      DistinctNoDup(tree.tree);
      InorderIds(tree.tree);
      freed := [];
      var node := tree.First();
      while node != NIL
        invariant tree.Valid() && |freed| <= |q| && freed == q[..|freed|] && Order() == q[|freed|..]
        invariant node == (if |freed| < |q| then q[|freed|] else NIL)
        invariant items.Keys == Ids(tree.tree)
        decreases |q| - |freed|
      {
        CloseStep(q, |freed|);
        InorderIds(tree.tree);
        var next := tree.Next(node);
        Unlink(node);
        freed := freed + [node];
        node := next;
      }
      assert Order() == [];
      InorderIds(tree.tree);
      assert tree.tree == Leaf;
      tree.root := NIL;
      numItems := 0;
      rc := 0;
    }
  }

  /** Splits the in-order sequence at a node. */
  lemma {:induction false} SplitAt(t: Tree, n: int) returns (a: seq<int>, b: seq<int>)
    requires Distinct(t) && n in Ids(t)
    ensures Inorder(t) == a + [n] + b && Remove(Inorder(t), n) == a + b && n !in a && n !in b
  {
    var k, s := Focus(t, n);
    FocusedOrder(k, s);
    a, b := Before(k) + Inorder(s.left), Inorder(s.right) + After(k);
    NoDupMiddle(a, n, b);
    RemoveMiddle(a, n, b);
  }

  lemma {:induction false} ModifiedAt(items: Items, items': Items, a: seq<int>, n: int, b: seq<int>)
    requires Listed(items, a + [n] + b) && Ascending(items, a + [n] + b) && n in items && n !in a && n !in b
    requires items'.Keys == items.Keys && items'[n].fd == items[n].fd
    requires forall m :: m in items && m != n ==> items'[m] == items[m]
    ensures Listed(items', a + [n] + b) && Ascending(items', a + [n] + b)
    ensures Interests(items', a + [n] + b) == Interests(items, a + [n] + b)[items[n].fd := InterestOf(items'[n])]
  {
    InterestsInsert(items, a, n, b);
    assert forall i :: 0 <= i < |a + [n] + b| ==> items'[(a + [n] + b)[i]].fd == items[(a + [n] + b)[i]].fd;
    InterestsInsert(items', a, n, b);
    forall i | 0 <= i < |a + b| ensures (a + b)[i] != n {
      assert (a + b)[i] in a || (a + b)[i] in b;
    }
    InterestsFrame(items, items', a + b);
  }

  lemma {:induction false} ModifiedInterests(items: Items, items': Items, t: Tree, n: int)
    requires Distinct(t) && n in Ids(t) && Listed(items, Inorder(t)) && Ascending(items, Inorder(t)) && n in items
    requires items'.Keys == items.Keys && items'[n].fd == items[n].fd
    requires forall m :: m in items && m != n ==> items'[m] == items[m]
    ensures Listed(items', Inorder(t)) && Ascending(items', Inorder(t))
    ensures Interests(items', Inorder(t)) == Interests(items, Inorder(t))[items[n].fd := InterestOf(items'[n])]
  {
    var a, b := SplitAt(t, n);
    ModifiedAt(items, items', a, n, b);
  }

  lemma {:induction false} RemovedAt(items: Items, a: seq<int>, n: int, b: seq<int>)
    requires Listed(items, a + [n] + b) && Ascending(items, a + [n] + b)
    ensures n in items && Listed(items, a + b) && Ascending(items, a + b)
    ensures Interests(items, a + b) == Interests(items, a + [n] + b) - {items[n].fd}
  {
    InterestsInsert(items, a, n, b);
    var q, r := a + [n] + b, a + b;
    hide Interests;
    forall i, j | 0 <= i < j < |r| ensures items[r[i]].fd < items[r[j]].fd {
      var i', j' := if i < |a| then i else i + 1, if j < |a| then j else j + 1;
      assert r[i] == q[i'] && r[j] == q[j'];
    }
  }

  lemma {:induction false} RemovedInterests(items: Items, t: Tree, n: int)
    requires Distinct(t) && n in Ids(t) && Listed(items, Inorder(t)) && Ascending(items, Inorder(t))
    ensures n in items && Listed(items, Remove(Inorder(t), n)) && Ascending(items, Remove(Inorder(t), n))
    ensures Interests(items, Remove(Inorder(t), n)) == Interests(items, Inorder(t)) - {items[n].fd}
  {
    var a, b := SplitAt(t, n);
    RemovedAt(items, a, n, b);
  }

  /** Freeing the memory of an unlinked item. */
  lemma {:induction false} FreedInterests(items: Items, items': Items, q: seq<int>, n: int)
    requires Listed(items, q) && Ascending(items, q) && n !in q && items' == items - {n}
    ensures Listed(items', q) && Ascending(items', q) && Interests(items', q) == Interests(items, q)
  {
    forall i | 0 <= i < |q| ensures q[i] in items' && items'[q[i]] == items[q[i]] { assert q[i] in q; }
    InterestsFrame(items, items', q);
  }

  lemma {:induction false} RemovedIds(t: Tree, n: int, u: Tree)
    requires Distinct(t) && n in Ids(t) && Inorder(u) == Remove(Inorder(t), n)
    ensures Ids(u) == Ids(t) - {n} && |Inorder(u)| == |Inorder(t)| - 1
  {
    var a, b := SplitAt(t, n);
    InorderIds(t);
    InorderIds(u);
    forall m ensures m in Ids(u) <==> m in Ids(t) && m != n {
      assert m in a + [n] + b <==> m in a || m == n || m in b;
      assert m in a + b <==> m in a || m in b;
    }
  }

  lemma {:induction false} Present(items: Items, t: Tree, fd: int)
    requires Listed(items, Inorder(t)) && exists m :: m in Ids(t) && m in items && items[m].fd == fd
    ensures fd in Interests(items, Inorder(t))
  {
    var m :| m in Ids(t) && m in items && items[m].fd == fd;
    InorderIds(t);
    var i :| 0 <= i < |Inorder(t)| && Inorder(t)[i] == m;
    InterestsKeys(items, Inorder(t));
    assert Fds(items, Inorder(t))[i] == fd;
  }

  lemma {:induction false} InsertedIds(t: Tree, n: int, k: Ctx, u: Tree)
    requires t == Plug(k, Leaf) && Inorder(u) == Before(k) + [n] + After(k)
    ensures Ids(u) == Ids(t) + {n} && |Inorder(u)| == |Inorder(t)| + 1
  {
    PlugInorder(k, Leaf);
    InorderIds(t);
    InorderIds(u);
    forall m ensures m in Ids(u) <==> m in Ids(t) || m == n {
      assert m in Inorder(u) <==> m in Before(k) || m == n || m in After(k);
      assert m in Inorder(t) <==> m in Before(k) || m in After(k);
    }
  }
}
